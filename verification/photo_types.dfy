/**
 * The photo editor's data: catalogue items, the looks a user can apply, and
 * the record of applied looks ("facets") that each history entry carries.
 */
module PhotoTypes {
  import opened Wrappers

  /** A displayable image reference: a data URL or an object URL. */
  type Image = string

  datatype Color = Color(name: string, hex: string)

  datatype ItemType =
    | TShirt | Jacket | Shoes | Accessory | Pants | Hat | Necklace | Blouse
    | Skirt | Suit | Dress | Sweater | Coat | Shorts | Boots

  /**
   * A catalogue or user-extracted garment. An absent colour list is the empty
   * list and an absent `isCustom` flag is `false`.
   */
  datatype FashionItem = FashionItem(
    id: int,
    key: string,
    itemType: ItemType,
    imageUrl: string,
    prompt: string,
    colors: seq<Color>,
    isCustom: bool)

  datatype AppliedItem = AppliedItem(item: FashionItem, color: Color)

  /** Hair styles, make-up looks, stylist looks, body shapes and backgrounds share this shape. */
  datatype Look = Look(id: int, key: string, imageUrl: string, prompt: string)

  datatype FaceRetouch = FaceRetouch(smoothSkin: bool, whitenTeeth: bool, enhanceEyes: bool)

  datatype TextStyle = TextStyle(key: string, prompt: string, thumbnail: string)

  datatype Filter = Filter(key: string, prompt: string, thumbnail: string)

  /** The nine style facets recorded with every history entry. */
  datatype Facets = Facets(
    fashionItems: seq<AppliedItem>,
    hairStyle: Option<Look>,
    makeupLook: Option<Look>,
    styleLook: Option<Look>,
    bodyShape: Option<Look>,
    background: Option<Look>,
    faceRetouch: Option<FaceRetouch>,
    textStyle: Option<TextStyle>,
    faceSwapImage: Option<Image>)

  /** Every facet cleared. */
  const NoFacets := Facets([], None, None, None, None, None, None, None, None)

  datatype HistoryEntry = HistoryEntry(images: seq<Image>, facets: Facets)

  /** A clothing item the detector reports for an uploaded photo. */
  datatype DetectedItem = DetectedItem(category: string, description: string)
}
