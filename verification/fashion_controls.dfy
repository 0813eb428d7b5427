/**
 * The virtual try-on panel (`FashionControls.tsx`): the colour picker opened
 * by clicking a garment, what counts as applied, and the grouping of the
 * catalogue into categories in a fixed order.
 */
module FashionControls {
  import opened Wrappers
  import PhotoTypes
  import PhotoEditor

  type FashionItem = PhotoTypes.FashionItem
  type AppliedItem = PhotoTypes.AppliedItem
  type Color = PhotoTypes.Color

  // ---------------------------------------------------------------------------
  // Clicking items and colours

  /**
   * What a click does: the garment whose colour picker is open afterwards,
   * and the (item, colour) handed to the editor, if any.
   */
  datatype Click = Click(picker: Option<int>, apply: Option<AppliedItem>)

  /**
   * `handleItemClick`: a garment with colours toggles its picker (closing it
   * when it was the open one) and applies nothing; one without colours is
   * applied at once with the empty colour, leaving the picker as it was.
   */
  function ItemClick(picker: Option<int>, item: FashionItem): (r: Click)
    ensures |item.colors| > 0 ==> r.apply.None? && (r.picker == Some(item.id) <==> picker != Some(item.id))
    ensures |item.colors| > 0 ==> r.picker.None? || r.picker == Some(item.id)
    ensures |item.colors| == 0 ==>
      r.picker == picker && r.apply == Some(PhotoTypes.AppliedItem(item, PhotoTypes.Color("", "")))
  {
    if |item.colors| > 0 then
      Click(if picker == Some(item.id) then None else Some(item.id), None)
    else
      Click(picker, Some(PhotoTypes.AppliedItem(item, PhotoTypes.Color("", ""))))
  }

  /** Clicking a coloured garment twice leaves its picker as it was only when it was open. */
  lemma ClickTwice(picker: Option<int>, item: FashionItem)
    requires |item.colors| > 0
    ensures ItemClick(ItemClick(picker, item).picker, item).picker ==
      (if picker == Some(item.id) then picker else None)
  {
  }

  /** `handleColorSelect`: the chosen colour is applied and the picker closes. */
  function ColorSelect(item: FashionItem, color: Color): (r: Click)
    ensures r.picker.None? && r.apply == Some(PhotoTypes.AppliedItem(item, color))
  {
    Click(None, Some(PhotoTypes.AppliedItem(item, color)))
  }

  /** `isApplied`: some applied entry carries the item's id. */
  predicate IsApplied(applied: seq<AppliedItem>, item: FashionItem) {
    exists i :: 0 <= i < |applied| && applied[i].item.id == item.id
  }

  /** `getAppliedColor`: the colour of the first applied entry with the item's id. */
  function AppliedColor(applied: seq<AppliedItem>, item: FashionItem): (r: Option<Color>)
    ensures r.Some? <==> IsApplied(applied, item)
    ensures r.Some? ==>
      exists i :: 0 <= i < |applied| && applied[i].item.id == item.id && r.value == applied[i].color
        && forall j :: 0 <= j < i ==> applied[j].item.id != item.id
  {
    match PhotoEditor.IndexOfId(applied, item.id)
    case Some(i) => Some(applied[i].color)
    case None => None
  }

  /**
   * Picking a colour for a catalogue garment and handing it to the editor
   * leaves the garment applied in exactly that colour.
   */
  lemma ColorSelectApplies(applied: seq<AppliedItem>, item: FashionItem, color: Color)
    requires !item.isCustom && PhotoEditor.DistinctIds(applied)
    ensures var chosen := ColorSelect(item, color).apply.value;
      var merged := PhotoEditor.MergeFashion(applied, chosen.item, chosen.color);
      IsApplied(merged, item) && AppliedColor(merged, item) == Some(color)
  {
    var merged := PhotoEditor.MergeFashion(applied, item, color);
    PhotoEditor.FashionIdsStayDistinct(applied, item, color);
    var i :| 0 <= i < |merged| && merged[i] == PhotoTypes.AppliedItem(item, color);
    var r := AppliedColor(merged, item);
    var k :| 0 <= k < |merged| && merged[k].item.id == item.id && r.value == merged[k].color;
    assert k == i;
  }

  // ---------------------------------------------------------------------------
  // categorizedItems

  datatype Category = Tops | Suits | Dresses | Pants | Skirts | Shoes | Hats | Necklaces | Accessories

  /** `categoryMap`: every garment type belongs to one category. */
  function CategoryOf(t: PhotoTypes.ItemType): Category {
    match t
    case TShirt => Tops
    case Jacket => Tops
    case Blouse => Tops
    case Sweater => Tops
    case Coat => Tops
    case Suit => Suits
    case Dress => Dresses
    case Pants => Pants
    case Shorts => Pants
    case Skirt => Skirts
    case Shoes => Shoes
    case Boots => Shoes
    case Hat => Hats
    case Necklace => Necklaces
    case Accessory => Accessories
  }

  /** The translation key of a category's heading. */
  function CategoryKey(c: Category): string {
    match c
    case Tops => "categoryTops"
    case Suits => "categorySuits"
    case Dresses => "categoryDresses"
    case Pants => "categoryPants"
    case Skirts => "categorySkirts"
    case Shoes => "categoryShoes"
    case Hats => "categoryHats"
    case Necklaces => "categoryNecklaces"
    case Accessories => "categoryAccessories"
  }

  const CategoryOrder: seq<Category> := [Tops, Suits, Dresses, Pants, Skirts, Shoes, Hats, Necklaces, Accessories]

  /** The catalogue's items of one category, in catalogue order. */
  function ItemsIn(catalogue: seq<FashionItem>, c: Category): (r: seq<FashionItem>)
    ensures forall x :: x in r <==> x in catalogue && CategoryOf(x.itemType) == c
    ensures |r| <= |catalogue|
    decreases |catalogue|
  {
    if |catalogue| == 0 then []
    else
      var rest := ItemsIn(catalogue[1..], c);
      if CategoryOf(catalogue[0].itemType) == c then [catalogue[0]] + rest else rest
  }

  /** A garment is listed under its category as many times as the catalogue holds it, and never elsewhere. */
  lemma {:induction false} ItemsInCounts(catalogue: seq<FashionItem>, c: Category, x: FashionItem)
    ensures multiset(ItemsIn(catalogue, c))[x] == if CategoryOf(x.itemType) == c then multiset(catalogue)[x] else 0
    decreases |catalogue|
  {
    if |catalogue| > 0 {
      assert catalogue == [catalogue[0]] + catalogue[1..];
      ItemsInCounts(catalogue[1..], c, x);
    }
  }

  /**
   * A category's garments keep catalogue order: the garments of a
   * concatenation are those of each part in turn, and a single garment is
   * listed exactly under its own category.
   */
  lemma {:induction false} ItemsInAppend(a: seq<FashionItem>, b: seq<FashionItem>, c: Category)
    ensures ItemsIn(a + b, c) == ItemsIn(a, c) + ItemsIn(b, c)
    ensures |a| == 1 ==> ItemsIn(a, c) == if CategoryOf(a[0].itemType) == c then a else []
    decreases |a|
  {
    if |a| > 0 {
      var head := if CategoryOf(a[0].itemType) == c then [a[0]] else [];
      assert (a + b)[0] == a[0] && (a + b)[1..] == a[1..] + b;
      ItemsInAppend(a[1..], b, c);
      assert ItemsIn(a + b, c) == head + ItemsIn(a[1..] + b, c);
      assert ItemsIn(a, c) == head + ItemsIn(a[1..], c);
    } else {
      assert a + b == b;
    }
  }

  /** Position of a category in the panel's fixed order. */
  function Rank(c: Category): nat {
    match c
    case Tops => 0
    case Suits => 1
    case Dresses => 2
    case Pants => 3
    case Skirts => 4
    case Shoes => 5
    case Hats => 6
    case Necklaces => 7
    case Accessories => 8
  }

  predicate Ascending(cs: seq<Category>) {
    forall i, j :: 0 <= i < j < |cs| ==> Rank(cs[i]) < Rank(cs[j])
  }

  /** The categories of `order` that hold at least one garment, in that order. */
  function Present(catalogue: seq<FashionItem>, order: seq<Category>): (r: seq<Category>)
    ensures forall c :: c in r <==> c in order && |ItemsIn(catalogue, c)| > 0
    ensures Ascending(order) ==> Ascending(r)
    decreases |order|
  {
    if |order| == 0 then []
    else
      var rest := Present(catalogue, order[1..]);
      AscendingTail(order);
      if |ItemsIn(catalogue, order[0])| > 0 then
        AscendingCons(order, rest);
        [order[0]] + rest
      else rest
  }

  lemma AscendingTail(order: seq<Category>)
    requires |order| > 0
    ensures Ascending(order) ==> Ascending(order[1..])
  {
    if Ascending(order) {
      forall i, j | 0 <= i < j < |order[1..]| ensures Rank(order[1..][i]) < Rank(order[1..][j]) {
        assert order[1..][i] == order[i + 1] && order[1..][j] == order[j + 1];
      }
    }
  }

  /** Putting the first category before a rising selection of the later ones keeps it rising. */
  lemma AscendingCons(order: seq<Category>, rest: seq<Category>)
    requires |order| > 0 && forall c :: c in rest ==> c in order[1..]
    requires Ascending(order) ==> Ascending(rest)
    ensures Ascending(order) ==> Ascending([order[0]] + rest)
  {
    if Ascending(order) {
      var r := [order[0]] + rest;
      forall c | c in rest ensures Rank(order[0]) < Rank(c) {
        var k :| 0 <= k < |order[1..]| && order[1..][k] == c;
        assert order[k + 1] == c;
      }
      forall i, j | 0 <= i < j < |r| ensures Rank(r[i]) < Rank(r[j]) {
        assert r[j] == rest[j - 1];
        if i > 0 {
          assert r[i] == rest[i - 1];
        } else {
          assert rest[j - 1] in rest;
        }
      }
    }
  }

  /** One heading of the panel with its garments. */
  datatype Group = Group(category: Category, heading: string, items: seq<FashionItem>)

  /**
   * `categorizedItems`: the non-empty categories in the fixed order, each
   * with its heading key and its garments in catalogue order.
   */
  function Categorized(catalogue: seq<FashionItem>): (r: seq<Group>)
    ensures |r| == |Present(catalogue, CategoryOrder)|
    ensures forall i :: 0 <= i < |r| ==>
      r[i].category == Present(catalogue, CategoryOrder)[i]
      && r[i].items == ItemsIn(catalogue, r[i].category) && r[i].heading == CategoryKey(r[i].category)
  {
    var cs := Present(catalogue, CategoryOrder);
    seq(|cs|, i requires 0 <= i < |cs| => Group(cs[i], CategoryKey(cs[i]), ItemsIn(catalogue, cs[i])))
  }

  /** The fixed order names every category. */
  lemma OrderNamesEveryCategory(c: Category)
    ensures c in CategoryOrder
  {
    assert CategoryOrder[Rank(c)] == c;
  }

  /** Every heading lists at least one garment. */
  lemma HeadingsNonEmpty(catalogue: seq<FashionItem>)
    ensures forall i :: 0 <= i < |Categorized(catalogue)| ==> |Categorized(catalogue)[i].items| > 0
  {
    var r := Categorized(catalogue);
    var cs := Present(catalogue, CategoryOrder);
    forall i | 0 <= i < |r| ensures |r[i].items| > 0 {
      assert cs[i] in cs;
    }
  }

  /** Headings follow the fixed order, so none appears twice. */
  lemma HeadingsInOrder(catalogue: seq<FashionItem>)
    ensures var r := Categorized(catalogue);
      forall i, j :: 0 <= i < j < |r| ==> Rank(r[i].category) < Rank(r[j].category)
  {
    assert forall i :: 0 <= i < |CategoryOrder| ==> Rank(CategoryOrder[i]) == i;
    assert Ascending(CategoryOrder);
    var cs := Present(catalogue, CategoryOrder);
    assert Ascending(cs);
  }

  /** A category has a heading exactly when some garment belongs to it. */
  lemma HeadingsComplete(catalogue: seq<FashionItem>, c: Category)
    ensures |ItemsIn(catalogue, c)| > 0 <==>
      exists i :: 0 <= i < |Categorized(catalogue)| && Categorized(catalogue)[i].category == c
  {
    var r := Categorized(catalogue);
    var cs := Present(catalogue, CategoryOrder);
    OrderNamesEveryCategory(c);
    if |ItemsIn(catalogue, c)| > 0 {
      var i :| 0 <= i < |cs| && cs[i] == c;
      assert r[i].category == c;
    }
    if exists i :: 0 <= i < |r| && r[i].category == c {
      var i :| 0 <= i < |r| && r[i].category == c;
      assert cs[i] in cs;
    }
  }

  /**
   * Every catalogue garment is listed, and listed only under the heading of
   * its own type's category.
   */
  lemma ItemsInTheirCategory(catalogue: seq<FashionItem>, x: FashionItem)
    ensures x in catalogue ==>
      exists i :: 0 <= i < |Categorized(catalogue)| && x in Categorized(catalogue)[i].items
    ensures forall i :: 0 <= i < |Categorized(catalogue)| && x in Categorized(catalogue)[i].items ==>
      Categorized(catalogue)[i].category == CategoryOf(x.itemType)
  {
    var r := Categorized(catalogue);
    if x in catalogue {
      var c := CategoryOf(x.itemType);
      assert x in ItemsIn(catalogue, c);
      HeadingsComplete(catalogue, c);
      var i :| 0 <= i < |r| && r[i].category == c;
      assert x in r[i].items;
    }
  }
}
