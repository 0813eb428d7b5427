/**
 * The photo editor's top-level state (`App.tsx`): the uploaded image, what is
 * displayed, the applied style facets, the edit history, and the hover preview.
 *
 * An edit runs in two halves. `StartEdit` is the synchronous part of
 * `handleEdit`; it returns the request for the model and a `Pending` record of
 * what the handler's closure captured (the facets and history of the render it
 * ran in). `FinishEdit` applies the model's answer. React setter calls made by a
 * handler before it calls `handleEdit` change the live facets but not the
 * captured ones, and `addHistoryEntry` reads the captured ones.
 */
module PhotoEditor {
  import opened Wrappers
  import opened Strings
  import opened PhotoTypes
  import opened EditHistory

  /** What the error banner shows. */
  datatype Notice = UploadFirst | NoImageReturned | Raised(message: string)

  /** The hover preview: the request counter, the preview image and its loading flag. */
  datatype Preview = Preview(counter: nat, image: Option<Image>, loading: bool)

  datatype AppState = AppState(
    original: Option<Image>,
    displayed: Option<seq<Image>>,
    isLoading: bool,
    error: Option<Notice>,
    loadingMessage: string,
    preview: Preview,
    facets: Facets,
    detected: Option<seq<DetectedItem>>,
    isDetecting: bool,
    history: History)

  const Initial := AppState(None, None, false, None, "", Preview(0, None, false), NoFacets, None, false, EditHistory.Empty)

  /** The state invariant: the history cursor is in range. */
  predicate Inv(s: AppState) {
    EditHistory.Valid(s.history)
  }

  /** What is on screen agrees with the snapshot under the cursor. */
  predicate Synced(s: AppState) {
    Inv(s) && |s.history.entries| > 0
    && s.displayed == Some(Current(s.history).images)
    && s.facets == Current(s.history).facets
  }

  function PngDataUrl(data: string): Image {
    "data:image/png;base64," + data
  }

  /** The edit request sent to the model. */
  datatype EditRequest = EditRequest(source: Image, prompt: string, extra: Option<string>)

  /** What `handleEdit`'s closure captured, for `addHistoryEntry`. */
  datatype Pending = Pending(captured: Facets, history: History, updates: FacetUpdates)

  /** A handler's synchronous effect: the new state and the request it issued, if any. */
  datatype Step = Step(state: AppState, request: Option<EditRequest>, pending: Pending)

  /**
   * The synchronous half of `handleEdit`, on the live state left by the
   * handler's own setter calls. Without an uploaded image it only reports an error.
   */
  function StartEdit(live: AppState, captured: Facets, prompt: string, message: string,
                     updates: FacetUpdates, extra: Option<string>): (st: Step)
    ensures st.request.None? <==> live.original.None?
    ensures st.request.None? ==> st.state == live.(error := Some(UploadFirst))
    ensures st.request.Some? ==>
      st.request.value == EditRequest(live.original.value, prompt, extra)
      && st.state == live.(isLoading := true, error := None, loadingMessage := message)
    ensures st.pending == Pending(captured, live.history, updates)
  {
    var pending := Pending(captured, live.history, updates);
    if live.original.None? then Step(live.(error := Some(UploadFirst)), None, pending)
    else Step(live.(isLoading := true, error := None, loadingMessage := message),
              Some(EditRequest(live.original.value, prompt, extra)), pending)
  }

  /** The model's answer is usable: a non-empty image payload. */
  predicate Delivered(reply: Result<Option<string>, string>) {
    reply.Success? && reply.value.Some? && reply.value.value != ""
  }

  /**
   * The asynchronous half of `handleEdit`: a delivered image is displayed and
   * committed on top of the captured history; otherwise an error is shown and
   * nothing is committed. Loading always ends.
   */
  function FinishEdit(s: AppState, p: Pending, reply: Result<Option<string>, string>): (t: AppState)
    requires Inv(s) && EditHistory.Valid(p.history)
    ensures Inv(t) && !t.isLoading && t.loadingMessage == ""
    ensures t.facets == s.facets && t.original == s.original && t.preview == s.preview
    ensures Delivered(reply) ==>
      var src := PngDataUrl(reply.value.value);
      t.displayed == Some([src]) && t.error == s.error
      && t.history == Commit(p.history, HistoryEntry([src], Merge(p.captured, p.updates)))
    ensures !Delivered(reply) ==>
      t.history == s.history && t.displayed == s.displayed
      && t.error == Some(if reply.Failure? then Raised(reply.error) else NoImageReturned)
  {
    var done := s.(isLoading := false, loadingMessage := "");
    if Delivered(reply) then
      var src := PngDataUrl(reply.value.value);
      done.(displayed := Some([src]), history := Commit(p.history, HistoryEntry([src], Merge(p.captured, p.updates))))
    else if reply.Failure? then
      done.(error := Some(Raised(reply.error)))
    else
      done.(error := Some(NoImageReturned))
  }

  /** `handleEdit` without an image, or with an answer that is not an image, commits nothing. */
  lemma EditCommitsOnlyDeliveredImages(live: AppState, captured: Facets, prompt: string, message: string,
                                       updates: FacetUpdates, extra: Option<string>,
                                       reply: Result<Option<string>, string>)
    requires Inv(live)
    ensures var st := StartEdit(live, captured, prompt, message, updates, extra);
      st.request.None? ==> st.state.history == live.history && st.state.error == Some(UploadFirst)
    ensures var st := StartEdit(live, captured, prompt, message, updates, extra);
      st.request.Some? ==>
        var t := FinishEdit(st.state, st.pending, reply);
        !t.isLoading
        && (t.history == live.history <==> !Delivered(reply))
  {
    var st := StartEdit(live, captured, prompt, message, updates, extra);
    if st.request.Some? && Delivered(reply) {
      var t := FinishEdit(st.state, st.pending, reply);
      assert t.history.cursor == live.history.cursor + 1;
    }
  }

  // ---------------------------------------------------------------------------
  // Exclusive looks: filters, hair, make-up, stylist looks, body shapes,
  // backgrounds, text styles and face retouching each clear every other facet.

  datatype Selection =
    | PickFilter(filter: Filter)
    | PickHair(hair: Look)
    | PickMakeup(makeup: Look)
    | PickStyle(style: Look)
    | PickBodyShape(bodyShape: Look)
    | PickBackground(background: Look)
    | PickText(text: TextStyle)
    | PickRetouch(retouch: FaceRetouch)

  datatype FacetKind =
    | FashionFacet | HairFacet | MakeupFacet | StyleFacet | BodyShapeFacet
    | BackgroundFacet | RetouchFacet | TextFacet | FaceSwapFacet

  /** The facet of kind `k` is null, or the empty list for fashion items. */
  predicate IsClear(f: Facets, k: FacetKind) {
    match k
    case FashionFacet => f.fashionItems == []
    case HairFacet => f.hairStyle.None?
    case MakeupFacet => f.makeupLook.None?
    case StyleFacet => f.styleLook.None?
    case BodyShapeFacet => f.bodyShape.None?
    case BackgroundFacet => f.background.None?
    case RetouchFacet => f.faceRetouch.None?
    case TextFacet => f.textStyle.None?
    case FaceSwapFacet => f.faceSwapImage.None?
  }

  /** The facet a selection sets; a filter sets none. */
  function KindOf(sel: Selection): Option<FacetKind> {
    match sel
    case PickFilter(_) => None
    case PickHair(_) => Some(HairFacet)
    case PickMakeup(_) => Some(MakeupFacet)
    case PickStyle(_) => Some(StyleFacet)
    case PickBodyShape(_) => Some(BodyShapeFacet)
    case PickBackground(_) => Some(BackgroundFacet)
    case PickText(_) => Some(TextFacet)
    case PickRetouch(_) => Some(RetouchFacet)
  }

  /** The facets after `resetAllStyles` and the one setter call. */
  function Selected(sel: Selection): Facets {
    match sel
    case PickFilter(_) => NoFacets
    case PickHair(l) => NoFacets.(hairStyle := Some(l))
    case PickMakeup(l) => NoFacets.(makeupLook := Some(l))
    case PickStyle(l) => NoFacets.(styleLook := Some(l))
    case PickBodyShape(l) => NoFacets.(bodyShape := Some(l))
    case PickBackground(l) => NoFacets.(background := Some(l))
    case PickText(t) => NoFacets.(textStyle := Some(t))
    case PickRetouch(r) => NoFacets.(faceRetouch := Some(r))
  }

  /** The requested retouching steps, in the order the prompt lists them. */
  function RetouchParts(r: FaceRetouch): seq<string> {
    (if r.smoothSkin then ["apply digital skin smoothing for a clear complexion, removing blemishes"] else [])
    + (if r.whitenTeeth then ["subtly whiten their teeth"] else [])
    + (if r.enhanceEyes then ["enhance their eyes to make them brighter and more defined"] else [])
  }

  function SelectionPrompt(sel: Selection): string {
    match sel
    case PickFilter(f) => f.prompt
    case PickHair(l) => l.prompt
    case PickMakeup(l) => l.prompt
    case PickStyle(l) => l.prompt
    case PickBodyShape(l) => l.prompt
    case PickBackground(l) => l.prompt
    case PickText(t) => t.prompt
    case PickRetouch(r) =>
      "Perform the following face retouching on the person in the image: "
      + Join(RetouchParts(r), ", ") + ". Keep the changes natural and realistic."
  }

  /**
   * `applyFilter`, `handleHairStyleSelect`, `handleMakeupLookSelect`,
   * `handleStyleSelect`, `handleBodyShapeStyleSelect`, `handleBackgroundSelect`,
   * `handleJapaneseTextStyleSelect` and `handleApplyFaceRetouch`. A retouch with
   * nothing ticked returns before touching anything; a filter first ends any
   * hover preview.
   */
  function Select(s: AppState, sel: Selection, message: string): (st: Step)
    ensures sel.PickRetouch? && RetouchParts(sel.retouch) == [] ==> st.state == s && st.request.None?
    ensures !(sel.PickRetouch? && RetouchParts(sel.retouch) == []) ==>
      st.state.facets == Selected(sel) && st.pending.updates == SetAll(Selected(sel))
      && (st.request.Some? <==> s.original.Some?)
    ensures st.state.history == s.history && st.pending.history == s.history
    ensures st.state.preview.counter >= s.preview.counter
  {
    if sel.PickRetouch? && RetouchParts(sel.retouch) == [] then
      Step(s, None, Pending(s.facets, s.history, KeepAll))
    else
      var cleared := if sel.PickFilter? then HoverEnd(s) else s;
      var live := cleared.(facets := Selected(sel));
      StartEdit(live, s.facets, SelectionPrompt(sel), message, SetAll(Selected(sel)), None)
  }

  /**
   * After an exclusive selection is delivered, the new snapshot holds that one
   * look and every other facet is null or empty, whatever was applied before,
   * and the screen agrees with the snapshot.
   */
  /** A selection's facets hold its own look and clear every other facet. */
  lemma SelectedIsExclusive(sel: Selection, k: FacetKind)
    ensures IsClear(Selected(sel), k) <==> Some(k) != KindOf(sel)
  {
  }

  lemma SelectionClearsOtherFacets(s: AppState, sel: Selection, message: string, reply: Result<Option<string>, string>)
    requires Inv(s)
    ensures var st := Select(s, sel, message);
      st.request.Some? && Delivered(reply) ==>
        var t := FinishEdit(st.state, st.pending, reply);
        Synced(t)
        && (forall k :: Some(k) != KindOf(sel) ==> IsClear(Current(t.history).facets, k))
        && (KindOf(sel).Some? ==> !IsClear(Current(t.history).facets, KindOf(sel).value))
  {
    var st := Select(s, sel, message);
    if st.request.Some? && Delivered(reply) {
      var t := FinishEdit(st.state, st.pending, reply);
      MergeExtremes(s.facets, Selected(sel));
      assert Current(t.history).facets == Selected(sel);
      forall k ensures IsClear(Current(t.history).facets, k) <==> Some(k) != KindOf(sel) {
        SelectedIsExclusive(sel, k);
      }
    }
  }

  datatype Adjustments = Adjustments(brightness: int, contrast: int, saturation: int, sharpness: int)

  function DigitChar(d: nat): char
    requires d < 10
  {
    "0123456789"[d]
  }

  function NatToString(n: nat): string
    decreases n
  {
    if n < 10 then [DigitChar(n)] else NatToString(n / 10) + [DigitChar(n % 10)]
  }

  /** A whole number as a template literal prints it. */
  function IntToString(i: int): string {
    if i < 0 then "-" + NatToString(-i) else NatToString(i)
  }

  function AdjustmentParts(a: Adjustments): seq<string> {
    (if a.brightness != 100 then ["adjust brightness to " + IntToString(a.brightness) + "%"] else [])
    + (if a.contrast != 100 then ["adjust contrast to " + IntToString(a.contrast) + "%"] else [])
    + (if a.saturation != 100 then ["adjust saturation to " + IntToString(a.saturation) + "%"] else [])
    + (if a.sharpness > 0 then ["increase image sharpness by " + IntToString(a.sharpness) + "%"] else [])
  }

  /**
   * `applyAdjustments`: the styles are reset before the check for an empty
   * adjustment, so neutral settings clear the live facets without an edit.
   */
  function ApplyAdjustments(s: AppState, a: Adjustments, message: string): (st: Step)
    ensures st.state.facets == NoFacets && st.state.history == s.history
    ensures st.request.Some? ==> s.original.Some? && st.pending.updates == SetAll(NoFacets)
    ensures st.request.None? <==>
      s.original.None? || (a.brightness == 100 && a.contrast == 100 && a.saturation == 100 && a.sharpness <= 0)
  {
    var live := s.(facets := NoFacets);
    var parts := AdjustmentParts(a);
    if parts == [] then Step(live, None, Pending(s.facets, s.history, KeepAll))
    else
      StartEdit(live, s.facets, "Perform the following image adjustments: " + Join(parts, ", ") + ".",
                message, SetAll(NoFacets), None)
  }

  // ---------------------------------------------------------------------------
  // Fashion items accumulate.

  /** Catalogue entries only: custom (extracted) items are dropped, order kept. */
  function CatalogueOnly(applied: seq<AppliedItem>): (r: seq<AppliedItem>)
    ensures |r| <= |applied|
    ensures forall a :: a in r <==> a in applied && !a.item.isCustom
    decreases |applied|
  {
    if |applied| == 0 then []
    else
      assert applied == [applied[0]] + applied[1..];
      (if applied[0].item.isCustom then [] else [applied[0]]) + CatalogueOnly(applied[1..])
  }

  /** Each catalogue entry is kept as many times as it occurs; custom ones never. */
  lemma {:induction false} CatalogueOnlyCounts(applied: seq<AppliedItem>, a: AppliedItem)
    ensures multiset(CatalogueOnly(applied))[a] == if a.item.isCustom then 0 else multiset(applied)[a]
    decreases |applied|
  {
    if |applied| > 0 {
      assert applied == [applied[0]] + applied[1..];
      CatalogueOnlyCounts(applied[1..], a);
    }
  }

  /**
   * The filter keeps the input's order: filtering a concatenation filters each
   * part in turn, and a single entry stays exactly when it is a catalogue one.
   */
  lemma {:induction false} CatalogueOnlyAppend(a: seq<AppliedItem>, b: seq<AppliedItem>)
    ensures CatalogueOnly(a + b) == CatalogueOnly(a) + CatalogueOnly(b)
    ensures |a| == 1 ==> CatalogueOnly(a) == if a[0].item.isCustom then [] else a
    decreases |a|
  {
    if |a| > 0 {
      var head := if a[0].item.isCustom then [] else [a[0]];
      assert (a + b)[0] == a[0] && (a + b)[1..] == a[1..] + b;
      CatalogueOnlyAppend(a[1..], b);
      assert CatalogueOnly(a + b) == head + CatalogueOnly(a[1..] + b);
      assert CatalogueOnly(a) == head + CatalogueOnly(a[1..]);
    } else {
      assert a + b == b;
    }
  }

  /** `findIndex` by item id. */
  function IndexOfId(applied: seq<AppliedItem>, id: int): (r: Option<nat>)
    ensures r.Some? ==> r.value < |applied| && applied[r.value].item.id == id
    ensures r.Some? ==> forall j :: 0 <= j < r.value ==> applied[j].item.id != id
    ensures r.None? ==> forall j :: 0 <= j < |applied| ==> applied[j].item.id != id
    decreases |applied|
  {
    if |applied| == 0 then None
    else if applied[0].item.id == id then Some(0)
    else match IndexOfId(applied[1..], id)
      case None => None
      case Some(i) => Some(i + 1)
  }

  /**
   * The new applied-item list of `handleFashionItemSelect`: a custom item
   * replaces everything; a catalogue item drops custom entries, then either
   * recolours the entry with its id in place or is appended.
   */
  function MergeFashion(applied: seq<AppliedItem>, item: FashionItem, color: Color): (r: seq<AppliedItem>)
    ensures item.isCustom ==> r == [AppliedItem(item, Color("", ""))]
    ensures !item.isCustom ==>
      var cat := CatalogueOnly(applied);
      (forall a :: a in r ==> !a.item.isCustom)
      && AppliedItem(item, color) in r
      && (IndexOfId(cat, item.id).Some? ==>
            |r| == |cat| && r[IndexOfId(cat, item.id).value] == AppliedItem(item, color)
            && forall j :: 0 <= j < |r| && j != IndexOfId(cat, item.id).value ==> r[j] == cat[j])
      && (IndexOfId(cat, item.id).None? ==> r == cat + [AppliedItem(item, color)])
  {
    if item.isCustom then [AppliedItem(item, Color("", ""))]
    else
      var cat := CatalogueOnly(applied);
      match IndexOfId(cat, item.id)
      case Some(i) =>
        var r := cat[i := AppliedItem(item, color)];
        assert r[i] == AppliedItem(item, color);
        r
      case None => cat + [AppliedItem(item, color)]
  }

  predicate DistinctIds(applied: seq<AppliedItem>) {
    forall i, j :: 0 <= i < j < |applied| ==> applied[i].item.id != applied[j].item.id
  }

  /** Dropping entries keeps ids distinct. */
  lemma {:induction false} CatalogueOnlyDistinct(applied: seq<AppliedItem>)
    requires DistinctIds(applied)
    ensures DistinctIds(CatalogueOnly(applied))
    decreases |applied|
  {
    if |applied| > 0 {
      CatalogueOnlyDistinct(applied[1..]);
      var rest := CatalogueOnly(applied[1..]);
      forall a | a in rest ensures a.item.id != applied[0].item.id {
        assert a in applied[1..];
      }
    }
  }

  /** Selecting catalogue items never produces two entries for one id. */
  lemma FashionIdsStayDistinct(applied: seq<AppliedItem>, item: FashionItem, color: Color)
    requires DistinctIds(applied)
    ensures DistinctIds(MergeFashion(applied, item, color))
  {
    CatalogueOnlyDistinct(applied);
    var cat := CatalogueOnly(applied);
    if !item.isCustom && IndexOfId(cat, item.id).None? {
      var r := MergeFashion(applied, item, color);
      forall i, j | 0 <= i < j < |r| ensures r[i].item.id != r[j].item.id {
        if j == |cat| {
          assert r[i] == cat[i];
        } else {
          assert r[i] == cat[i] && r[j] == cat[j];
        }
      }
    }
  }

  const FashionPrefix := "Apply the following changes to the person in the image: "
  const FashionSeparator := ". Also, "

  /** One item's instruction: its prompt with the first `{{color}}` replaced by the colour name. */
  function ItemInstruction(a: AppliedItem): string {
    ReplaceFirst(a.item.prompt, "{{color}}", a.color.name)
  }

  function Instructions(applied: seq<AppliedItem>): (r: seq<string>)
    ensures |r| == |applied|
    ensures forall i :: 0 <= i < |applied| ==> r[i] == ItemInstruction(applied[i])
  {
    seq(|applied|, i requires 0 <= i < |applied| => ItemInstruction(applied[i]))
  }

  /** The instructions keep the items' order: those of a concatenation are each part's in turn. */
  lemma InstructionsAppend(a: seq<AppliedItem>, b: seq<AppliedItem>)
    ensures Instructions(a + b) == Instructions(a) + Instructions(b)
    ensures |a| == 1 ==> Instructions(a) == [ItemInstruction(a[0])]
  {
  }

  /** The prompt for catalogue items. */
  function FashionPrompt(applied: seq<AppliedItem>): string {
    FashionPrefix + Join(Instructions(applied), FashionSeparator) + "."
  }

  /**
   * The prompt grows by one instruction per appended item: adding an item
   * inserts ". Also, " and its instruction before the final full stop.
   */
  lemma FashionPromptAppend(applied: seq<AppliedItem>, a: AppliedItem)
    requires |applied| >= 1
    ensures FashionPrompt(applied + [a]) ==
      FashionPrompt(applied)[..|FashionPrompt(applied)| - 1] + FashionSeparator + ItemInstruction(a) + "."
  {
    assert Instructions(applied + [a]) == Instructions(applied) + [ItemInstruction(a)];
    JoinAppend(Instructions(applied), FashionSeparator, ItemInstruction(a));
    var p := FashionPrompt(applied);
    assert p[..|p| - 1] == FashionPrefix + Join(Instructions(applied), FashionSeparator);
  }

  /** A single item gives the prefix, its instruction and a full stop. */
  lemma FashionPromptSingle(a: AppliedItem)
    ensures FashionPrompt([a]) == FashionPrefix + ItemInstruction(a) + "."
  {
    assert Instructions([a]) == [ItemInstruction(a)];
  }

  /** `item.imageUrl.split(',')[1]`: the payload of a data URL, absent when there is no comma. */
  function DataUrlPayload(url: string): (r: Option<string>)
    ensures r.None? <==> !Contains(url, ",")
    ensures r.Some? ==> !Contains(r.value, ",") && StartsWith(url, Split(url, ",")[0] + "," + r.value)
  {
    var parts := Split(url, ",");
    SplitHead(url, ",");
    if |parts| > 1 then
      var n := |parts[0]|;
      var rest := url[n + 1..];
      SplitHead(rest, ",");
      assert parts[1] == Split(rest, ",")[0];
      assert url == parts[0] + "," + rest;
      Some(parts[1])
    else
      None
  }

  /**
   * `handleFashionItemSelect`: only the applied-items facet is set live; the
   * history entry takes the new list and clears every other facet.
   */
  function SelectFashionItem(s: AppState, item: FashionItem, color: Color, message: string): (st: Step)
    ensures st.state.facets == s.facets.(fashionItems := MergeFashion(s.facets.fashionItems, item, color))
    ensures st.pending.updates == SetAll(NoFacets.(fashionItems := MergeFashion(s.facets.fashionItems, item, color)))
    ensures st.request.Some? <==> s.original.Some?
    ensures st.request.Some? && !item.isCustom ==>
      st.request.value.prompt == FashionPrompt(MergeFashion(s.facets.fashionItems, item, color))
      && st.request.value.extra.None?
    ensures st.request.Some? && item.isCustom ==>
      st.request.value.prompt == item.prompt && st.request.value.extra == DataUrlPayload(item.imageUrl)
  {
    var applied := MergeFashion(s.facets.fashionItems, item, color);
    var prompt := if item.isCustom then item.prompt else FashionPrompt(applied);
    var extra := if item.isCustom then DataUrlPayload(item.imageUrl) else None;
    var live := s.(facets := s.facets.(fashionItems := applied));
    StartEdit(live, s.facets, prompt, message, SetAll(NoFacets.(fashionItems := applied)), extra)
  }

  /**
   * A delivered fashion edit commits the new list with every other facet
   * cleared, while the live hair, make-up and other looks are left as they were.
   */
  lemma FashionSnapshotClearsOtherFacets(s: AppState, item: FashionItem, color: Color, message: string,
                                         reply: Result<Option<string>, string>)
    requires Inv(s)
    ensures var st := SelectFashionItem(s, item, color, message);
      st.request.Some? && Delivered(reply) ==>
        var t := FinishEdit(st.state, st.pending, reply);
        Current(t.history).facets.fashionItems == t.facets.fashionItems
        && (forall k :: k != FashionFacet ==> IsClear(Current(t.history).facets, k))
        && t.facets.hairStyle == s.facets.hairStyle
  {
    var st := SelectFashionItem(s, item, color, message);
    if st.request.Some? && Delivered(reply) {
      var applied := MergeFashion(s.facets.fashionItems, item, color);
      MergeExtremes(s.facets, NoFacets.(fashionItems := applied));
    }
  }

  // ---------------------------------------------------------------------------
  // Upload, resets, undo and redo.

  /**
   * The synchronous part of `handleImageUpload`: the new image is shown, every
   * facet is cleared, and the history restarts with one snapshot.
   */
  function UploadImage(s: AppState, file: Image, url: Image): (t: AppState)
    ensures Synced(t) && t.history == Start([url])
    ensures t.original == Some(file) && t.isDetecting && t.detected.None? && t.error.None?
    ensures t.preview == s.preview
  {
    s.(original := Some(file), displayed := Some([url]), facets := NoFacets, detected := None,
       error := None, history := Start([url]), isDetecting := true)
  }

  /** The clothing detector's answer, or a failure to read the file. */
  datatype Detection = Detected(items: Option<seq<DetectedItem>>) | ReadFailed

  function DetectionFinished(s: AppState, d: Detection): (t: AppState)
    ensures !t.isDetecting && t.history == s.history && t.facets == s.facets
    ensures t.detected == (if d.Detected? then d.items else s.detected)
  {
    match d
    case Detected(items) => s.(detected := items, isDetecting := false)
    case ReadFailed => s.(isDetecting := false)
  }

  /**
   * `handleUploadNewImage`: back to the uploader with an empty history. The
   * hover counter and the preview loading flag are left alone.
   */
  function UploadNewImage(s: AppState): (t: AppState)
    ensures Inv(t) && t.history.entries == [] && t.history.cursor == -1
    ensures !CanUndo(t.history) && !CanRedo(t.history)
    ensures t.original.None? && t.displayed.None? && t.preview.image.None? && t.facets == NoFacets
    ensures t.preview.counter == s.preview.counter
  {
    s.(original := None, displayed := None, preview := s.preview.(image := None), isLoading := false,
       error := None, loadingMessage := "", facets := NoFacets, detected := None, isDetecting := false,
       history := EditHistory.Empty)
  }

  datatype ResetKind =
    | ResetImage | ResetFashion | ResetHairAndMakeup | ResetStylist | ResetBackground
    | ResetText | ResetFaceSwap

  /** The fields each reset button names in its update record. */
  function ResetUpdates(k: ResetKind): FacetUpdates {
    match k
    case ResetImage => SetAll(NoFacets)
    case ResetFashion => KeepAll.(fashionItems := Replace([]))
    case ResetHairAndMakeup => KeepAll.(hairStyle := Replace(None), makeupLook := Replace(None), faceRetouch := Replace(None))
    case ResetStylist => KeepAll.(styleLook := Replace(None), bodyShape := Replace(None))
    case ResetBackground => KeepAll.(background := Replace(None))
    case ResetText => KeepAll.(textStyle := Replace(None))
    case ResetFaceSwap => KeepAll.(faceSwapImage := Replace(None))
  }

  /**
   * `resetImage`, `resetFashion`, `resetHairAndMakeup`, `resetStylist`,
   * `resetBackground`, `resetJapaneseText` and `handleResetFaceSwap`: show the
   * original again (through a fresh object URL) and commit with the named
   * facets cleared. Nothing happens without an image, or for the fashion reset
   * when no item is applied.
   */
  function Reset(s: AppState, k: ResetKind, url: Image): (t: AppState)
    requires Inv(s)
    ensures Inv(t)
    ensures s.original.None? || (k == ResetFashion && s.facets.fashionItems == []) ==> t == s
    ensures s.original.Some? && !(k == ResetFashion && s.facets.fashionItems == []) ==>
      Synced(t) && Current(t.history).images == [url]
      && t.facets == Merge(s.facets, ResetUpdates(k))
      && t.history == Commit(s.history, HistoryEntry([url], t.facets))
  {
    if s.original.None? || (k == ResetFashion && s.facets.fashionItems == []) then s
    else
      var f := Merge(s.facets, ResetUpdates(k));
      s.(displayed := Some([url]), facets := f, history := Commit(s.history, HistoryEntry([url], f)))
  }

  /** `restoreStateFromHistory`: the displayed images and all nine facets, nulls included. */
  function Restore(s: AppState, e: HistoryEntry): (t: AppState)
    ensures t.displayed == Some(e.images) && t.facets == e.facets
    ensures t.history == s.history && t.original == s.original && t.preview == s.preview
  {
    s.(displayed := Some(e.images), facets := e.facets)
  }

  function Undo(s: AppState): (t: AppState)
    requires Inv(s)
    ensures Inv(t)
    ensures !CanUndo(s.history) ==> t == s
    ensures CanUndo(s.history) ==> Synced(t) && t.history == Back(s.history)
  {
    if CanUndo(s.history) then
      var h := Back(s.history);
      Restore(s.(history := h), h.entries[h.cursor])
    else s
  }

  function Redo(s: AppState): (t: AppState)
    requires Inv(s)
    ensures Inv(t)
    ensures !CanRedo(s.history) ==> t == s
    ensures CanRedo(s.history) ==> Synced(t) && t.history == Forward(s.history)
  {
    if CanRedo(s.history) then
      var h := Forward(s.history);
      Restore(s.(history := h), h.entries[h.cursor])
    else s
  }

  /** From a state that shows its current snapshot, undo then redo (or redo then undo) changes nothing. */
  lemma UndoRedoRoundTrip(s: AppState)
    requires Synced(s)
    ensures CanUndo(s.history) ==> Redo(Undo(s)) == s
    ensures CanRedo(s.history) ==> Undo(Redo(s)) == s
  {
    BackForward(s.history);
  }

  // ---------------------------------------------------------------------------
  // Hover previews.

  datatype HoverRequest = HoverRequest(id: nat, request: EditRequest)
  datatype HoverStep = HoverStep(state: AppState, started: Option<HoverRequest>)

  /**
   * `handleFilterHoverStart`: ignored while an edit is loading or without an
   * image; otherwise the counter is bumped and its new value tags the request.
   */
  function HoverStart(s: AppState, filter: Filter): (hs: HoverStep)
    ensures s.isLoading || s.original.None? ==> hs.state == s && hs.started.None?
    ensures !(s.isLoading || s.original.None?) ==>
      hs.started.Some? && hs.started.value.id == s.preview.counter + 1 == hs.state.preview.counter
      && hs.started.value.request == EditRequest(s.original.value, filter.prompt, None)
      && hs.state.preview.loading && hs.state.preview.image == s.preview.image
      && hs.state == s.(preview := hs.state.preview)
  {
    if s.isLoading || s.original.None? then HoverStep(s, None)
    else
      var id := s.preview.counter + 1;
      HoverStep(s.(preview := s.preview.(counter := id, loading := true)),
                Some(HoverRequest(id, EditRequest(s.original.value, filter.prompt, None))))
  }

  /**
   * The completion of a preview request: an image is shown and an error clears
   * the preview, but only while the counter still equals the request's id; a
   * null answer changes no image. The loading flag ends under the same test.
   */
  function HoverResolve(s: AppState, id: nat, reply: Result<Option<string>, string>): (t: AppState)
    ensures s.preview.counter != id ==> t == s
    ensures t == s.(preview := t.preview) && t.preview.counter == s.preview.counter
    ensures s.preview.counter == id ==> !t.preview.loading
    ensures s.preview.counter == id && Delivered(reply) ==>
      t.preview.image == Some(PngDataUrl(reply.value.value)) && Shown(t) == Some([PngDataUrl(reply.value.value)])
    ensures s.preview.counter == id && reply.Failure? ==> t.preview.image == None && Shown(t) == s.displayed
    ensures reply.Success? && !Delivered(reply) ==> t.preview.image == s.preview.image
  {
    var current := s.preview.counter == id;
    var image :=
      if current && Delivered(reply) then Some(PngDataUrl(reply.value.value))
      else if current && reply.Failure? then None
      else s.preview.image;
    var loading := if current then false else s.preview.loading;
    s.(preview := Preview(s.preview.counter, image, loading))
  }

  /** `handleFilterHoverEnd`: bump the counter, clear the preview and its loading flag. */
  function HoverEnd(s: AppState): (t: AppState)
    ensures t.preview == Preview(s.preview.counter + 1, None, false)
    ensures t == s.(preview := t.preview)
  {
    s.(preview := Preview(s.preview.counter + 1, None, false))
  }

  /** The images handed to the viewer: the preview when there is one, else the displayed images. */
  function Shown(s: AppState): Option<seq<Image>> {
    if s.preview.image.Some? && s.preview.image.value != "" then Some([s.preview.image.value]) else s.displayed
  }

  /** Once the hover ends, no earlier request can bring a preview back. */
  lemma HoverEndDiscardsEarlierRequests(s: AppState, id: nat, reply: Result<Option<string>, string>)
    requires id <= s.preview.counter
    ensures HoverResolve(HoverEnd(s), id, reply) == HoverEnd(s)
    ensures Shown(HoverResolve(HoverEnd(s), id, reply)) == s.displayed
  {
  }

  /**
   * Two overlapping hovers: whatever the first request answers, and in which
   * order the answers arrive, the second request's image is what is previewed.
   */
  lemma LatestHoverWins(s: AppState, f1: Filter, f2: Filter, data: string,
                        first: Result<Option<string>, string>, firstArrivesLast: bool)
    requires !s.isLoading && s.original.Some? && data != ""
    ensures
      var a := HoverStart(s, f1);
      var b := HoverStart(a.state, f2);
      var reply2 := Success(Some(data));
      var t := if firstArrivesLast
        then HoverResolve(HoverResolve(b.state, b.started.value.id, reply2), a.started.value.id, first)
        else HoverResolve(HoverResolve(b.state, a.started.value.id, first), b.started.value.id, reply2);
      t.preview.image == Some(PngDataUrl(data)) && !t.preview.loading
      && Shown(t) == Some([PngDataUrl(data)])
  {
    var a := HoverStart(s, f1);
    var b := HoverStart(a.state, f2);
    assert a.started.value.id != b.started.value.id;
  }
}
