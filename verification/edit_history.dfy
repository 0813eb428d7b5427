/**
 * The photo editor's linear edit history: a list of snapshots and a cursor.
 * Committing drops everything after the cursor and appends one snapshot;
 * undo and redo only move the cursor.
 */
module EditHistory {
  import opened Wrappers
  import opened PhotoTypes

  /** `history` and `historyIndex`; the index is -1 while there is no image. */
  datatype History = History(entries: seq<HistoryEntry>, cursor: int)

  const Empty := History([], -1)

  /** The cursor names an entry, or the history is empty with cursor -1. */
  predicate Valid(h: History) {
    (|h.entries| == 0 && h.cursor == -1) || (0 <= h.cursor < |h.entries|)
  }

  predicate CanUndo(h: History) {
    h.cursor > 0
  }

  predicate CanRedo(h: History) {
    h.cursor < |h.entries| - 1
  }

  function Current(h: History): HistoryEntry
    requires Valid(h) && |h.entries| > 0
  {
    h.entries[h.cursor]
  }

  /** The history of a freshly uploaded image: one entry with every facet cleared. */
  function Start(images: seq<Image>): (h: History)
    ensures Valid(h) && |h.entries| == 1 && h.cursor == 0
    ensures !CanUndo(h) && !CanRedo(h)
    ensures Current(h).images == images && Current(h).facets == NoFacets
  {
    History([HistoryEntry(images, NoFacets)], 0)
  }

  /**
   * The history half of `addHistoryEntry`: keep entries 0..cursor, append the
   * new one, and point the cursor at it; any redo branch is gone.
   */
  function Commit(h: History, e: HistoryEntry): (r: History)
    requires Valid(h)
    ensures Valid(r) && |r.entries| == h.cursor + 2
    ensures Current(r) == e && !CanRedo(r)
    ensures forall i :: 0 <= i <= h.cursor ==> r.entries[i] == h.entries[i]
    ensures h.cursor >= 0 ==> CanUndo(r)
  {
    var entries := h.entries[..h.cursor + 1] + [e];
    History(entries, |entries| - 1)
  }

  /** The cursor move of `handleUndo`: one step back when possible. */
  function Back(h: History): (r: History)
    requires Valid(h)
    ensures Valid(r) && r.entries == h.entries
    ensures CanUndo(h) ==> r.cursor == h.cursor - 1 && CanRedo(r)
    ensures !CanUndo(h) ==> r == h
  {
    if CanUndo(h) then h.(cursor := h.cursor - 1) else h
  }

  /** The cursor move of `handleRedo`: one step forward when possible. */
  function Forward(h: History): (r: History)
    requires Valid(h)
    ensures Valid(r) && r.entries == h.entries
    ensures CanRedo(h) ==> r.cursor == h.cursor + 1 && CanUndo(r)
    ensures !CanRedo(h) ==> r == h
  {
    if CanRedo(h) then h.(cursor := h.cursor + 1) else h
  }

  /** Back then forward, or forward then back, returns to the same cursor. */
  lemma BackForward(h: History)
    requires Valid(h)
    ensures CanUndo(h) ==> Forward(Back(h)) == h
    ensures CanRedo(h) ==> Back(Forward(h)) == h
  {
  }

  /** Committing after stepping back discards the entries that could have been redone. */
  lemma CommitAfterBack(h: History, e: HistoryEntry)
    requires Valid(h) && CanUndo(h)
    ensures |Commit(Back(h), e).entries| == h.cursor + 1
    ensures Commit(Back(h), e).entries[..h.cursor] == h.entries[..h.cursor]
  {
  }

  /** A field of the update record: absent (keep the captured value) or given. */
  datatype Update<T> = Keep | Replace(value: T)

  function Pick<T>(u: Update<T>, captured: T): T {
    match u
    case Keep => captured
    case Replace(v) => v
  }

  /** `Partial<HistoryEntry>` restricted to the nine facets. */
  datatype FacetUpdates = FacetUpdates(
    fashionItems: Update<seq<AppliedItem>>,
    hairStyle: Update<Option<Look>>,
    makeupLook: Update<Option<Look>>,
    styleLook: Update<Option<Look>>,
    bodyShape: Update<Option<Look>>,
    background: Update<Option<Look>>,
    faceRetouch: Update<Option<FaceRetouch>>,
    textStyle: Update<Option<TextStyle>>,
    faceSwapImage: Update<Option<Image>>)

  /** The empty update record `{}`. */
  const KeepAll := FacetUpdates(Keep, Keep, Keep, Keep, Keep, Keep, Keep, Keep, Keep)

  /** Every facet given explicitly, with the values of `f`. */
  function SetAll(f: Facets): FacetUpdates {
    FacetUpdates(
      Replace(f.fashionItems), Replace(f.hairStyle), Replace(f.makeupLook), Replace(f.styleLook),
      Replace(f.bodyShape), Replace(f.background), Replace(f.faceRetouch), Replace(f.textStyle),
      Replace(f.faceSwapImage))
  }

  /**
   * The facets of the entry `addHistoryEntry` builds: a given field wins, an
   * absent one is copied from the facets the handler captured.
   */
  function Merge(captured: Facets, u: FacetUpdates): (f: Facets)
    ensures u.fashionItems.Replace? ==> f.fashionItems == u.fashionItems.value
    ensures u.fashionItems.Keep? ==> f.fashionItems == captured.fashionItems
    ensures u.hairStyle.Replace? ==> f.hairStyle == u.hairStyle.value
    ensures u.hairStyle.Keep? ==> f.hairStyle == captured.hairStyle
    ensures u.makeupLook.Replace? ==> f.makeupLook == u.makeupLook.value
    ensures u.makeupLook.Keep? ==> f.makeupLook == captured.makeupLook
    ensures u.styleLook.Replace? ==> f.styleLook == u.styleLook.value
    ensures u.styleLook.Keep? ==> f.styleLook == captured.styleLook
    ensures u.bodyShape.Replace? ==> f.bodyShape == u.bodyShape.value
    ensures u.bodyShape.Keep? ==> f.bodyShape == captured.bodyShape
    ensures u.background.Replace? ==> f.background == u.background.value
    ensures u.background.Keep? ==> f.background == captured.background
    ensures u.faceRetouch.Replace? ==> f.faceRetouch == u.faceRetouch.value
    ensures u.faceRetouch.Keep? ==> f.faceRetouch == captured.faceRetouch
    ensures u.textStyle.Replace? ==> f.textStyle == u.textStyle.value
    ensures u.textStyle.Keep? ==> f.textStyle == captured.textStyle
    ensures u.faceSwapImage.Replace? ==> f.faceSwapImage == u.faceSwapImage.value
    ensures u.faceSwapImage.Keep? ==> f.faceSwapImage == captured.faceSwapImage
  {
    Facets(
      Pick(u.fashionItems, captured.fashionItems),
      Pick(u.hairStyle, captured.hairStyle),
      Pick(u.makeupLook, captured.makeupLook),
      Pick(u.styleLook, captured.styleLook),
      Pick(u.bodyShape, captured.bodyShape),
      Pick(u.background, captured.background),
      Pick(u.faceRetouch, captured.faceRetouch),
      Pick(u.textStyle, captured.textStyle),
      Pick(u.faceSwapImage, captured.faceSwapImage))
  }

  /** An empty update record snapshots the captured facets; a complete one ignores them. */
  lemma MergeExtremes(captured: Facets, f: Facets)
    ensures Merge(captured, KeepAll) == captured
    ensures Merge(captured, SetAll(f)) == f
  {
  }
}
