/**
 * The deterministic parts of the photo editor's Gemini client: how a request
 * is assembled, which part of a response is taken, how the style tag of an
 * image analysis is parsed, and how failures are reported to the caller.
 * The model calls themselves are inputs (a reply, or a failed call).
 */
module GeminiService {
  import opened Wrappers
  import opened Strings

  /** Appended to every edit prompt; it begins with a space of its own. */
  const EngineSuffix: string :=
    " Render in 8K Ultra-HD resolution. Enhance fabric textures to be hyper-realistic. Apply soft studio lighting or natural 'Tokyo sunlight'. Clean Mode: remove image noise and artifacts. FACE STABILIZATION: Preserve the original facial features, expression, and identity with 100% accuracy."

  const EditFailedMessage: string :=
    "Failed to edit image with AI. Please check the console for more details."
  const AnalyzeFailedMessage: string :=
    "Failed to analyze image and generate prompt. Please check the console for more details."
  const PerspectiveFailedMessage: string :=
    "Failed to generate new perspectives with AI. Please check the console for more details."

  /** A part of a request: inline image data, or text. */
  datatype RequestPart = Inline(data: string, mimeType: string) | Text(text: string)

  /** A part of a model response; either field may be absent. */
  datatype ResponsePart = ResponsePart(inlineData: Option<InlineData>, text: Option<string>)
  datatype InlineData = InlineData(data: string, mimeType: string)

  /** What a request produced: the first candidate's parts (absent if there were none), or a failed call. */
  datatype Reply = Responded(parts: Option<seq<ResponsePart>>) | CallFailed

  /** What `editImageWithPrompt` makes of a response before error handling. */
  datatype Choice = ImageData(data: string) | TextInstead(text: string) | NothingUsable

  predicate IsImagePart(p: ResponsePart) {
    p.inlineData.Some? && StartsWith(p.inlineData.value.mimeType, "image/")
  }

  /** A part whose text is present and non-empty (JavaScript truthiness). */
  predicate IsTextPart(p: ResponsePart) {
    p.text.Some? && p.text.value != ""
  }

  /** Index of the first part satisfying `P`. */
  function FindFirst(parts: seq<ResponsePart>, P: ResponsePart -> bool): (r: Option<nat>)
    ensures r.Some? ==> r.value < |parts| && P(parts[r.value])
    ensures r.Some? ==> forall j :: 0 <= j < r.value ==> !P(parts[j])
    ensures r.None? ==> forall j :: 0 <= j < |parts| ==> !P(parts[j])
    decreases |parts|
  {
    if |parts| == 0 then None
    else if P(parts[0]) then Some(0)
    else match FindFirst(parts[1..], P)
      case None => None
      case Some(i) => Some(i + 1)
  }

  /**
   * The first image part wins; failing that, the first part with text; failing
   * that, nothing.
   */
  function ChoosePart(parts: Option<seq<ResponsePart>>): (c: Choice)
    ensures c.ImageData? <==> parts.Some? && exists i :: 0 <= i < |parts.value| && IsImagePart(parts.value[i])
    ensures c.ImageData? ==> parts.Some? && exists i :: (0 <= i < |parts.value| && IsImagePart(parts.value[i])
      && (forall j :: 0 <= j < i ==> !IsImagePart(parts.value[j]))
      && c.data == parts.value[i].inlineData.value.data)
    ensures c.TextInstead? ==> parts.Some? && exists i :: (0 <= i < |parts.value| && IsTextPart(parts.value[i])
      && (forall j :: 0 <= j < i ==> !IsTextPart(parts.value[j]))
      && c.text == parts.value[i].text.value)
    ensures c.NothingUsable? <==>
      parts.None? || forall j :: 0 <= j < |parts.value| ==> !IsImagePart(parts.value[j]) && !IsTextPart(parts.value[j])
  {
    if parts.None? then NothingUsable
    else match FindFirst(parts.value, IsImagePart)
      case Some(i) => ImageData(parts.value[i].inlineData.value.data)
      case None =>
        match FindFirst(parts.value, IsTextPart)
        case Some(j) => TextInstead(parts.value[j].text.value)
        case None => NothingUsable
  }

  /**
   * The parts of an edit request: the source image, then the extra image as
   * PNG when one is given and non-empty, then the prompt with the suffix.
   */
  function EditRequestParts(image: string, mimeType: string, prompt: string, extra: Option<string>): (parts: seq<RequestPart>)
    ensures |parts| == (if extra.Some? && extra.value != "" then 3 else 2)
    ensures parts[0] == Inline(image, mimeType)
    ensures parts[|parts| - 1] == Text(prompt + " " + EngineSuffix)
    ensures |parts| == 3 ==> parts[1] == Inline(extra.value, "image/png")
  {
    var extraParts := if extra.Some? && extra.value != "" then [Inline(extra.value, "image/png")] else [];
    [Inline(image, mimeType)] + extraParts + [Text(prompt + " " + EngineSuffix)]
  }

  /**
   * `editImageWithPrompt`: the image data, or no image; a text-only answer and
   * a failed call both surface as the one fixed failure message.
   */
  function EditImageWithPrompt(reply: Reply): (r: Result<Option<string>, string>)
    ensures r.Failure? ==> r.error == EditFailedMessage
    ensures r.Failure? <==> reply.CallFailed? || ChoosePart(reply.parts).TextInstead?
    ensures r.Success? && r.value.Some? <==> reply.Responded? && ChoosePart(reply.parts).ImageData?
    ensures r.Success? && r.value.Some? ==> r.value.value == ChoosePart(reply.parts).data
  {
    match reply
    case CallFailed => Failure(EditFailedMessage)
    case Responded(parts) =>
      match ChoosePart(parts)
      case ImageData(d) => Success(Some(d))
      case TextInstead(_) => Failure(EditFailedMessage)
      case NothingUsable => Success(None)
  }

  /** Characters `.` does not match in a JavaScript regular expression. */
  predicate IsLineTerminator(c: char) {
    c == '\n' || c == '\r' || c == '\U{2028}' || c == '\U{2029}'
  }

  /** Where the lazy `.*?` before `]` stops, scanning from `k`: the first `]` on the same line. */
  function TagClose(text: string, k: nat): (r: Option<nat>)
    requires k <= |text|
    ensures r.Some? ==> k <= r.value < |text| && text[r.value] == ']'
    ensures r.Some? ==> forall j :: k <= j < r.value ==> text[j] != ']' && !IsLineTerminator(text[j])
    ensures r.None? ==> forall j :: k <= j < |text| && text[j] == ']' ==> exists m :: k <= m < j && IsLineTerminator(text[m])
    decreases |text| - k
  {
    if k == |text| then None
    else if text[k] == ']' then Some(k)
    else if IsLineTerminator(text[k]) then None
    else TagClose(text, k + 1)
  }

  /** Index of the `]` closing a leading `[...]` tag, if the text starts with one. */
  function StyleTagEnd(text: string): (r: Option<nat>)
    ensures r.Some? ==> |text| > 0 && text[0] == '['
  {
    if |text| > 0 && text[0] == '[' then TagClose(text, 1) else None
  }

  /** The detected style and the analysis text with the tag and the white space after it removed. */
  datatype StyleSplit = StyleSplit(style: string, analysis: string)

  function SplitStyleTag(text: string): (r: StyleSplit)
    ensures StyleTagEnd(text).None? ==> r == StyleSplit("Unknown", text)
    ensures StyleTagEnd(text).Some? ==>
      var e := StyleTagEnd(text).value;
      text == "[" + r.style + "]" + text[e + 1..]
      && !(']' in r.style)
      && (forall c :: c in r.style ==> !IsLineTerminator(c))
      && r.analysis == TrimStart(text[e + 1..], JsIsSpace)
  {
    match StyleTagEnd(text)
    case None => StyleSplit("Unknown", text)
    case Some(e) =>
      var style := text[1..e];
      assert text == [text[0]] + style + [text[e]] + text[e + 1..];
      StyleSplit(style, TrimStart(text[e + 1..], JsIsSpace))
  }

  /** What `analyzeImageAndGeneratePrompt` returns. */
  datatype Analysis = Analysis(analysis: string, prompt: string, japanesePrompt: string, detectedStyle: string)

  /** One text reply: its text (possibly empty), or a failed call. */
  datatype TextReply = Answered(text: string) | Unanswered

  /**
   * The three chained calls: analysis, prompt, translation. An empty analysis
   * or prompt, or any failed call, becomes the fixed failure message; an empty
   * translation is passed through.
   */
  function AnalyzeImage(analysisReply: TextReply, promptReply: TextReply, translationReply: TextReply): (r: Result<Analysis, string>)
    ensures r.Failure? ==> r.error == AnalyzeFailedMessage
    ensures r.Success? <==>
      analysisReply.Answered? && analysisReply.text != ""
      && promptReply.Answered? && promptReply.text != "" && translationReply.Answered?
    ensures r.Success? ==>
      var tag := SplitStyleTag(analysisReply.text);
      r.value == Analysis(tag.analysis, promptReply.text, translationReply.text, tag.style)
  {
    if analysisReply.Unanswered? || analysisReply.text == "" then Failure(AnalyzeFailedMessage)
    else
      var tag := SplitStyleTag(analysisReply.text);
      if promptReply.Unanswered? || promptReply.text == "" then Failure(AnalyzeFailedMessage)
      else if translationReply.Unanswered? then Failure(AnalyzeFailedMessage)
      else Success(Analysis(tag.analysis, promptReply.text, translationReply.text, tag.style))
  }

  /** The present values, in order. */
  function Present(s: seq<Option<string>>): (r: seq<string>)
    ensures |r| <= |s|
    ensures forall x :: x in r <==> Some(x) in s
    ensures r == [] <==> forall i :: 0 <= i < |s| ==> s[i].None?
    ensures forall x :: multiset(r)[x] == multiset(s)[Some(x)]
  {
    if |s| == 0 then []
    else
      var rest := Present(s[1..]);
      assert s == [s[0]] + s[1..];
      if s[0].Some? then [s[0].value] + rest else rest
  }

  /**
   * The present values keep their order: the values of a concatenation are
   * those of each part in turn, and a single reply gives its value or nothing.
   */
  lemma {:induction false} PresentAppend(a: seq<Option<string>>, b: seq<Option<string>>)
    ensures Present(a + b) == Present(a) + Present(b)
    ensures |a| == 1 ==> Present(a) == if a[0].Some? then [a[0].value] else []
    decreases |a|
  {
    if |a| > 0 {
      assert (a + b)[1..] == a[1..] + b;
      PresentAppend(a[1..], b);
    } else {
      assert a + b == b;
    }
  }

  /**
   * `generateDifferentPerspectiveImage`: one reply per requested image, each
   * an image or nothing; nothing at all, or any failed call, is an error.
   */
  function PerspectiveImages(results: Option<seq<Option<string>>>): (r: Result<seq<string>, string>)
    ensures r.Failure? ==> r.error == PerspectiveFailedMessage
    ensures r.Success? ==> results.Some? && 1 <= |r.value| <= |results.value|
    ensures r.Success? ==> forall x :: multiset(r.value)[x] == multiset(results.value)[Some(x)]
    ensures r.Success? ==> r.value == Present(results.value)
    ensures r.Failure? <==> results.None? || forall i :: 0 <= i < |results.value| ==> results.value[i].None?
  {
    if results.None? then Failure(PerspectiveFailedMessage)
    else
      var valid := Present(results.value);
      if |valid| == 0 then Failure(PerspectiveFailedMessage) else Success(valid)
  }

  /** What the clothing recogniser receives: text with the parse of its trimmed form (absent when that is not JSON), or a failed call. */
  datatype ClothingReply<T> = ClothingText(text: string, parsed: Option<T>) | ClothingCallFailed

  /** `recognizeClothing`: null for a failed call, a blank answer, or an unparsable one. */
  function RecognizeClothing<T>(reply: ClothingReply<T>): (r: Option<T>)
    ensures r.Some? <==> reply.ClothingText? && JsTrim(reply.text) != "" && reply.parsed.Some?
    ensures r.Some? ==> r.value == reply.parsed.value
  {
    match reply
    case ClothingCallFailed => None
    case ClothingText(text, parsed) => if JsTrim(text) == "" then None else parsed
  }
}
