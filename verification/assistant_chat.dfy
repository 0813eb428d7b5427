/**
 * The chat panel of the AI assistant (`AIAssistantControls.tsx`): how a reply
 * is cut into plain text and fenced prompts that can be turned into images,
 * and when the input box sends.
 */
module AssistantChat {
  import opened Wrappers
  import opened Strings

  const Fence := "```"

  /** A piece of a rendered reply: plain text, or a prompt with a generate button. */
  datatype Element = Text(text: string) | Prompt(prompt: string)

  /** The generation a prompt's button asks for: one image, square. */
  datatype Generation = Generation(prompt: string, count: nat, aspectRatio: string)

  function ButtonRequest(e: Element): (g: Generation)
    requires e.Prompt?
    ensures g.prompt == e.prompt && g.count == 1 && g.aspectRatio == "1:1"
  {
    Generation(e.prompt, 1, "1:1")
  }

  /** Even-numbered pieces are plain text as they are, odd-numbered ones prompts, `trim`med. */
  function Pieces(parts: seq<string>, trim: string -> string): (r: seq<Element>)
    ensures |r| == |parts|
    ensures forall i :: 0 <= i < |r| ==> (r[i].Text? <==> i % 2 == 0)
    ensures forall i :: 0 <= i < |r| && i % 2 == 0 ==> r[i].text == parts[i]
    ensures forall i :: 0 <= i < |r| && i % 2 == 1 ==> r[i].prompt == trim(parts[i])
  {
    seq(|parts|, i requires 0 <= i < |parts| => if i % 2 == 0 then Text(parts[i]) else Prompt(trim(parts[i])))
  }

  /**
   * `parseMessageContent`: the reply split on the fence; even-numbered pieces
   * are plain text as they are, odd-numbered ones are prompts, trimmed.
   */
  function ParseMessage(content: string): (r: seq<Element>)
    ensures |r| == |Split(content, Fence)| && |r| >= 1
    ensures forall i :: 0 <= i < |r| ==> (r[i].Text? <==> i % 2 == 0)
    ensures forall i :: 0 <= i < |r| && i % 2 == 0 ==> r[i].text == Split(content, Fence)[i]
    ensures forall i :: 0 <= i < |r| && i % 2 == 1 ==> r[i].prompt == JsTrim(Split(content, Fence)[i])
  {
    Pieces(Split(content, Fence), JsTrim)
  }

  /** Every fenced piece of a reply gets a button asking for one square image of the trimmed prompt. */
  lemma ButtonsAskForTrimmedPrompts(content: string)
    ensures forall i :: 0 <= i < |ParseMessage(content)| && i % 2 == 1 ==>
      ButtonRequest(ParseMessage(content)[i]) == Generation(JsTrim(Split(content, Fence)[i]), 1, "1:1")
  {
  }

  /** A reply without a fence is one piece of plain text. */
  lemma UnfencedIsText(content: string)
    requires !Contains(content, Fence)
    ensures ParseMessage(content) == [Text(content)]
  {
    SplitHead(content, Fence);
    JoinSplit(content, Fence);
  }

  lemma SplitOneFenced(before: string, prompt: string, after: string)
    requires !Contains(before + "``", Fence) && !Contains(prompt + "``", Fence) && !Contains(after, Fence)
    ensures Split(before + Fence + prompt + Fence + after, Fence) == [before, prompt, after]
  {
    assert Fence[..2] == "``";
    var tail := prompt + Fence + after;
    assert before + Fence + prompt + Fence + after == before + Fence + tail;
    SplitAtFirst(before, Fence, tail);
    SplitAtFirst(prompt, Fence, after);
    SplitHead(after, Fence);
    JoinSplit(after, Fence);
    assert Split(after, Fence) == [after];
  }

  /**
   * A reply with one fenced block becomes the text before it, the trimmed
   * prompt inside it and the text after it, provided neither the text before
   * nor the prompt runs into a fence (a backtick right before a fence would
   * shift it).
   */
  lemma OneFencedPrompt(before: string, prompt: string, after: string)
    requires !Contains(before + "``", Fence) && !Contains(prompt + "``", Fence) && !Contains(after, Fence)
    ensures ParseMessage(before + Fence + prompt + Fence + after) ==
      [Text(before), Prompt(JsTrim(prompt)), Text(after)]
  {
    SplitOneFenced(before, prompt, after);
    PiecesOfThree(before, prompt, after, JsTrim);
  }

  /** Three pieces are text, a trimmed prompt and text. */
  lemma PiecesOfThree(a: string, b: string, c: string, trim: string -> string)
    ensures Pieces([a, b, c], trim) == [Text(a), Prompt(trim(b)), Text(c)]
  {
    var r := Pieces([a, b, c], trim);
    assert r[0].Text? && r[1].Prompt? && r[2].Text?;
  }

  /**
   * Nothing of the reply is lost: joining the pieces again with the fence
   * gives the reply back, text pieces verbatim.
   */
  lemma ParseKeepsEverything(content: string)
    ensures Join(Split(content, Fence), Fence) == content
    ensures forall i :: 0 <= i < |ParseMessage(content)| && i % 2 == 0 ==>
      ParseMessage(content)[i] == Text(Split(content, Fence)[i])
  {
    JoinSplit(content, Fence);
  }

  /** The input box after an attempt to send, and the message sent, if any. */
  datatype Send = Send(sent: Option<string>, input: string)

  /**
   * `handleSendMessage`: a non-blank input is sent trimmed and the box is
   * emptied; a blank one is neither sent nor cleared.
   */
  function SendMessage(input: string): (r: Send)
    ensures r.sent.Some? <==> JsTrim(input) != ""
    ensures r.sent.Some? ==> r.sent.value == JsTrim(input) && r.input == ""
    ensures r.sent.None? ==> r.input == input
  {
    if JsTrim(input) != "" then Send(Some(JsTrim(input)), "") else Send(None, input)
  }

  /** The send button is disabled while the panel is, or while the input is blank. */
  function SendDisabled(isDisabled: bool, input: string): (r: bool)
    ensures !r ==> !isDisabled && SendMessage(input).sent.Some?
    ensures r && !isDisabled ==> SendMessage(input) == Send(None, input)
  {
    isDisabled || JsTrim(input) == ""
  }

  /** A sent message has no blanks at either end, so sending it again sends the same text. */
  lemma SentIsTrimmed(input: string)
    requires SendMessage(input).sent.Some?
    ensures SendMessage(SendMessage(input).sent.value).sent == SendMessage(input).sent
  {
    StripIdempotent(input, JsIsSpace);
  }
}
