/**
 * The provider-independent part of the arena's TTS client (`tts.py`): how a
 * dialogue script is turned into the text format PlayDialog and Dia expect,
 * and which backend a model name is dispatched to. The HTTP calls themselves
 * are not modelled.
 */
module Tts {
  import opened Wrappers
  import opened Strings
  import opened JsonValues

  /**
   * One line of a dialogue script: its `speaker_id` and `text` fields, each
   * possibly missing. Texts are strings.
   */
  datatype Turn = Turn(speaker: Option<Json>, text: Option<string>)

  /** A script is either already a string or a list of turns. */
  datatype Script = Plain(text: string) | Turns(turns: seq<Turn>)

  /**
   * `turn.get("speaker_id", 0) == 0`: a missing speaker counts as 0, and
   * Python's equality also makes `False` and `0.0` equal to 0.
   */
  predicate FirstSpeaker(speaker: Option<Json>) {
    speaker.None? || speaker.value == JInt(0) || speaker.value == JBool(false) || speaker.value == JFloat(0.0)
  }

  /** The pieces rendered for each turn, in order, concatenated. */
  function Render(turns: seq<Turn>, piece: Turn -> string): string
    decreases |turns|
  {
    if |turns| == 0 then "" else Render(turns[..|turns| - 1], piece) + piece(turns[|turns| - 1])
  }

  lemma RenderSnoc(turns: seq<Turn>, k: nat, piece: Turn -> string)
    requires k < |turns|
    ensures Render(turns[..k + 1], piece) == Render(turns[..k], piece) + piece(turns[k])
  {
    assert turns[..k + 1][..k] == turns[..k];
  }

  // ---------------------------------------------------------------------------
  // predict_playdialog

  function HostPrefix(speaker: Option<Json>): string {
    if FirstSpeaker(speaker) then "Host 1:" else "Host 2:"
  }

  /** The line PlayDialog reads for one turn, without its newline. */
  function HostBody(t: Turn): string {
    HostPrefix(t.speaker) + " " + t.text.GetOr("")
  }

  function HostLine(t: Turn): string {
    HostBody(t) + "\n"
  }

  predicate AllHaveText(turns: seq<Turn>) {
    forall i :: 0 <= i < |turns| ==> turns[i].text.Some?
  }

  /**
   * The script conversion of `predict_playdialog`: one "Host 1: …" or
   * "Host 2: …" line per turn, in order; a turn without a text stops the
   * conversion with the missing key; a string script is used as it is.
   */
  method PlayDialogText(script: Script) returns (r: Result<string, string>)
    ensures script.Plain? ==> r == Success(script.text)
    ensures script.Turns? ==> (r.Success? <==> AllHaveText(script.turns))
    ensures script.Turns? && AllHaveText(script.turns) ==> r.value == Render(script.turns, HostLine)
    ensures r.Failure? ==> r.error == "text"
  {
    if script.Plain? {
      return Success(script.text);
    }
    var turns := script.turns;
    var text := "";
    var k := 0;
    while k < |turns|
      invariant 0 <= k <= |turns|
      invariant forall i :: 0 <= i < k ==> turns[i].text.Some?
      invariant text == Render(turns[..k], HostLine)
    {
      if turns[k].text.None? {
        return Failure("text");
      }
      var line := HostPrefix(turns[k].speaker) + " " + turns[k].text.value + "\n";
      RenderSnoc(turns, k, HostLine);
      text := text + line;
      k := k + 1;
    }
    assert turns[..k] == turns;
    return Success(text);
  }

  /** The `body` of each turn, in order. */
  function Bodies(turns: seq<Turn>, body: Turn -> string): (r: seq<string>)
    ensures |r| == |turns| && forall i :: 0 <= i < |turns| ==> r[i] == body(turns[i])
  {
    seq(|turns|, i requires 0 <= i < |turns| => body(turns[i]))
  }

  /** The bodies keep the turns' order: those of a concatenation are each part's in turn. */
  lemma BodiesAppend(a: seq<Turn>, b: seq<Turn>, body: Turn -> string)
    ensures Bodies(a + b, body) == Bodies(a, body) + Bodies(b, body)
    ensures |a| == 1 ==> Bodies(a, body) == [body(a[0])]
  {
  }

  /** Rendering pieces that are bodies ended by `c` joins the bodies by `c`, plus a final one. */
  lemma {:induction false} RenderLines(turns: seq<Turn>, piece: Turn -> string, body: Turn -> string, c: char)
    requires forall t :: piece(t) == body(t) + [c]
    ensures Render(turns, piece) == Join(Bodies(turns, body) + [""], [c])
    decreases |turns|
  {
    if |turns| == 0 {
      assert Bodies(turns, body) + [""] == [""];
    } else {
      var init := turns[..|turns| - 1];
      var last := turns[|turns| - 1];
      RenderLines(init, piece, body, c);
      var b := Bodies(init, body);
      assert turns == init + [last];
      BodiesAppend(init, [last], body);
      var bs := b + [body(last)];
      assert Bodies(turns, body) == bs;
      assert Render(turns, piece) == Join(b + [""], [c]) + body(last) + [c];
      JoinAppend(bs, [c], "");
      if |init| == 0 {
        assert bs == [body(last)];
        assert b + [""] == [""];
      } else {
        JoinAppend(b, [c], body(last));
        JoinAppend(b, [c], "");
      }
    }
  }

  /** When no body holds `c`, splitting the rendering on `c` gives the bodies back, then "". */
  lemma SplitRenderedLines(turns: seq<Turn>, piece: Turn -> string, body: Turn -> string, c: char)
    requires forall t :: piece(t) == body(t) + [c]
    requires forall i :: 0 <= i < |turns| ==> c !in body(turns[i])
    ensures Split(Render(turns, piece), [c]) == Bodies(turns, body) + [""]
  {
    RenderLines(turns, piece, body, c);
    var bodies := Bodies(turns, body);
    assert forall i :: 0 <= i < |bodies + [""]| ==> c !in (bodies + [""])[i] by {
      forall i | 0 <= i < |bodies + [""]| ensures c !in (bodies + [""])[i] {
        if i < |bodies| {
          assert bodies[i] == body(turns[i]);
        }
      }
    }
    SplitJoin(bodies + [""], c);
  }

  /** A PlayDialog line body has a newline only where its text has one. */
  lemma HostBodyWithoutNewline(t: Turn)
    requires '\n' !in t.text.GetOr("")
    ensures '\n' !in HostBody(t)
  {
    var p := HostPrefix(t.speaker);
    assert forall c :: c in p ==> c != '\n';
  }

  /**
   * When no text holds a newline, the PlayDialog script read back line by
   * line gives exactly one "Host n: text" line per turn, in order, followed
   * by the empty remainder after the final newline.
   */
  lemma PlayDialogOneLinePerTurn(turns: seq<Turn>)
    requires AllHaveText(turns)
    requires forall i :: 0 <= i < |turns| ==> '\n' !in turns[i].text.value
    ensures Split(Render(turns, HostLine), "\n") == Bodies(turns, HostBody) + [""]
    ensures forall i :: 0 <= i < |turns| ==>
      Bodies(turns, HostBody)[i] == HostPrefix(turns[i].speaker) + " " + turns[i].text.value
  {
    forall i | 0 <= i < |turns| ensures '\n' !in HostBody(turns[i]) {
      HostBodyWithoutNewline(turns[i]);
    }
    assert forall t :: HostLine(t) == HostBody(t) + ['\n'];
    SplitRenderedLines(turns, HostLine, HostBody, '\n');
  }

  // ---------------------------------------------------------------------------
  // predict_dia

  function DiaTag(speaker: Option<Json>): string {
    if FirstSpeaker(speaker) then "[S1]" else "[S2]"
  }

  /** A turn's text, missing read as "", stripped and with the speaker tags deleted. */
  function CleanText(text: Option<string>): string {
    ReplaceAll(ReplaceAll(PyStrip(text.GetOr("")), "[S1]", ""), "[S2]", "")
  }

  function DiaSegment(t: Turn): string {
    DiaTag(t.speaker) + " " + CleanText(t.text) + " "
  }

  /** A rendering opens with the first turn's piece. */
  lemma {:induction false} RenderOpensWithFirst(turns: seq<Turn>, piece: Turn -> string)
    requires |turns| > 0
    ensures StartsWith(Render(turns, piece), piece(turns[0]))
    decreases |turns|
  {
    if |turns| > 1 {
      var init := turns[..|turns| - 1];
      RenderOpensWithFirst(init, piece);
      assert init[0] == turns[0];
      PrefixOfAppend(Render(init, piece), piece(turns[|turns| - 1]), piece(turns[0]));
    } else {
      assert Render(turns, piece) == Render([], piece) + piece(turns[0]);
    }
  }

  /**
   * The script conversion of `predict_dia`: one "[S1] text " or "[S2] text "
   * segment per turn, the whole stripped; a string script is used as it is.
   */
  method DiaText(script: Script) returns (r: string)
    ensures script.Plain? ==> r == script.text
    ensures script.Turns? ==> r == PyStrip(Render(script.turns, DiaSegment))
  {
    if script.Plain? {
      return script.text;
    }
    var turns := script.turns;
    var formatted := "";
    var k := 0;
    while k < |turns|
      invariant 0 <= k <= |turns|
      invariant formatted == Render(turns[..k], DiaSegment)
    {
      var speakerTag := if FirstSpeaker(turns[k].speaker) then "[S1]" else "[S2]";
      var text := ReplaceAll(ReplaceAll(PyStrip(turns[k].text.GetOr("")), "[S1]", ""), "[S2]", "");
      var segment := speakerTag + " " + text + " ";
      RenderSnoc(turns, k, DiaSegment);
      formatted := formatted + segment;
      k := k + 1;
    }
    assert turns[..k] == turns;
    return PyStrip(formatted);
  }

  lemma TagIsBracketed(speaker: Option<Json>)
    ensures |DiaTag(speaker)| == 4 && !PyIsSpace(DiaTag(speaker)[0]) && !PyIsSpace(DiaTag(speaker)[3])
  {
  }

  /** Every segment opens with its speaker's tag. */
  lemma SegmentOpensWithTag(t: Turn)
    ensures StartsWith(DiaSegment(t), DiaTag(t.speaker))
  {
    var tag := DiaTag(t.speaker);
    var clean := CleanText(t.text);
    assert StartsWith(tag, tag);
    PrefixOfAppend(tag, " ", tag);
    PrefixOfAppend(tag + " ", clean, tag);
    PrefixOfAppend(tag + " " + clean, " ", tag);
  }

  /** A Dia script of at least one turn opens with the first speaker's tag. */
  lemma DiaStartsWithFirstTag(turns: seq<Turn>)
    requires |turns| > 0
    ensures StartsWith(PyStrip(Render(turns, DiaSegment)), DiaTag(turns[0].speaker))
  {
    var tag := DiaTag(turns[0].speaker);
    RenderOpensWithFirst(turns, DiaSegment);
    SegmentOpensWithTag(turns[0]);
    TagIsBracketed(turns[0].speaker);
    StripOpensWith(Render(turns, DiaSegment), DiaSegment(turns[0]), tag);
  }

  /** A text without speaker tags is only stripped. */
  lemma CleanTextWithoutTags(text: string)
    requires !Contains(PyStrip(text), "[S1]") && !Contains(PyStrip(text), "[S2]")
    ensures CleanText(Some(text)) == PyStrip(text)
  {
  }

  /**
   * Deleting the tags in one pass can assemble a new one from the pieces
   * around a deleted tag, so a cleaned text may still hold a speaker tag.
   */
  lemma NestedTagSurvivesCleaning()
    ensures CleanText(Some("[S[S1]1]")) == "[S1]"
  {
    StripBracketed("[S[S1]1]");
    DeleteInnerTag();
    TagWithoutOther();
  }

  lemma StripBracketed(s: string)
    requires |s| > 0 && s[0] == '[' && s[|s| - 1] == ']'
    ensures PyStrip(s) == s
  {
    assert TrimStart(s, PyIsSpace) == s;
    assert TrimEnd(s, PyIsSpace) == s;
  }

  lemma DeleteInnerTag()
    ensures ReplaceAll("[S[S1]1]", "[S1]", "") == "[S1]"
  {
    var s := "[S[S1]1]";
    var tag := "[S1]";
    assert !OccursAt(s, tag, 0) by {
      assert s[0..4][2] != tag[2];
    }
    assert !OccursAt(s, tag, 1) by {
      assert s[1..5][0] != tag[0];
    }
    assert OccursAt(s, tag, 2) by {
      assert s[2..6] == tag;
    }
    assert IndexOf(s, tag) == Some(2);
    assert s[6..] == "1]";
    assert !Contains("1]", tag);
    assert s[..2] == "[S";
    assert Split(s[6..], tag) == ["1]"];
    assert Split(s, tag) == ["[S", "1]"];
  }

  lemma TagWithoutOther()
    ensures ReplaceAll("[S1]", "[S2]", "") == "[S1]"
  {
    var tag := "[S1]";
    assert tag[0..4] != "[S2]" by {
      assert tag[0..4][2] != "[S2]"[2];
    }
    assert !Contains(tag, "[S2]");
  }

  // ---------------------------------------------------------------------------
  // predict_tts

  /** Where a generation request goes. */
  datatype Backend =
    | Csm
    | PlayDialog
    | Dia
    | Router(provider: string, model: string)

  /** The router's provider and model for each arena model name. */
  const ModelMapping: map<string, (string, string)> := map[
    "eleven-multilingual-v2" := ("elevenlabs", "eleven_multilingual_v2"),
    "async-1" := ("async", "async-1"),
    "eleven-turbo-v2.5" := ("elevenlabs", "eleven_turbo_v2_5"),
    "eleven-flash-v2.5" := ("elevenlabs", "eleven_flash_v2_5"),
    "cartesia-sonic-2" := ("cartesia", "sonic-2"),
    "spark-tts" := ("spark", "spark-tts"),
    "playht-2.0" := ("playht", "PlayHT2.0"),
    "styletts2" := ("styletts", "styletts2"),
    "kokoro-v1" := ("kokoro", "kokoro_v1"),
    "cosyvoice-2.0" := ("cosyvoice", "cosyvoice_2_0"),
    "papla-p1" := ("papla", "papla_p1"),
    "hume-octave" := ("hume", "octave"),
    "megatts3" := ("megatts3", "megatts3"),
    "minimax-02-hd" := ("minimax", "speech-02-hd"),
    "minimax-02-turbo" := ("minimax", "speech-02-turbo"),
    "lanternfish-1" := ("lanternfish", "lanternfish-1"),
    "nls-pre-v1" := ("nls", "nls-1"),
    "chatterbox" := ("chatterbox", "chatterbox"),
    "inworld" := ("inworld", "inworld-tts-1"),
    "inworld-max" := ("inworld", "inworld-tts-1-max"),
    "wordcab" := ("wordcab", "wordcab"),
    "veena" := ("veena", "veena"),
    "maya1" := ("maya1", "maya1"),
    "magpie" := ("magpie", "magpie"),
    "parmesan" := ("parmesan", "parmesan"),
    "vocu" := ("vocu", "vocu-balance"),
    "neuphonic" := ("neuphonic", "neutts"),
    "magpie-rp" := ("magpie-rp", "magpietts_research")
  ]

  /**
   * `predict_tts`'s dispatch: the three dialogue models go to their own
   * clients, a mapped name goes to the router with its provider and model,
   * and any other name is refused with "Model … not found".
   */
  function PredictTts(name: string): (r: Result<Backend, string>)
    ensures name == "csm-1b" ==> r == Success(Csm)
    ensures name == "playdialog-1.0" ==> r == Success(PlayDialog)
    ensures name == "dia-1.6b" ==> r == Success(Dia)
    ensures r.Failure? <==> name !in ModelMapping && name !in {"csm-1b", "playdialog-1.0", "dia-1.6b"}
    ensures r.Failure? ==> r.error == "Model " + name + " not found"
    ensures r.Success? && r.value.Router? ==>
      name in ModelMapping && ModelMapping[name] == (r.value.provider, r.value.model)
  {
    if name == "csm-1b" then Success(Csm)
    else if name == "playdialog-1.0" then Success(PlayDialog)
    else if name == "dia-1.6b" then Success(Dia)
    else if name !in ModelMapping then Failure("Model " + name + " not found")
    else Success(Router(ModelMapping[name].0, ModelMapping[name].1))
  }
}
