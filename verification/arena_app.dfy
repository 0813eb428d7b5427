/**
 * The request-handling rules of the TTS arena's web app (`app.py`): where a
 * client's address comes from, which texts and scripts a generation request
 * accepts, the bounded cache of pre-generated pairs, the vote sessions
 * (one vote each, thirty minutes to live) and the sweep of expired ones,
 * and the shape of the weighted choice of two models.
 *
 * Requests, the clock and the random generator are parameters: `now` is the
 * time in microseconds, uuids are given, and a random pick is an index.
 */
module ArenaApp {
  import opened Wrappers
  import opened Strings
  import opened Sorting
  import opened ArenaModels
  import opened Security
  import opened JsonValues

  // ---------------------------------------------------------------------------
  // get_client_ip

  /** Request headers, under their canonical names. */
  type Headers = map<string, string>

  /** `request.headers.get(name)` read as a truth value: present and non-empty. */
  function Header(h: Headers, name: string): (r: Option<string>)
    ensures r.Some? <==> name in h && h[name] != ""
    ensures r.Some? ==> r.value == h[name]
  {
    if name in h && h[name] != "" then Some(h[name]) else None
  }

  /** The first comma-separated item of a forwarding chain, stripped. */
  function FirstForwarded(chain: string): string {
    PyStrip(Split(chain, ",")[0])
  }

  /**
   * `get_client_ip`: the first hop of `X-Forwarded-For`, else `X-Real-IP`,
   * else `CF-Connecting-IP`, else the socket's remote address.
   */
  function ClientIp(h: Headers, remote: Option<string>): (r: Option<string>)
    ensures Header(h, "X-Forwarded-For").Some? ==> r == Some(FirstForwarded(h["X-Forwarded-For"]))
    ensures Header(h, "X-Forwarded-For").None? && Header(h, "X-Real-IP").Some? ==> r == Some(h["X-Real-IP"])
    ensures (Header(h, "X-Forwarded-For").None? && Header(h, "X-Real-IP").None?
             && Header(h, "CF-Connecting-IP").Some?) ==> r == Some(h["CF-Connecting-IP"])
    ensures (Header(h, "X-Forwarded-For").None? && Header(h, "X-Real-IP").None?
             && Header(h, "CF-Connecting-IP").None?) ==> r == remote
  {
    if Header(h, "X-Forwarded-For").Some? then Some(FirstForwarded(h["X-Forwarded-For"]))
    else if Header(h, "X-Real-IP").Some? then Some(h["X-Real-IP"])
    else if Header(h, "CF-Connecting-IP").Some? then Some(h["CF-Connecting-IP"])
    else remote
  }

  /**
   * The first forwarded hop is the part of the chain before its first comma
   * (all of it when there is none), stripped.
   */
  lemma FirstForwardedMeans(chain: string)
    ensures exists p ::
      StartsWith(chain, p) && ',' !in p && (|p| == |chain| || chain[|p|] == ',')
      && FirstForwarded(chain) == PyStrip(p)
  {
    var parts := Split(chain, ",");
    var p := parts[0];
    SplitHead(chain, ",");
    ContainsChar(p, ',');
    ContainsChar(chain, ',');
    if |p| < |chain| {
      assert |parts| > 1;
      assert OccursAt(chain, ",", |p|);
      assert chain[|p|..|p| + 1][0] == chain[|p|];
    }
    assert StartsWith(chain, p) && ',' !in p && (|p| == |chain| || chain[|p|] == ',');
  }

  // ---------------------------------------------------------------------------
  // Why a request is refused

  datatype Refusal =
    | TurnstileRequired
    | NotLoggedIn
    | BadText
    | NotEnglish
    | SentenceUsed(remaining: nat)
    | NotEnoughModels
    | GenerationFailed
    | BadScriptFormat
    | BadScriptLine
    | BadScriptContent
    | VoteBlocked(why: Denial)
    | BadSession
    | BadChoice
    | Expired
    | AlreadyVoted
    | RecordFailed(error: string)

  /** The HTTP status each refusal is answered with. */
  function Status(r: Refusal): int {
    match r
    case TurnstileRequired => 403
    case NotLoggedIn => 401
    case BadText => 400
    case NotEnglish => 400
    case SentenceUsed(_) => 400
    case NotEnoughModels => 500
    case GenerationFailed => 500
    case BadScriptFormat => 400
    case BadScriptLine => 400
    case BadScriptContent => 400
    case VoteBlocked(_) => 403
    case BadSession => 404
    case BadChoice => 400
    case Expired => 410
    case AlreadyVoted => 400
    case RecordFailed(_) => 500
  }

  /**
   * Every refusal is an HTTP error, and it is a server error (5xx) exactly
   * for the failures on the server's side: too few models, a failed
   * generation, a failed recording. Each of `GenerateTts`'s guard refusals is
   * a client error.
   */
  lemma RefusalStatus(r: Refusal)
    ensures 400 <= Status(r) < 600
    ensures Status(r) >= 500 <==> r.NotEnoughModels? || r.GenerationFailed? || r.RecordFailed?
    ensures r.TurnstileRequired? || r.NotLoggedIn? || r.BadText? || r.NotEnglish? || r.SentenceUsed? ==>
      400 <= Status(r) < 500
  {
  }

  // ---------------------------------------------------------------------------
  // Validation in generate_tts

  const MaxTextLength := 1000

  /** `data.get("text", "").strip()`, refused when empty or over 1000 characters. */
  function ValidText(text: Option<string>): (r: Result<string, Refusal>)
    ensures r.Success? <==> 0 < |PyStrip(text.GetOr(""))| <= MaxTextLength
    ensures r.Success? ==> r.value == PyStrip(text.GetOr(""))
    ensures r.Failure? ==> r.error == BadText
  {
    var t := PyStrip(text.GetOr(""));
    if |t| == 0 || |t| > MaxTextLength then Failure(BadText) else Success(t)
  }

  /** Accepted text is already stripped, so sending it again is accepted unchanged. */
  lemma ValidTextStable(text: Option<string>)
    requires ValidText(text).Success?
    ensures ValidText(Some(ValidText(text).value)) == ValidText(text)
  {
    StripIdempotent(text.GetOr(""), PyIsSpace);
  }

  // ---------------------------------------------------------------------------
  // Validation in generate_podcast

  /**
   * `isinstance(x, int) and x in [0, 1]`: in Python a boolean is an int and
   * equals 0 or 1, so `true` and `false` pass as speakers.
   */
  predicate SpeakerOk(j: Json) {
    (j.JInt? && (j.i == 0 || j.i == 1)) || j.JBool?
  }

  /** What is wrong with one script line, if anything, in the order the loop checks. */
  function LineProblem(line: Json): (r: Option<Refusal>)
    ensures r.None? <==>
      (line.JObject? && "text" in line.fields && "speaker_id" in line.fields
       && Truthy(line.fields["text"]) && SpeakerOk(line.fields["speaker_id"]))
  {
    if !line.JObject? || "text" !in line.fields || "speaker_id" !in line.fields then Some(BadScriptLine)
    else if !Truthy(line.fields["text"]) || !SpeakerOk(line.fields["speaker_id"]) then Some(BadScriptContent)
    else None
  }

  /** The first problem among `lines[k..]`, scanning forward. */
  function FirstProblem(lines: seq<Json>, k: nat): (r: Option<Refusal>)
    requires k <= |lines|
    ensures r.None? <==> forall i :: k <= i < |lines| ==> LineProblem(lines[i]).None?
    ensures r.Some? ==>
      exists i :: k <= i < |lines| && r == LineProblem(lines[i])
        && forall j :: k <= j < i ==> LineProblem(lines[j]).None?
    decreases |lines| - k
  {
    if k == |lines| then None
    else if LineProblem(lines[k]).Some? then LineProblem(lines[k])
    else FirstProblem(lines, k + 1)
  }

  /**
   * The script check of `generate_podcast`: a list of at least two lines,
   * each an object with a truthy `text` and a speaker 0 or 1. A refusal
   * names the first bad line's problem.
   */
  function ValidScript(script: Option<Json>): (r: Result<seq<Json>, Refusal>)
    ensures r.Success? <==>
      (script.Some? && script.value.JList? && |script.value.items| >= 2
       && forall i :: 0 <= i < |script.value.items| ==> LineProblem(script.value.items[i]).None?)
    ensures r.Success? ==> r.value == script.value.items
    ensures r.Failure? && (script.None? || !script.value.JList? || |script.value.items| < 2) ==>
      r.error == BadScriptFormat
    ensures r.Failure? && script.Some? && script.value.JList? && |script.value.items| >= 2 ==>
      exists i :: 0 <= i < |script.value.items| && Some(r.error) == LineProblem(script.value.items[i])
        && forall j :: 0 <= j < i ==> LineProblem(script.value.items[j]).None?
  {
    if script.None? || !Truthy(script.value) || !script.value.JList? || |script.value.items| < 2 then
      Failure(BadScriptFormat)
    else
      match FirstProblem(script.value.items, 0)
      case Some(p) => Failure(p)
      case None => Success(script.value.items)
  }

  /** Python reads `True` as speaker 1, so a boolean speaker is accepted. */
  lemma BooleanSpeakerAccepted(text: string)
    requires text != ""
    ensures var line := JObject(map["text" := JStr(text), "speaker_id" := JBool(true)]);
      ValidScript(Some(JList([line, line]))).Success?
  {
    var line := JObject(map["text" := JStr(text), "speaker_id" := JBool(true)]);
    assert LineProblem(line).None?;
  }

  // ---------------------------------------------------------------------------
  // The TTS cache

  datatype CacheEntry = CacheEntry(modelA: string, modelB: string, audioA: string, audioB: string, createdAt: int)

  /** Pre-generated pairs, keyed by sentence. */
  type Cache = map<string, CacheEntry>

  const RefillBatch := 8

  datatype CacheFill = CacheFill(cache: Cache, consumed: ConsumedTable, added: bool)

  /**
   * The end of `_generate_cache_entry_task`: a finished pair is kept only if
   * its sentence is not cached already and the cache has room; keeping it
   * marks the sentence consumed for cache use.
   */
  function CacheInsert(cache: Cache, capacity: int, sentence: string, e: CacheEntry, consumed: ConsumedTable): (r: CacheFill)
    ensures r.added <==> sentence !in cache && |cache| < capacity
    ensures r.added ==> r.cache == cache[sentence := e] && r.consumed == MarkConsumed(consumed, sentence, None, "cache").0
    ensures !r.added ==> r.cache == cache && r.consumed == consumed
  {
    if sentence !in cache && |cache| < capacity then
      CacheFill(cache[sentence := e], MarkConsumed(consumed, sentence, None, "cache").0, true)
    else CacheFill(cache, consumed, false)
  }

  /** Inserting never grows the cache past its capacity, nor by more than one entry. */
  lemma CacheInsertBounded(cache: Cache, capacity: int, sentence: string, e: CacheEntry, consumed: ConsumedTable)
    requires |cache| <= capacity
    ensures var r := CacheInsert(cache, capacity, sentence, e, consumed);
      |r.cache| <= capacity && |cache| <= |r.cache| <= |cache| + 1
      && (r.added ==> IsConsumed(r.consumed, sentence))
  {
    var r := CacheInsert(cache, capacity, sentence, e, consumed);
    if r.added {
      assert r.cache.Keys == cache.Keys + {sentence};
    }
  }

  /** `min(TTS_CACHE_SIZE - size, 8)` tasks when that is positive, else none. */
  function Refills(capacity: int, size: nat): (n: nat)
    ensures n <= RefillBatch
    ensures n > 0 <==> size < capacity
    ensures size + n <= capacity || n == 0
    ensures size < capacity && capacity - size <= RefillBatch ==> size + n == capacity
  {
    var needed := capacity - size;
    var batch := if needed < RefillBatch then needed else RefillBatch;
    if batch > 0 then batch else 0
  }

  // ---------------------------------------------------------------------------
  // Vote sessions

  /** Thirty minutes, in microseconds. */
  const SessionLifetime := 30 * 60 * MicrosPerSecond

  datatype Session = Session(
    modelA: string, modelB: string, audioA: string, audioB: string, text: string,
    createdAt: int, expiresAt: int, voted: bool, cacheHit: bool)

  type Sessions = map<string, Session>

  function NewSession(modelA: string, modelB: string, audioA: string, audioB: string, text: string,
                      now: int, cacheHit: bool): (s: Session)
    ensures s.expiresAt == now + SessionLifetime && !s.voted && s.createdAt == now
  {
    Session(modelA, modelB, audioA, audioB, text, now, now + SessionLifetime, false, cacheHit)
  }

  /** The pair of models and audio files the generators produced on a cache miss. */
  datatype Generated = Generated(modelA: string, modelB: string, audioA: string, audioB: string)

  datatype TtsStep = TtsStep(cache: Cache, sessions: Sessions, refills: nat, outcome: Result<string, Refusal>)

  /**
   * `generate_tts` after its guards: a cached sentence is taken out of the
   * cache into a new session and triggers refills; otherwise two models are
   * needed and the generators' outcome opens the session.
   * `english` is the language detector's verdict, `activeModels` the number
   * of active TTS models, `generated` the concurrent generation's outcome,
   * `id` the new session's uuid.
   */
  function GenerateTts(turnstileRequired: bool, authenticated: bool, text: Option<string>, english: bool,
                       dataset: seq<string>, consumed: ConsumedTable, cache: Cache, capacity: int,
                       sessions: Sessions, activeModels: nat, generated: Option<Generated>, id: string, now: int): (r: TtsStep)
    ensures turnstileRequired ==> r.outcome == Failure(TurnstileRequired)
    ensures !turnstileRequired && !authenticated ==> r.outcome == Failure(NotLoggedIn)
    ensures r.outcome.Failure? ==> r.sessions == sessions && r.cache == cache && r.refills == 0
    ensures r.outcome.Success? ==> r.outcome.value == id
    ensures !turnstileRequired && authenticated && ValidText(text).Failure? ==> r.outcome == Failure(BadText)
    ensures !turnstileRequired && authenticated && ValidText(text).Success? && IsConsumed(consumed, ValidText(text).value) && english ==>
      r.outcome == Failure(SentenceUsed(|UnconsumedSpec(dataset, consumed.Keys)|))
  {
    var fail := (why: Refusal) => TtsStep(cache, sessions, 0, Failure(why));
    if turnstileRequired then fail(TurnstileRequired)
    else if !authenticated then fail(NotLoggedIn)
    else match ValidText(text)
      case Failure(why) => fail(why)
      case Success(t) =>
        if !english then fail(NotEnglish)
        else if IsConsumed(consumed, t) then fail(SentenceUsed(|UnconsumedSpec(dataset, consumed.Keys)|))
        else if t in cache then
          var e := cache[t];
          var rest := cache - {t};
          var s := NewSession(e.modelA, e.modelB, e.audioA, e.audioB, t, now, true);
          TtsStep(rest, sessions[id := s], Refills(capacity, |rest|), Success(id))
        else if activeModels < 2 then fail(NotEnoughModels)
        else match generated
          case None => fail(GenerationFailed)
          case Some(g) =>
            var s := NewSession(g.modelA, g.modelB, g.audioA, g.audioB, t, now, false);
            TtsStep(cache, sessions[id := s], 0, Success(id))
  }

  /**
   * A session is opened only for a valid, English, unused sentence: from the
   * cache when the sentence is cached (which removes it and starts refills),
   * otherwise from a generation of two models; nothing else changes.
   */
  lemma GenerateTtsOpens(turnstileRequired: bool, authenticated: bool, text: Option<string>, english: bool,
                         dataset: seq<string>, consumed: ConsumedTable, cache: Cache, capacity: int,
                         sessions: Sessions, activeModels: nat, generated: Option<Generated>, id: string, now: int)
    requires GenerateTts(turnstileRequired, authenticated, text, english, dataset, consumed, cache, capacity,
                         sessions, activeModels, generated, id, now).outcome.Success?
    ensures var r := GenerateTts(turnstileRequired, authenticated, text, english, dataset, consumed, cache, capacity,
                                 sessions, activeModels, generated, id, now);
      var t := ValidText(text);
      t.Success? && english && !IsConsumed(consumed, t.value)
      && id in r.sessions && r.sessions == sessions[id := r.sessions[id]]
      && r.sessions[id].text == t.value && !r.sessions[id].voted
      && r.sessions[id].expiresAt == now + SessionLifetime
      && (r.sessions[id].cacheHit <==> t.value in cache)
      && (t.value in cache ==>
            r.cache == cache - {t.value} && r.refills == Refills(capacity, |cache - {t.value}|)
            && r.sessions[id].modelA == cache[t.value].modelA && r.sessions[id].modelB == cache[t.value].modelB)
      && (t.value !in cache ==> r.cache == cache && r.refills == 0 && activeModels >= 2 && generated.Some?)
  {
    var t := ValidText(text).value;
    if t in cache {
      var e := cache[t];
      var s := NewSession(e.modelA, e.modelB, e.audioA, e.audioB, t, now, true);
      assert GenerateTts(turnstileRequired, authenticated, text, english, dataset, consumed, cache, capacity,
                         sessions, activeModels, generated, id, now)
        == TtsStep(cache - {t}, sessions[id := s], Refills(capacity, |cache - {t}|), Success(id));
    } else {
      var g := generated.value;
      var s := NewSession(g.modelA, g.modelB, g.audioA, g.audioB, t, now, false);
      assert GenerateTts(turnstileRequired, authenticated, text, english, dataset, consumed, cache, capacity,
                         sessions, activeModels, generated, id, now)
        == TtsStep(cache, sessions[id := s], 0, Success(id));
    }
  }

  /**
   * A cache hit never lets the cache plus the refills it starts exceed the
   * capacity, so refilling cannot overfill it.
   */
  lemma HitRefillsWithinCapacity(cache: Cache, capacity: int, t: string)
    requires t in cache && |cache| <= capacity
    ensures |cache - {t}| + Refills(capacity, |cache - {t}|) <= capacity
    ensures Refills(capacity, |cache - {t}|) >= 1
  {
    assert |cache - {t}| == |cache| - 1 by {
      assert cache.Keys == (cache - {t}).Keys + {t};
    }
  }

  /**
   * Keeping a pair marks its sentence consumed, and `generate_tts` refuses a
   * consumed sentence before it looks in the cache: a request for a sentence
   * the cache has just taken is refused as used and opens no session, so the
   * cache-hit branch is never reached through these two steps.
   */
  lemma CachedSentenceRefused(cache: Cache, capacity: int, sentence: string, e: CacheEntry, consumed: ConsumedTable,
                              dataset: seq<string>, sessions: Sessions, activeModels: nat,
                              generated: Option<Generated>, id: string, now: int)
    requires ValidText(Some(sentence)).Success?
    requires CacheInsert(cache, capacity, sentence, e, consumed).added
    ensures var f := CacheInsert(cache, capacity, sentence, e, consumed);
      var r := GenerateTts(false, true, Some(sentence), true, dataset, f.consumed, f.cache, capacity,
                           sessions, activeModels, generated, id, now);
      r.outcome == Failure(SentenceUsed(|UnconsumedSpec(dataset, f.consumed.Keys)|)) && r.sessions == sessions
      && sentence in r.cache
  {
    StripIdempotent(sentence, PyIsSpace);
    ConsumedUpToStrip(consumed, sentence, PyStrip(sentence), None, "cache");
  }

  // ---------------------------------------------------------------------------
  // submit_vote

  /** The vote a session turns into. */
  datatype Ballot = Ballot(session: string, chosen: string, rejected: string, text: string, cacheHit: bool)

  datatype VoteCheck = VoteCheck(sessions: Sessions, outcome: Result<Ballot, Refusal>)

  /** `not x` for a JSON string field: absent or empty. */
  predicate Blank(x: Option<string>) {
    x.None? || x.value == ""
  }

  /**
   * The guards of `submit_vote` (and `submit_podcast_vote`, which applies the
   * same ones to the conversational sessions), in their order. `gate` is
   * `is_vote_allowed` for the current user. An expired session is removed.
   */
  function CheckVote(turnstileRequired: bool, authenticated: bool, gate: Gate, session: Option<string>,
                     key: Option<string>, sessions: Sessions, now: int): (r: VoteCheck)
    ensures turnstileRequired ==> r.outcome == Failure(TurnstileRequired)
    ensures !turnstileRequired && !authenticated ==> r.outcome == Failure(NotLoggedIn)
    ensures !turnstileRequired && authenticated && gate.Denied? ==> r.outcome == Failure(VoteBlocked(gate.why))
    ensures !turnstileRequired && authenticated && gate.Allowed? ==>
      (Blank(session) || session.value !in sessions ==> r.outcome == Failure(BadSession))
      && (!Blank(session) && session.value in sessions ==>
            var s := sessions[session.value];
            (key != Some("a") && key != Some("b") ==> r.outcome == Failure(BadChoice))
            && ((key == Some("a") || key == Some("b")) && now > s.expiresAt ==>
                  r.outcome == Failure(Expired) && r.sessions == sessions - {session.value})
            && ((key == Some("a") || key == Some("b")) && now <= s.expiresAt && s.voted ==>
                  r.outcome == Failure(AlreadyVoted)))
    ensures r.outcome.Failure? && r.outcome.error != Expired ==> r.sessions == sessions
    ensures r.outcome.Success? ==>
      var b := r.outcome.value;
      session == Some(b.session) && b.session in sessions && r.sessions == sessions
      && (key == Some("a") || key == Some("b"))
      && var s := sessions[b.session];
         now <= s.expiresAt && !s.voted && b.text == s.text && b.cacheHit == s.cacheHit
         && (key == Some("a") ==> b.chosen == s.modelA && b.rejected == s.modelB)
         && (key == Some("b") ==> b.chosen == s.modelB && b.rejected == s.modelA)
  {
    var fail := (why: Refusal) => VoteCheck(sessions, Failure(why));
    if turnstileRequired then fail(TurnstileRequired)
    else if !authenticated then fail(NotLoggedIn)
    else if gate.Denied? then fail(VoteBlocked(gate.why))
    else if Blank(session) || session.value !in sessions then fail(BadSession)
    else if key != Some("a") && key != Some("b") then fail(BadChoice)
    else
      var id := session.value;
      var s := sessions[id];
      if now > s.expiresAt then VoteCheck(sessions - {id}, Failure(Expired))
      else if s.voted then fail(AlreadyVoted)
      else
        var a := key == Some("a");
        VoteCheck(sessions, Success(Ballot(id, if a then s.modelA else s.modelB, if a then s.modelB else s.modelA,
                                           s.text, s.cacheHit)))
  }

  datatype VoteStep = VoteStep(store: Store, sessions: Sessions, outcome: Result<Ballot, Refusal>)

  /**
   * `submit_vote`: the guards, then `record_vote`; a recording error answers
   * 500 and leaves the session open, a recorded vote closes it.
   */
  function SubmitVote(turnstileRequired: bool, authenticated: bool, gate: Gate, session: Option<string>,
                      key: Option<string>, sessions: Sessions, now: int,
                      st: Store, user: int, modelType: string, ip: Option<string>, ua: Option<string>,
                      dataset: seq<string>, eloChange: (real, real) -> (real, real)): (r: VoteStep)
    ensures var c := CheckVote(turnstileRequired, authenticated, gate, session, key, sessions, now);
      (c.outcome.Failure? ==> r == VoteStep(st, c.sessions, c.outcome))
      && (c.outcome.Success? ==>
            var b := c.outcome.value;
            var rec := RecordVote(st, user, b.text, b.chosen, b.rejected, modelType, ip, ua, dataset, now, eloChange);
            (rec.Failure? ==> r == VoteStep(st, sessions, Failure(RecordFailed(rec.error))))
            && (rec.Success? ==>
                  r.outcome == c.outcome && r.store == rec.value
                  && r.sessions == sessions[b.session := sessions[b.session].(voted := true)]))
  {
    var c := CheckVote(turnstileRequired, authenticated, gate, session, key, sessions, now);
    match c.outcome
    case Failure(why) => VoteStep(st, c.sessions, c.outcome)
    case Success(b) =>
      match RecordVote(st, user, b.text, b.chosen, b.rejected, modelType, ip, ua, dataset, now, eloChange)
      case Failure(e) => VoteStep(st, sessions, Failure(RecordFailed(e)))
      case Success(st') => VoteStep(st', sessions[b.session := sessions[b.session].(voted := true)], c.outcome)
  }

  /** Choosing "b" records the same pair as choosing "a", with the roles swapped. */
  lemma ChoiceSwapsRoles(turnstileRequired: bool, authenticated: bool, gate: Gate, id: string,
                         sessions: Sessions, now: int)
    requires CheckVote(turnstileRequired, authenticated, gate, Some(id), Some("a"), sessions, now).outcome.Success?
    ensures var a := CheckVote(turnstileRequired, authenticated, gate, Some(id), Some("a"), sessions, now).outcome.value;
      var b := CheckVote(turnstileRequired, authenticated, gate, Some(id), Some("b"), sessions, now).outcome;
      b.Success? && b.value.chosen == a.rejected && b.value.rejected == a.chosen
  {
  }

  /** After a recorded vote the session refuses every further vote until it expires. */
  lemma OneVotePerSession(turnstileRequired: bool, authenticated: bool, gate: Gate, session: Option<string>,
                          key: Option<string>, sessions: Sessions, now: int,
                          st: Store, user: int, modelType: string, ip: Option<string>, ua: Option<string>,
                          dataset: seq<string>, eloChange: (real, real) -> (real, real),
                          key2: string, later: int)
    requires key2 == "a" || key2 == "b"
    requires gate.Allowed? && !turnstileRequired && authenticated
    ensures var r := SubmitVote(turnstileRequired, authenticated, gate, session, key, sessions, now,
                                st, user, modelType, ip, ua, dataset, eloChange);
      r.outcome.Success? && later <= sessions[session.value].expiresAt ==>
        CheckVote(false, true, gate, session, Some(key2), r.sessions, later).outcome == Failure(AlreadyVoted)
  {
  }

  // ---------------------------------------------------------------------------
  // cleanup_expired_sessions

  predicate IsExpired(s: Session, now: int) {
    now > s.expiresAt
  }

  /** The sessions that survive a sweep at `now`. */
  function Live(sessions: Sessions, now: int): Sessions {
    map id | id in sessions && !IsExpired(sessions[id], now) :: sessions[id]
  }

  /**
   * One map of `cleanup_expired_sessions`: collect the expired ids, then
   * remove each with its cleanup helper.
   */
  method SweepExpired(sessions: Sessions, now: int) returns (live: Sessions, removed: set<string>)
    ensures removed == set id | id in sessions && IsExpired(sessions[id], now)
    ensures live.Keys == sessions.Keys - removed
    ensures forall id :: id in live ==> live[id] == sessions[id] && !IsExpired(live[id], now)
    ensures live == Live(sessions, now)
    ensures sessions.Keys - live.Keys == removed
  {
    removed := set id | id in sessions && IsExpired(sessions[id], now);
    live := sessions;
    var todo := removed;
    while todo != {}
      invariant todo <= removed
      invariant live.Keys == sessions.Keys - (removed - todo)
      invariant forall id :: id in live ==> live[id] == sessions[id]
      decreases |todo|
    {
      var id :| id in todo;
      live := live - {id};
      todo := todo - {id};
    }
  }

  /** `cleanup_expired_sessions` over the TTS and the conversational sessions. */
  method CleanupExpiredSessions(tts: Sessions, conversational: Sessions, now: int)
    returns (tts': Sessions, conversational': Sessions, counts: (nat, nat))
    ensures tts' == Live(tts, now) && conversational' == Live(conversational, now)
    ensures counts.0 == |tts.Keys - tts'.Keys| && counts.1 == |conversational.Keys - conversational'.Keys|
  {
    var r1, r2;
    tts', r1 := SweepExpired(tts, now);
    conversational', r2 := SweepExpired(conversational, now);
    counts := (|r1|, |r2|);
  }

  /** A sweep is idempotent, and a session that has not expired survives every sweep up to its expiry. */
  lemma SweepKeepsLive(sessions: Sessions, now: int, id: string)
    ensures Live(Live(sessions, now), now) == Live(sessions, now)
    ensures id in sessions && now <= sessions[id].expiresAt ==> id in Live(sessions, now)
  {
  }

  // ---------------------------------------------------------------------------
  // get_weighted_random_models

  /** `list.pop(list.index(x))`: remove the first element equal to `x`. */
  function RemoveFirst<T(==)>(s: seq<T>, x: T): (r: seq<T>)
    requires x in s
    ensures multiset(r) == multiset(s) - multiset{x}
    ensures |r| == |s| - 1
  {
    assert s == [s[0]] + s[1..];
    if s[0] == x then s[1..]
    else [s[0]] + RemoveFirst(s[1..], x)
  }

  /** A random index reduced to the size of the pool. */
  function Wrap(p: nat, n: nat): (i: nat)
    requires n > 0
    ensures i < n
  {
    p % n
  }

  /** What is taken out of a collection, leaving the rest, is part of it. */
  lemma SelectedPart<T>(taken: seq<T>, rest: seq<T>, all: seq<T>)
    requires multiset(taken) + multiset(rest) == multiset(all)
    ensures multiset(taken) <= multiset(all)
    ensures forall x :: x in taken ==> x in all
    ensures Distinct(all) ==> Distinct(taken)
  {
    forall x | x in taken ensures x in all {
      assert multiset(all)[x] == multiset(taken)[x] + multiset(rest)[x];
    }
    if Distinct(all) {
      DistinctMultiset(all);
      DistinctMultiset(taken);
    }
  }

  /**
   * The selection loop of `get_weighted_random_models`: `picks[k]` stands for
   * the index `random.choices` lands on in round `k`, among the candidates
   * still in the pool (reduced modulo the pool's size); each pick leaves the
   * pool. The weights only shape that choice and are left out.
   */
  method WeightedSelect<T(==)>(candidates: seq<T>, count: int, picks: seq<nat>) returns (selected: seq<T>)
    requires |picks| >= count
    ensures count <= 0 ==> |selected| == 0
    ensures 0 < count <= |candidates| ==> |selected| == count
    ensures count > |candidates| ==> |selected| == |candidates|
    ensures multiset(selected) <= multiset(candidates)
    ensures forall x :: x in selected ==> x in candidates
    ensures Distinct(candidates) ==> Distinct(selected)
  {
    selected := [];
    var pool := candidates;
    var k := 0;
    while k < count && |pool| > 0
      invariant 0 <= k && (count > 0 ==> k <= count) && (count <= 0 ==> k == 0)
      invariant |selected| == k && |pool| == |candidates| - k
      invariant multiset(selected) + multiset(pool) == multiset(candidates)
    {
      var chosen := pool[Wrap(picks[k], |pool|)];
      assert multiset(selected + [chosen]) == multiset(selected) + multiset{chosen};
      selected := selected + [chosen];
      pool := RemoveFirst(pool, chosen);
      k := k + 1;
    }
    SelectedPart(selected, pool, candidates);
  }
}
