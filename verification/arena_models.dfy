/**
 * The vote bookkeeping of the TTS arena (`models.py`): IP anonymisation,
 * recording a vote with its counters, and the consumed-sentence table that
 * lets each dataset sentence count towards the public leaderboard once.
 *
 * Tables are maps keyed by their primary key. SHA-256 is a collision-free tag
 * of the stripped text; the Elo formula is a parameter.
 */
module ArenaModels {
  import opened Wrappers
  import opened Strings

  // ---------------------------------------------------------------------------
  // IP anonymisation

  /** `anonymize_ip_address`. */
  function AnonymizeIp(ip: Option<string>): Option<string> {
    if ip.None? || ip.value == "" then None
    else
      var s := ip.value;
      if ':' in s then
        var parts := Split(s, ":");
        if |parts| >= 4 then Some(Join(parts[..4], ":") + "::") else ip
      else
        var parts := Split(s, ".");
        if |parts| == 4 then Some(parts[0] + "." + parts[1] + ".0.0") else ip
  }

  /** An absent or empty address gives none; any other gives some address. */
  lemma AnonymizeIpAbsent(ip: Option<string>)
    ensures AnonymizeIp(ip).None? <==> ip.None? || ip.value == ""
  {
  }

  /**
   * An address with a colon keeps everything before its fourth colon and
   * gains `::`; with fewer than three colons it is unchanged.
   */
  lemma AnonymizeIpV6(s: string)
    requires ':' in s
    ensures multiset(s)[':'] >= 3 ==>
      exists k :: 0 <= k <= |s| && (k == |s| || s[k] == ':')
        && multiset(s[..k])[':'] == 3 && AnonymizeIp(Some(s)) == Some(s[..k] + "::")
    ensures multiset(s)[':'] < 3 ==> AnonymizeIp(Some(s)) == Some(s)
  {
    var parts := Split(s, ":");
    SplitCount(s, ':');
    if |parts| >= 4 {
      var p := Join(parts[..4], ":");
      FourPartsCount(s);
      FourPartsPrefix(s);
      assert s[..|p|] == p;
      assert AnonymizeIp(Some(s)) == Some(s[..|p|] + "::");
    }
  }

  /** The first four colon-separated parts, joined again, hold three colons. */
  lemma FourPartsCount(s: string)
    requires |Split(s, ":")| >= 4
    ensures multiset(Join(Split(s, ":")[..4], ":"))[':'] == 3
  {
    SplitPartsFree(s, ':');
    JoinCount(Split(s, ":")[..4], ':');
  }

  /** The first four colon-separated parts, joined again, run up to a colon or the end. */
  lemma FourPartsPrefix(s: string)
    requires |Split(s, ":")| >= 4
    ensures var p := Join(Split(s, ":")[..4], ":");
      StartsWith(s, p) && (|p| == |s| || s[|p|] == ':')
  {
    var parts := Split(s, ":");
    var p := Join(parts[..4], ":");
    SplitPrefix(s, ":", 4);
    if |parts| == 4 {
      JoinSplit(s, ":");
      assert parts[..4] == parts;
    } else {
      assert s[|p|..|p| + 1] == ":";
    }
  }

  /**
   * An address without a colon made of exactly four dot-separated parts keeps
   * the first two and gains `.0.0`; any other is unchanged.
   */
  lemma AnonymizeIpV4(s: string)
    requires s != "" && ':' !in s
    ensures multiset(s)['.'] == 3 ==>
      exists a, b, c, d :: '.' !in a && '.' !in b && '.' !in c && '.' !in d
        && s == a + "." + b + "." + c + "." + d && AnonymizeIp(Some(s)) == Some(a + "." + b + ".0.0")
    ensures multiset(s)['.'] != 3 ==> AnonymizeIp(Some(s)) == Some(s)
  {
    var parts := Split(s, ".");
    SplitCount(s, '.');
    if |parts| == 4 {
      SplitPartsFree(s, '.');
      JoinSplit(s, ".");
      JoinFour(parts, ".");
      var a, b, c, d := parts[0], parts[1], parts[2], parts[3];
      assert '.' !in a && '.' !in b && '.' !in c && '.' !in d;
      assert s == a + "." + b + "." + c + "." + d;
      assert AnonymizeIp(Some(s)) == Some(a + "." + b + ".0.0");
    }
  }

  lemma JoinFour(parts: seq<string>, sep: string)
    requires |parts| == 4
    ensures Join(parts, sep) == parts[0] + sep + parts[1] + sep + parts[2] + sep + parts[3]
  {
    assert parts[1..][1..] == parts[2..];
    assert parts[2..][1..] == [parts[3]];
    assert Join(parts[2..], sep) == parts[2] + sep + parts[3];
    assert Join(parts[1..], sep) == parts[1] + sep + (parts[2] + sep + parts[3]);
  }

  /** The IPv6 shape of an anonymised address, written as a join with two empty pieces. */
  lemma JoinWithTwoEmpty(p4: seq<string>)
    requires |p4| == 4
    ensures Join(p4 + ["", ""], ":") == Join(p4, ":") + "::"
  {
    JoinAppend(p4, ":", "");
    JoinAppend(p4 + [""], ":", "");
    assert p4 + [""] + [""] == p4 + ["", ""];
  }

  lemma SplitJoinColons(q: seq<string>)
    requires |q| == 6 && forall i :: 0 <= i < |q| ==> ':' !in q[i]
    ensures Split(Join(q, ":"), ":") == q
  {
    SplitJoin(q, ':');
  }

  lemma SplitAnonymizedV6(p4: seq<string>, r: string)
    requires |p4| == 4 && (forall i :: 0 <= i < 4 ==> ':' !in p4[i]) && r == Join(p4, ":") + "::"
    ensures Split(r, ":") == p4 + ["", ""]
  {
    var q := p4 + ["", ""];
    JoinWithTwoEmpty(p4);
    forall i | 0 <= i < |q| ensures ':' !in q[i] {
      if i < 4 { assert q[i] == p4[i]; }
    }
    SplitJoinColons(q);
  }

  /** An anonymised IPv6 address is its own anonymisation. */
  lemma AnonymizedV6IsFixed(p4: seq<string>)
    requires |p4| == 4 && forall i :: 0 <= i < 4 ==> ':' !in p4[i]
    ensures AnonymizeIp(Some(Join(p4, ":") + "::")) == Some(Join(p4, ":") + "::")
  {
    var r := Join(p4, ":") + "::";
    SplitAnonymizedV6(p4, r);
    assert r[|r| - 1] == ':';
    assert (p4 + ["", ""])[..4] == p4;
  }

  lemma SplitJoinDots(q: seq<string>)
    requires |q| == 4 && forall i :: 0 <= i < |q| ==> '.' !in q[i]
    ensures Split(q[0] + "." + q[1] + "." + q[2] + "." + q[3], ".") == q
  {
    SplitJoin(q, '.');
    JoinFour(q, ".");
  }

  lemma SplitAnonymizedV4(a: string, b: string, r: string)
    requires '.' !in a && '.' !in b && r == a + "." + b + ".0.0"
    ensures Split(r, ".") == [a, b, "0", "0"]
  {
    var q := [a, b, "0", "0"];
    assert r == q[0] + "." + q[1] + "." + q[2] + "." + q[3];
    SplitJoinDots(q);
  }

  /** An anonymised IPv4 address is its own anonymisation. */
  lemma AnonymizedV4IsFixed(a: string, b: string)
    requires ':' !in a && ':' !in b && '.' !in a && '.' !in b
    ensures AnonymizeIp(Some(a + "." + b + ".0.0")) == Some(a + "." + b + ".0.0")
  {
    var r := a + "." + b + ".0.0";
    SplitAnonymizedV4(a, b, r);
    assert ':' !in r;
  }

  /** Anonymising an anonymised address changes nothing. */
  lemma AnonymizeIpIdempotent(ip: Option<string>)
    ensures AnonymizeIp(AnonymizeIp(ip)) == AnonymizeIp(ip)
  {
    if ip.Some? && ip.value != "" {
      var s := ip.value;
      if ':' in s {
        var parts := Split(s, ":");
        if |parts| >= 4 {
          SplitPartsFree(s, ':');
          AnonymizedV6IsFixed(parts[..4]);
        }
      } else {
        var parts := Split(s, ".");
        if |parts| == 4 {
          SplitPartsFree(s, '.');
          JoinSplit(s, ".");
          JoinFour(parts, ".");
          assert ':' !in parts[0] && ':' !in parts[1];
          AnonymizedV4IsFixed(parts[0], parts[1]);
        }
      }
    }
  }

  // ---------------------------------------------------------------------------
  // Consumed sentences

  /** SHA-256 of the stripped text, as a tag that identifies the stripped text. */
  datatype Digest = Sha256Of(stripped: string)

  function HashSentence(text: string): Digest {
    Sha256Of(PyStrip(text))
  }

  datatype ConsumedRow = ConsumedRow(digest: Digest, text: string, session: Option<string>, usage: string)

  /** The consumed-sentence table, keyed by its unique digest column. */
  type ConsumedTable = map<Digest, ConsumedRow>

  predicate IsConsumed(table: ConsumedTable, text: string) {
    HashSentence(text) in table
  }

  /**
   * `mark_sentence_consumed`: the existing row when the digest is already
   * present, otherwise a new row for this text.
   */
  function MarkConsumed(table: ConsumedTable, text: string, session: Option<string>, usage: string): (r: (ConsumedTable, ConsumedRow))
    ensures IsConsumed(r.0, text) && r.0[HashSentence(text)] == r.1
    ensures r.0.Keys == table.Keys + {HashSentence(text)}
    ensures forall d :: d in table ==> r.0[d] == table[d]
    ensures IsConsumed(table, text) ==> r.0 == table
    ensures !IsConsumed(table, text) ==> r.1.text == text && r.1.usage == usage && r.1.session == session
  {
    var h := HashSentence(text);
    if h in table then (table, table[h])
    else
      var row := ConsumedRow(h, text, session, usage);
      (table[h := row], row)
  }

  /** Marking twice adds no second row and returns the first one. */
  lemma MarkConsumedIdempotent(table: ConsumedTable, text: string, s1: Option<string>, u1: string, s2: Option<string>, u2: string)
    ensures var (t1, row1) := MarkConsumed(table, text, s1, u1);
      MarkConsumed(t1, text, s2, u2) == (t1, row1)
  {
  }

  /** Texts that differ only in surrounding white space share one row. */
  lemma ConsumedUpToStrip(table: ConsumedTable, a: string, b: string, session: Option<string>, usage: string)
    requires PyStrip(a) == PyStrip(b)
    ensures IsConsumed(MarkConsumed(table, a, session, usage).0, b)
  {
  }

  /** `get_unconsumed_sentences` as a filter: the pool's sentences not consumed, in order. */
  function UnconsumedSpec(pool: seq<string>, consumed: set<Digest>): (r: seq<string>)
    ensures |r| <= |pool|
    ensures forall s :: s in r <==> s in pool && HashSentence(s) !in consumed
    decreases |pool|
  {
    if |pool| == 0 then []
    else
      var init := UnconsumedSpec(pool[..|pool| - 1], consumed);
      var last := pool[|pool| - 1];
      assert pool == pool[..|pool| - 1] + [last];
      if HashSentence(last) !in consumed then init + [last] else init
  }

  /** `get_unconsumed_sentences`: one pass over the pool against the set of consumed digests. */
  method GetUnconsumed(pool: seq<string>, table: ConsumedTable) returns (r: seq<string>)
    ensures r == UnconsumedSpec(pool, table.Keys)
    ensures |pool| == 0 ==> r == []
    ensures forall s :: s in r <==> s in pool && !IsConsumed(table, s)
  {
    if |pool| == 0 {
      return [];
    }
    var consumed := table.Keys;
    r := [];
    var i := 0;
    while i < |pool|
      invariant 0 <= i <= |pool|
      invariant r == UnconsumedSpec(pool[..i], consumed)
    {
      UnconsumedStep(pool, i, consumed);
      if HashSentence(pool[i]) !in consumed {
        r := r + [pool[i]];
      }
      i := i + 1;
    }
    assert pool[..i] == pool;
  }

  /** One more sentence of the pool adds itself to the filter exactly when unconsumed. */
  lemma UnconsumedStep(pool: seq<string>, i: nat, consumed: set<Digest>)
    requires i < |pool|
    ensures UnconsumedSpec(pool[..i + 1], consumed)
      == UnconsumedSpec(pool[..i], consumed) + (if HashSentence(pool[i]) !in consumed then [pool[i]] else [])
  {
    assert pool[..i + 1][..i] == pool[..i];
  }

  // ---------------------------------------------------------------------------
  // Recording a vote

  datatype ArenaModel = ArenaModel(name: string, modelType: string, elo: real, wins: nat, matches: nat)

  datatype Origin = Dataset | Custom

  /** A row of the votes table; `at` is `vote_date` in microseconds. */
  datatype VoteRow = VoteRow(
    user: int,
    at: int,
    text: string,
    chosen: string,
    rejected: string,
    modelType: string,
    ipPartial: Option<string>,
    userAgent: Option<string>,
    digest: Digest,
    origin: Origin,
    countsPublic: bool)

  /** How many of `votes` chose `id`. */
  function Wins(votes: seq<VoteRow>, id: string): nat
    decreases |votes|
  {
    if |votes| == 0 then 0
    else Wins(votes[..|votes| - 1], id) + (if votes[|votes| - 1].chosen == id then 1 else 0)
  }

  /** How many of `votes` rejected `id`. */
  function Losses(votes: seq<VoteRow>, id: string): nat
    decreases |votes|
  {
    if |votes| == 0 then 0
    else Losses(votes[..|votes| - 1], id) + (if votes[|votes| - 1].rejected == id then 1 else 0)
  }

  /** A model appears in a vote once as chosen and once as rejected, so a vote against itself is two matches. */
  function Matches(votes: seq<VoteRow>, id: string): nat {
    Wins(votes, id) + Losses(votes, id)
  }

  datatype EloEntry = EloEntry(model: string, score: real, vote: nat, modelType: string)

  /** The tables `record_vote` touches. */
  datatype Store = Store(
    models: map<string, ArenaModel>,
    votes: seq<VoteRow>,
    eloHistory: seq<EloEntry>,
    consumed: ConsumedTable)

  /** No model has more wins than matches. */
  predicate WinsWithinMatches(models: map<string, ArenaModel>) {
    forall id :: id in models ==> models[id].wins <= models[id].matches
  }

  predicate HasModel(st: Store, id: string, modelType: string) {
    id in st.models && st.models[id].modelType == modelType
  }

  /** Only a sentence from the dataset list can count. */
  function OriginOf(text: string, dataset: seq<string>): Origin {
    if |dataset| > 0 && text in dataset then Dataset else Custom
  }

  /** A dataset sentence counts until it is consumed; a custom one never counts. */
  predicate CountsPublic(st: Store, text: string, dataset: seq<string>) {
    OriginOf(text, dataset) == Dataset && !IsConsumed(st.consumed, text)
  }

  /** `user_agent[:500] if user_agent else None`. */
  function TruncateAgent(ua: Option<string>): (r: Option<string>)
    ensures r.None? <==> ua.None? || ua.value == ""
    ensures r.Some? ==> |r.value| <= 500 && StartsWith(ua.value, r.value)
    ensures r.Some? && |ua.value| <= 500 ==> r == ua
  {
    if ua.None? || ua.value == "" then None
    else if |ua.value| <= 500 then ua
    else Some(ua.value[..500])
  }

  const ModelsNotFound := "One or both models not found for the specified model type"

  /**
   * The counters of a counted vote: the chosen model's record is written
   * first (new rating, one more win and match), then the rejected model's is
   * read back and written (new rating, one more match).
   */
  function CountMatch(models: map<string, ArenaModel>, chosen: string, rejected: string, elos: (real, real)): (r: map<string, ArenaModel>)
    requires chosen in models && rejected in models
    ensures r.Keys == models.Keys
    ensures WinsWithinMatches(models) ==> WinsWithinMatches(r)
    ensures forall id :: id in models && id != chosen && id != rejected ==> r[id] == models[id]
    ensures chosen != rejected ==>
      r[chosen].wins == models[chosen].wins + 1 && r[chosen].matches == models[chosen].matches + 1
      && r[rejected].wins == models[rejected].wins && r[rejected].matches == models[rejected].matches + 1
  {
    var c := models[chosen];
    var m1 := models[chosen := c.(elo := elos.0, wins := c.wins + 1, matches := c.matches + 1)];
    m1[rejected := m1[rejected].(elo := elos.1, matches := m1[rejected].matches + 1)]
  }

  /**
   * `record_vote`. The Elo formula is `eloChange(winner, loser)`. When the
   * vote counts, the chosen model's record is written first and the rejected
   * model's is read afterwards, which is what the ORM does when both ids name
   * the same row.
   */
  function RecordVote(st: Store, user: int, text: string, chosen: string, rejected: string, modelType: string,
                      ip: Option<string>, ua: Option<string>, dataset: seq<string>, now: int,
                      eloChange: (real, real) -> (real, real)): (r: Result<Store, string>)
    ensures r.Failure? <==> !HasModel(st, chosen, modelType) || !HasModel(st, rejected, modelType)
    ensures r.Failure? ==> r.error == ModelsNotFound
    ensures r.Success? ==> |r.value.votes| == |st.votes| + 1 && r.value.votes[..|st.votes|] == st.votes
    ensures r.Success? ==>
      var st' := r.value;
      var v := st'.votes[|st.votes|];
      v.chosen == chosen && v.rejected == rejected && v.text == text && v.user == user && v.at == now
      && v.origin == OriginOf(text, dataset) && v.digest == HashSentence(text)
      && v.ipPartial == AnonymizeIp(ip) && v.modelType == modelType && v.userAgent == TruncateAgent(ua)
      && (v.countsPublic <==> CountsPublic(st, text, dataset))
      && |st'.eloHistory| == |st.eloHistory| + 2 && st'.eloHistory[..|st.eloHistory|] == st.eloHistory
      && var ec, er := st'.eloHistory[|st.eloHistory|], st'.eloHistory[|st.eloHistory| + 1];
      ec.model == chosen && er.model == rejected
      && ec.vote == |st.votes| && er.vote == |st.votes|
      && ec.modelType == modelType && er.modelType == modelType
      && st'.models.Keys == st.models.Keys
      && (WinsWithinMatches(st.models) ==> WinsWithinMatches(st'.models))
    ensures r.Success? && !CountsPublic(st, text, dataset) ==>
      r.value.models == st.models && r.value.consumed == st.consumed
      && r.value.eloHistory[|st.eloHistory|].score == st.models[chosen].elo
      && r.value.eloHistory[|st.eloHistory| + 1].score == st.models[rejected].elo
    ensures r.Success? && CountsPublic(st, text, dataset) ==>
      IsConsumed(r.value.consumed, text)
      && (forall d :: d in st.consumed ==> d in r.value.consumed)
      && (forall id :: id in st.models && id != chosen && id != rejected ==> r.value.models[id] == st.models[id])
      && (chosen != rejected ==>
            r.value.models[chosen].wins == st.models[chosen].wins + 1
            && r.value.models[chosen].matches == st.models[chosen].matches + 1
            && r.value.models[rejected].wins == st.models[rejected].wins
            && r.value.models[rejected].matches == st.models[rejected].matches + 1)
  {
    if !HasModel(st, chosen, modelType) || !HasModel(st, rejected, modelType) then
      Failure(ModelsNotFound)
    else
      var origin := OriginOf(text, dataset);
      var counts := CountsPublic(st, text, dataset);
      var vote := VoteRow(user, now, text, chosen, rejected, modelType, AnonymizeIp(ip), TruncateAgent(ua),
                          HashSentence(text), origin, counts);
      var id := |st.votes|;
      var c := st.models[chosen];
      var rj := st.models[rejected];
      var elos := if counts then eloChange(c.elo, rj.elo) else (c.elo, rj.elo);
      var models := if counts then CountMatch(st.models, chosen, rejected, elos) else st.models;
      var history := st.eloHistory + [EloEntry(chosen, elos.0, id, modelType), EloEntry(rejected, elos.1, id, modelType)];
      var consumed := if counts then MarkConsumed(st.consumed, text, None, "voted").0 else st.consumed;
      Success(Store(models, st.votes + [vote], history, consumed))
  }

  /**
   * A dataset sentence counts at most once: after a vote on it counted, no
   * later vote on the same (stripped) sentence counts.
   */
  lemma CountsOnce(st: Store, user: int, text: string, chosen: string, rejected: string, modelType: string,
                   ip: Option<string>, ua: Option<string>, dataset: seq<string>, now: int,
                   eloChange: (real, real) -> (real, real), again: string)
    requires PyStrip(again) == PyStrip(text)
    ensures var r := RecordVote(st, user, text, chosen, rejected, modelType, ip, ua, dataset, now, eloChange);
      r.Success? && CountsPublic(st, text, dataset) ==> !CountsPublic(r.value, again, dataset)
  {
  }
}
