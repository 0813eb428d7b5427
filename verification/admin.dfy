/**
 * The admin panel's own rules (`admin.py`): the checks before a timeout is
 * created or a campaign resolved, the user search, the per-user bias table,
 * the de-duplicated list of biased users, and the two chart series (daily
 * votes with missing days as zero, Elo per day carried forward).
 *
 * Days are day numbers (one per calendar date); instants (expiry times, the
 * Elo history's timestamps) are microseconds, as in the timeouts the vote
 * gate reads.
 */
module Admin {
  import opened Wrappers
  import opened Strings
  import opened Sorting
  import opened ArenaModels
  import opened Security

  // ---------------------------------------------------------------------------
  // create_timeout

  datatype TimeoutRefusal = FieldsRequired | BadDuration | UnknownUser | AlreadyTimedOut

  /**
   * `create_timeout`. The form's `user_id` and `duration_days` are `None`
   * when missing or not integers; `all([...])` also refuses 0 and an empty
   * reason. On success the new active timeout runs `duration` days from now.
   */
  function CreateTimeout(userId: Option<int>, reason: Option<string>, duration: Option<int>,
                         users: set<int>, timeouts: seq<TimeoutRow>, now: int): (r: Result<seq<TimeoutRow>, TimeoutRefusal>)
    ensures r.Success? <==>
      (userId.Some? && userId.value != 0 && PyStrip(reason.GetOr("")) != ""
       && duration.Some? && 1 <= duration.value <= 365
       && userId.value in users && !TimedOut(timeouts, userId.value, now))
    ensures (userId.None? || userId.value == 0 || PyStrip(reason.GetOr("")) == "" || duration.None? || duration.value == 0)
      ==> r == Failure(FieldsRequired)
    ensures r.Success? ==>
      r.value == timeouts + [TimeoutRow(userId.value, true, now + duration.value * MicrosPerDay, PyStrip(reason.value))]
  {
    var why := PyStrip(reason.GetOr(""));
    if userId.None? || userId.value == 0 || why == "" || duration.None? || duration.value == 0 then Failure(FieldsRequired)
    else if duration.value < 1 || duration.value > 365 then Failure(BadDuration)
    else if userId.value !in users then Failure(UnknownUser)
    else if TimedOut(timeouts, userId.value, now) then Failure(AlreadyTimedOut)
    else Success(timeouts + [TimeoutRow(userId.value, true, now + duration.value * MicrosPerDay, why)])
  }

  /**
   * A created timeout suspends the user: a second one is refused, and the
   * vote gate turns their votes away, for as long as it runs.
   */
  lemma TimeoutSuspends(userId: Option<int>, reason: Option<string>, duration: Option<int>,
                        users: set<int>, timeouts: seq<TimeoutRow>, now: int, later: int,
                        account: Option<Account>, votes: seq<VoteRow>)
    requires CreateTimeout(userId, reason, duration, users, timeouts, now).Success?
    requires now <= later < now + duration.value * MicrosPerDay
    ensures var t := CreateTimeout(userId, reason, duration, users, timeouts, now).value;
      TimedOut(t, userId.value, later)
      && CreateTimeout(userId, reason, duration, users, t, later) == Failure(AlreadyTimedOut)
      && VoteAllowed(userId, Success(TimedOut(t, userId.value, later)), account, votes, later) == Denied(Suspended, 0)
  {
    NewTimeoutActive(userId, reason, duration, users, timeouts, now, later);
    var t := CreateTimeout(userId, reason, duration, users, timeouts, now).value;
    SecondTimeoutRefused(userId, reason, duration, users, timeouts, now, t, later);
    assert !NoUser(userId);
  }

  /** Whatever the table, a request that passed once fails only on the user already being timed out. */
  lemma SecondTimeoutRefused(userId: Option<int>, reason: Option<string>, duration: Option<int>,
                             users: set<int>, timeouts: seq<TimeoutRow>, now: int, t: seq<TimeoutRow>, later: int)
    requires CreateTimeout(userId, reason, duration, users, timeouts, now).Success?
    requires TimedOut(t, userId.value, later)
    ensures CreateTimeout(userId, reason, duration, users, t, later) == Failure(AlreadyTimedOut)
  {
  }

  lemma NewTimeoutActive(userId: Option<int>, reason: Option<string>, duration: Option<int>,
                         users: set<int>, timeouts: seq<TimeoutRow>, now: int, later: int)
    requires CreateTimeout(userId, reason, duration, users, timeouts, now).Success?
    requires now <= later < now + duration.value * MicrosPerDay
    ensures TimedOut(CreateTimeout(userId, reason, duration, users, timeouts, now).value, userId.value, later)
  {
    var t := CreateTimeout(userId, reason, duration, users, timeouts, now).value;
    assert t[|timeouts|].user == userId.value && t[|timeouts|].active && t[|timeouts|].expiresAt > later;
  }

  // ---------------------------------------------------------------------------
  // resolve_campaign_route

  /** Only the two closing statuses are accepted. */
  function CampaignStatus(status: Option<string>): (r: Result<string, string>)
    ensures r.Success? <==> status == Some("resolved") || status == Some("false_positive")
    ensures r.Success? ==> r.value == status.value
    ensures r.Failure? ==> r.error == "Invalid status"
  {
    if status == Some("resolved") || status == Some("false_positive") then Success(status.value)
    else Failure("Invalid status")
  }

  // ---------------------------------------------------------------------------
  // user_search

  const SearchLimit := 10

  /** `username ILIKE '%q%'`: the query occurs in the name, ignoring ASCII case. */
  predicate NameMatches(name: string, q: string) {
    Contains(Lower(name), Lower(q))
  }

  /** The first `n` names that match, in table order. */
  function FirstMatches(names: seq<string>, q: string, n: nat): (r: seq<string>)
    ensures |r| <= n
    ensures forall x :: x in r ==> x in names && NameMatches(x, q)
    ensures |r| < n ==> forall x :: x in names && NameMatches(x, q) ==> x in r
    decreases |names|
  {
    if |names| == 0 || n == 0 then []
    else if NameMatches(names[0], q) then [names[0]] + FirstMatches(names[1..], q, n - 1)
    else FirstMatches(names[1..], q, n)
  }

  /** `user_search`: nothing for a stripped query under two characters, else at most ten matches. */
  function UserSearch(q: Option<string>, names: seq<string>): (r: seq<string>)
    ensures |PyStrip(q.GetOr(""))| < 2 ==> r == []
    ensures |r| <= SearchLimit
    ensures forall x :: x in r ==> x in names && NameMatches(x, PyStrip(q.GetOr("")))
    ensures |PyStrip(q.GetOr(""))| >= 2 && |r| < SearchLimit ==>
      forall x :: x in names && NameMatches(x, PyStrip(q.GetOr(""))) ==> x in r
  {
    var query := PyStrip(q.GetOr(""));
    if |query| < 2 then [] else FirstMatches(names, query, SearchLimit)
  }

  // ---------------------------------------------------------------------------
  // user_detail: the model bias table

  /** One row of the table: choices, appearances and their ratio for one model. */
  datatype BiasStat = BiasStat(id: string, name: string, chosen: nat, appeared: nat, ratio: real)

  function RatioOf(s: BiasStat): real {
    s.ratio
  }

  function StatOf(votes: seq<VoteRow>, id: string, name: string): BiasStat {
    BiasStat(id, name, Wins(votes, id), Matches(votes, id), BiasRatio(votes, id))
  }

  /** The rows for the models of `ids` that still exist, in the order of `ids`. */
  function StatsOf(votes: seq<VoteRow>, ids: seq<string>, names: map<string, string>): (r: seq<BiasStat>)
    ensures forall x :: x in r ==> x.id in ids && x.id in names && x == StatOf(votes, x.id, names[x.id])
    ensures forall id :: id in ids && id in names ==> StatOf(votes, id, names[id]) in r
    decreases |ids|
  {
    if |ids| == 0 then []
    else
      var init := StatsOf(votes, ids[..|ids| - 1], names);
      var id := ids[|ids| - 1];
      assert forall x :: x in ids <==> x in ids[..|ids| - 1] || x == id;
      if id in names then init + [StatOf(votes, id, names[id])] else init
  }

  /** A model appears among the votes exactly when it has a match. */
  lemma {:induction false} AppearsIffMatched(votes: seq<VoteRow>, id: string)
    ensures Matches(votes, id) > 0 <==> exists i :: 0 <= i < |votes| && (votes[i].chosen == id || votes[i].rejected == id)
    decreases |votes|
  {
    if |votes| > 0 {
      var init := votes[..|votes| - 1];
      AppearsIffMatched(init, id);
      assert forall i :: 0 <= i < |init| ==> init[i] == votes[i];
      if Matches(init, id) > 0 {
        var i :| 0 <= i < |init| && (init[i].chosen == id || init[i].rejected == id);
        assert votes[i] == init[i];
      }
    }
  }

  const TopBiased := 5

  /**
   * The bias table of `user_detail`: per model of the user's votes that still
   * exists, how often it was chosen and how often it appeared, sorted by
   * their ratio, highest first (ties in order of first appearance), top five.
   */
  function UserBias(votes: seq<VoteRow>, names: map<string, string>): (r: seq<BiasStat>)
    ensures |votes| == 0 ==> r == []
  {
    Take(SortDesc(StatsOf(votes, ModelsIn(votes), names), RatioOf), TopBiased)
  }

  /** A row that counts a model of the user's votes correctly; appearances bound choices. */
  predicate CountsCorrectly(votes: seq<VoteRow>, names: map<string, string>, x: BiasStat) {
    x.id in names && x.name == names[x.id]
    && x.chosen == Wins(votes, x.id) && x.appeared == Matches(votes, x.id)
    && 0 < x.appeared && x.chosen <= x.appeared
    && x.ratio == BiasRatio(votes, x.id)
  }

  /** Every row of the table counts its model correctly; at most five, highest ratio first. */
  lemma UserBiasRows(votes: seq<VoteRow>, names: map<string, string>)
    ensures var r := UserBias(votes, names);
      |r| <= TopBiased && SortedDesc(r, RatioOf)
      && forall i :: 0 <= i < |r| ==> CountsCorrectly(votes, names, r[i])
  {
    var stats := StatsOf(votes, ModelsIn(votes), names);
    TopElements(stats, RatioOf, TopBiased);
    var r := UserBias(votes, names);
    forall i | 0 <= i < |r|
      ensures CountsCorrectly(votes, names, r[i])
    {
      StatCountsCorrectly(votes, names, r[i]);
    }
  }

  lemma StatCountsCorrectly(votes: seq<VoteRow>, names: map<string, string>, x: BiasStat)
    requires x in StatsOf(votes, ModelsIn(votes), names)
    ensures CountsCorrectly(votes, names, x)
  {
    AppearsIffMatched(votes, x.id);
  }

  /**
   * The table keeps the highest ratios: a model of the user's votes that
   * still exists but has no row lost out to five rows with ratios at least
   * as high.
   */
  lemma UserBiasTop(votes: seq<VoteRow>, names: map<string, string>, id: string)
    requires id in names && Matches(votes, id) > 0
    requires forall i :: 0 <= i < |UserBias(votes, names)| ==> UserBias(votes, names)[i].id != id
    ensures |UserBias(votes, names)| == TopBiased
    ensures forall i :: 0 <= i < TopBiased ==> UserBias(votes, names)[i].ratio >= BiasRatio(votes, id)
  {
    var stats := StatsOf(votes, ModelsIn(votes), names);
    var sorted := SortDesc(stats, RatioOf);
    AppearsIffMatched(votes, id);
    var x := StatOf(votes, id, names[id]);
    assert x in stats;
    SortDescElements(stats, RatioOf);
    assert x in sorted;
    var k :| 0 <= k < |sorted| && sorted[k] == x;
    var r := UserBias(votes, names);
    assert x !in r;
    assert forall i :: 0 <= i < |r| ==> r[i] == sorted[i];
    assert k >= |r|;
    forall i | 0 <= i < TopBiased
      ensures r[i].ratio >= BiasRatio(votes, id)
    {
      assert r[i] == sorted[i];
      assert RatioOf(sorted[i]) >= RatioOf(sorted[k]);
    }
  }

  // ---------------------------------------------------------------------------
  // security: biased users

  /** One entry of the biased-users list. */
  datatype Biased = Biased(user: int, model: string, ratio: real, forModel: nat, total: nat)

  function BiasedRatio(b: Biased): real {
    b.ratio
  }

  /**
   * The candidates the security page collects: for each (voter, model) pair
   * with a voter id, `detect_model_bias` with its defaults; kept when biased
   * over at least five votes and the user still exists.
   */
  /** A (voter, model) pair the security page keeps: a voter id that still exists, biased over at least five votes. */
  predicate Qualifies(pair: (int, string), votes: seq<VoteRow>, users: set<int>) {
    var c := DetectModelBias(Some(pair.0), votes, pair.1, 5, 0.8);
    pair.0 != 0 && pair.0 in users && c.biased && c.total >= 5
  }

  /** The entry a qualifying pair contributes. */
  function CandidateOf(pair: (int, string), votes: seq<VoteRow>): Biased {
    var c := DetectModelBias(Some(pair.0), votes, pair.1, 5, 0.8);
    Biased(pair.0, pair.1, c.ratio, c.forModel, c.total)
  }

  function BiasedCandidates(pairs: seq<(int, string)>, votes: seq<VoteRow>, users: set<int>): (r: seq<Biased>)
    ensures |r| <= |pairs|
    ensures forall x :: x in r ==>
      x.user != 0 && x.user in users && x.total >= 5
      && var c := DetectModelBias(Some(x.user), votes, x.model, 5, 0.8);
         c.biased && x == Biased(x.user, x.model, c.ratio, c.forModel, c.total)
    ensures forall i :: 0 <= i < |pairs| && Qualifies(pairs[i], votes, users) ==>
      CandidateOf(pairs[i], votes) in r
    decreases |pairs|
  {
    if |pairs| == 0 then []
    else
      var init := BiasedCandidates(pairs[..|pairs| - 1], votes, users);
      var (voter, model) := pairs[|pairs| - 1];
      if voter == 0 then init
      else
        var c := DetectModelBias(Some(voter), votes, model, 5, 0.8);
        if c.biased && c.total >= 5 && voter in users then init + [Biased(voter, model, c.ratio, c.forModel, c.total)]
        else init
  }

  function KeyOf(b: Biased): (int, string) {
    (b.user, b.model)
  }

  /** No two entries share a (user, model) key. */
  predicate UniqueKeys(s: seq<Biased>) {
    forall i, j :: 0 <= i < j < |s| ==> KeyOf(s[i]) != KeyOf(s[j])
  }

  function KeysOf(s: seq<Biased>): set<(int, string)> {
    set x | x in s :: KeyOf(x)
  }

  /**
   * The loop over `seen_users`: keep an entry when its (user, model) key has
   * not been kept yet; the kept keys are the `seen` set.
   */
  function Dedupe(items: seq<Biased>): (r: seq<Biased>)
    ensures UniqueKeys(r)
    ensures forall x :: x in r ==> x in items
    ensures KeysOf(r) == KeysOf(items)
    decreases |items|
  {
    if |items| == 0 then []
    else
      var init := Dedupe(items[..|items| - 1]);
      var x := items[|items| - 1];
      assert items == items[..|items| - 1] + [x];
      if KeyOf(x) in KeysOf(init) then init
      else
        var r := init + [x];
        assert KeysOf(r) == KeysOf(init) + {KeyOf(x)};
        r
  }

  /** The entry kept for a key is the first one with that key. */
  lemma {:induction false} DedupeKeepsFirst(items: seq<Biased>, i: nat)
    requires i < |items|
    requires forall j :: 0 <= j < i ==> KeyOf(items[j]) != KeyOf(items[i])
    ensures items[i] in Dedupe(items)
    decreases |items|
  {
    var init := items[..|items| - 1];
    assert items == init + [items[|items| - 1]];
    if i < |items| - 1 {
      assert init[i] == items[i];
      DedupeKeepsFirst(init, i);
    } else {
      assert KeyOf(items[i]) !in KeysOf(init);
    }
  }

  const ListedBiased := 20

  /** The biased users the security page lists: de-duplicated, by ratio, top twenty. */
  function SecurityBiased(pairs: seq<(int, string)>, votes: seq<VoteRow>, users: set<int>): (r: seq<Biased>)
    ensures |r| <= ListedBiased
    ensures SortedDesc(r, BiasedRatio)
  {
    Take(SortDesc(Dedupe(BiasedCandidates(pairs, votes, users)), BiasedRatio), ListedBiased)
  }

  /** Keys that differ between distinct elements stay different in any permutation. */
  lemma UniqueKeysPermutation(a: seq<Biased>, b: seq<Biased>)
    requires multiset(a) == multiset(b) && UniqueKeys(a)
    ensures UniqueKeys(b)
  {
    assert Distinct(a);
    PermutationDistinct(a, b);
    forall i, j | 0 <= i < j < |b| ensures KeyOf(b[i]) != KeyOf(b[j]) {
      assert b[i] in multiset(a) && b[j] in multiset(a);
      var p :| 0 <= p < |a| && a[p] == b[i];
      var q :| 0 <= q < |a| && a[q] == b[j];
      assert p != q;
    }
  }

  /** No (user, model) pair is listed twice, and every listed entry is a biased candidate. */
  lemma SecurityBiasedUnique(pairs: seq<(int, string)>, votes: seq<VoteRow>, users: set<int>)
    ensures var r := SecurityBiased(pairs, votes, users);
      UniqueKeys(r) && forall x :: x in r ==> x in BiasedCandidates(pairs, votes, users)
  {
    var candidates := BiasedCandidates(pairs, votes, users);
    var unique := Dedupe(candidates);
    TopElements(unique, BiasedRatio, ListedBiased);
    UniqueKeysPermutation(unique, SortDesc(unique, BiasedRatio));
    UniqueKeysPrefix(SortDesc(unique, BiasedRatio), ListedBiased);
  }

  /**
   * The list is the top of the de-duplicated candidates: a qualifying pair
   * that is not listed is outranked by twenty listed entries whose ratio is at
   * least its own, so when fewer than twenty are listed every qualifying pair is.
   */
  lemma SecurityBiasedTop(pairs: seq<(int, string)>, votes: seq<VoteRow>, users: set<int>, i: nat)
    requires i < |pairs| && Qualifies(pairs[i], votes, users)
    ensures var r := SecurityBiased(pairs, votes, users);
      CandidateOf(pairs[i], votes) !in r ==>
        |r| == ListedBiased && forall k :: 0 <= k < |r| ==> r[k].ratio >= CandidateOf(pairs[i], votes).ratio
  {
    var candidates := BiasedCandidates(pairs, votes, users);
    var x := CandidateOf(pairs[i], votes);
    CandidateSurvivesDedupe(candidates, x);
    TopOutranks(Dedupe(candidates), BiasedRatio, ListedBiased, x);
  }

  /** A candidate is kept by the de-duplication when every entry with its key is itself. */
  lemma CandidateSurvivesDedupe(candidates: seq<Biased>, x: Biased)
    requires x in candidates
    requires forall y :: y in candidates && KeyOf(y) == KeyOf(x) ==> y == x
    ensures x in Dedupe(candidates)
  {
    var unique := Dedupe(candidates);
    assert KeyOf(x) in KeysOf(candidates);
    var y :| y in unique && KeyOf(y) == KeyOf(x);
  }

  /** A prefix of a list without repeated keys has none either. */
  lemma UniqueKeysPrefix(s: seq<Biased>, n: nat)
    requires UniqueKeys(s)
    ensures UniqueKeys(Take(s, n))
  {
    var r := Take(s, n);
    assert forall k :: 0 <= k < |r| ==> r[k] == s[k];
  }

  // ---------------------------------------------------------------------------
  // index: votes per day for the last 31 days

  const ChartDays := 31

  /**
   * The daily chart of `index`: the 31 days ending today, each with its vote
   * count from the grouped query, or 0 for a day without votes.
   */
  method DailyVotes(today: int, counts: map<int, nat>) returns (days: seq<int>, series: seq<nat>)
    ensures |days| == ChartDays && |series| == ChartDays
    ensures days[0] == today - 30 && days[ChartDays - 1] == today
    ensures forall i :: 0 < i < ChartDays ==> days[i] == days[i - 1] + 1
    ensures forall i :: 0 <= i < ChartDays ==> (days[i] in counts ==> series[i] == counts[days[i]])
    ensures forall i :: 0 <= i < ChartDays ==> (days[i] !in counts ==> series[i] == 0)
  {
    days := [];
    var back := 30;
    while back >= 0
      invariant -1 <= back <= 30 && |days| == 30 - back
      invariant forall i :: 0 <= i < |days| ==> days[i] == today - 30 + i
    {
      days := days + [today - back];
      back := back - 1;
    }
    series := [];
    var k := 0;
    while k < |days|
      invariant 0 <= k <= |days| && |series| == k
      invariant forall i :: 0 <= i < k ==> series[i] == if days[i] in counts then counts[days[i]] else 0
    {
      series := series + [if days[k] in counts then counts[days[k]] else 0];
      k := k + 1;
    }
  }

  // ---------------------------------------------------------------------------
  // statistics: the Elo timeline

  /** The calendar day of an instant given in microseconds: `datetime.date()` as a day number. */
  function DayOf(t: int): int {
    t / MicrosPerDay
  }

  /** The time of day of an instant, in microseconds since midnight. */
  function TimeOfDay(t: int): int {
    t % MicrosPerDay
  }

  /** Where the timeline starts: the earliest entry, or 30 days before the latest when the two are out of order. */
  function EloStart(earliest: int, latest: int): (start: int)
    ensures start <= latest
    ensures earliest <= latest ==> start == earliest
  {
    if earliest > latest then latest - 30 * MicrosPerDay else earliest
  }

  /**
   * What the `while current <= latest` loop lists from `start`: the day of
   * `start + i` days for every step that is still no later than `latest`,
   * and nothing after the first step that overshoots it.
   */
  predicate ListsDaysFrom(start: int, latest: int, days: seq<int>) {
    (forall i :: 0 <= i < |days| ==> start + i * MicrosPerDay <= latest && days[i] == DayOf(start) + i)
    && start + |days| * MicrosPerDay > latest
  }

  /** Moving an instant by whole days moves its day and keeps its time of day. */
  lemma DayShift(t: int, n: int)
    ensures DayOf(t + n * MicrosPerDay) == DayOf(t) + n
    ensures TimeOfDay(t + n * MicrosPerDay) == TimeOfDay(t)
  {
    var q := DayOf(t);
    var r := TimeOfDay(t);
    assert t == q * MicrosPerDay + r;
    assert t + n * MicrosPerDay == (q + n) * MicrosPerDay + r;
  }

  /**
   * Within the last step before `latest`, the step's day is `latest`'s day
   * exactly when the step's time of day is not after `latest`'s.
   */
  lemma LastStepDay(s: int, latest: int)
    requires s <= latest < s + MicrosPerDay
    ensures DayOf(s) == DayOf(latest) <==> TimeOfDay(s) <= TimeOfDay(latest)
  {
    var ds, ts := DayOf(s), TimeOfDay(s);
    var dl, tl := DayOf(latest), TimeOfDay(latest);
    assert s == ds * MicrosPerDay + ts && 0 <= ts < MicrosPerDay;
    assert latest == dl * MicrosPerDay + tl && 0 <= tl < MicrosPerDay;
    assert ds <= dl <= ds + 1;
  }

  /**
   * `elo_dates` (the loop over datetimes): one day per step of a day from the
   * start while the step is no later than `latest`. The last listed day is
   * `latest`'s own day exactly when the start's time of day is not after
   * `latest`'s; otherwise `latest`'s day is left out.
   */
  method EloDates(earliest: int, latest: int) returns (days: seq<int>)
    ensures ListsDaysFrom(EloStart(earliest, latest), latest, days)
    ensures |days| >= 1 && days[0] == DayOf(EloStart(earliest, latest))
    ensures days[|days| - 1] == DayOf(latest) <==> TimeOfDay(EloStart(earliest, latest)) <= TimeOfDay(latest)
  {
    var start := EloStart(earliest, latest);
    var current := start;
    days := [];
    while current <= latest
      invariant current == start + |days| * MicrosPerDay
      invariant forall i :: 0 <= i < |days| ==> start + i * MicrosPerDay <= latest && days[i] == DayOf(start) + i
      decreases latest - current
    {
      DayShift(start, |days|);
      days := days + [DayOf(current)];
      current := current + MicrosPerDay;
    }
    var last := start + (|days| - 1) * MicrosPerDay;
    DayShift(start, |days| - 1);
    LastStepDay(last, latest);
  }

  /**
   * With an earliest entry at 15:00 on day 0 and the latest at 10:00 on day 2,
   * the loop lists days 0 and 1 only: day 2, the latest entry's own day, is missing.
   */
  lemma LateStartMissesLatestDay(days: seq<int>)
    requires ListsDaysFrom(15 * MicrosPerHour, 2 * MicrosPerDay + 10 * MicrosPerHour, days)
    ensures days == [0, 1]
  {
    var latest := 2 * MicrosPerDay + 10 * MicrosPerHour;
    assert 2 < |days| ==> 15 * MicrosPerHour + 2 * MicrosPerDay <= latest;
    assert |days| <= 1 ==> 15 * MicrosPerHour + |days| * MicrosPerDay <= 15 * MicrosPerHour + MicrosPerDay;
    assert days[0] == DayOf(15 * MicrosPerHour) + 0;
  }

  /** `history_dict`: each date's score, later entries overwriting earlier ones. */
  function ScoreByDate(history: seq<(int, real)>): (m: map<int, real>)
    ensures forall i :: 0 <= i < |history| ==> history[i].0 in m
    ensures forall d :: d in m ==> exists i :: 0 <= i < |history| && history[i] == (d, m[d])
    decreases |history|
  {
    if |history| == 0 then map[]
    else
      var init := history[..|history| - 1];
      assert forall i :: 0 <= i < |init| ==> init[i] == history[i];
      ScoreByDate(init)[history[|history| - 1].0 := history[|history| - 1].1]
  }

  /** The score kept for a date is that of its last entry. */
  lemma {:induction false} ScoreByDateLast(history: seq<(int, real)>, i: nat)
    requires i < |history|
    requires forall j :: i < j < |history| ==> history[j].0 != history[i].0
    ensures ScoreByDate(history)[history[i].0] == history[i].1
    decreases |history|
  {
    if i < |history| - 1 {
      var init := history[..|history| - 1];
      assert init[i] == history[i];
      ScoreByDateLast(init, i);
    }
  }

  /** The fill loop: a known date's score, else the last score so far, starting from `current`. */
  function ForwardFill(days: seq<int>, known: map<int, real>, current: real): (r: seq<real>)
    ensures |r| == |days|
    ensures forall i :: 0 <= i < |days| && days[i] in known ==> r[i] == known[days[i]]
    ensures forall i :: 0 < i < |days| && days[i] !in known ==> r[i] == r[i - 1]
    ensures |days| > 0 && days[0] !in known ==> r[0] == current
    decreases |days|
  {
    if |days| == 0 then []
    else
      var init := ForwardFill(days[..|days| - 1], known, current);
      var d := days[|days| - 1];
      var last := if |init| == 0 then current else init[|init| - 1];
      var r := init + [if d in known then known[d] else last];
      assert forall i :: 0 <= i < |init| ==> r[i] == init[i] && days[..|days| - 1][i] == days[i];
      r
  }

  /**
   * Each filled score is the one of the latest known date up to that day,
   * or `current` when no earlier date is known.
   */
  lemma {:induction false} ForwardFillLatest(days: seq<int>, known: map<int, real>, current: real, i: nat)
    requires i < |days|
    ensures (forall j :: 0 <= j <= i ==> days[j] !in known) ==> ForwardFill(days, known, current)[i] == current
    ensures forall j :: 0 <= j <= i && days[j] in known && (forall k :: j < k <= i ==> days[k] !in known) ==>
      ForwardFill(days, known, current)[i] == known[days[j]]
    decreases i
  {
    var r := ForwardFill(days, known, current);
    if i > 0 {
      ForwardFillLatest(days, known, current, i - 1);
      if days[i] !in known {
        assert r[i] == r[i - 1];
      }
    }
  }

  /**
   * One model's timeline in `statistics`: the carried-forward scores, or
   * `current_elo` on every day when the model has no history.
   */
  function EloTimeline(days: seq<int>, history: seq<(int, real)>, current: real): (r: seq<real>)
    ensures |r| == |days|
    ensures forall i :: 0 <= i < |days| && days[i] in ScoreByDate(history) ==> r[i] == ScoreByDate(history)[days[i]]
    ensures forall i :: 0 < i < |days| && days[i] !in ScoreByDate(history) ==> r[i] == r[i - 1]
    ensures |days| > 0 && days[0] !in ScoreByDate(history) ==> r[0] == current
  {
    if |history| == 0 then seq(|days|, _ => current) else ForwardFill(days, ScoreByDate(history), current)
  }

  /** Without history the fill would give the same: every day keeps `current`. */
  lemma EloTimelineWithoutHistory(days: seq<int>, current: real)
    ensures EloTimeline(days, [], current) == ForwardFill(days, map[], current)
  {
  }
}
