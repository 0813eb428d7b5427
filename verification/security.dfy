/**
 * The vote-integrity rules of the TTS arena (`security.py`): the
 * vote-frequency and model-bias detectors, the rapid-voting detector, the
 * security score and the gate that decides whether a vote is accepted.
 *
 * The clock is the parameter `now`; times are microseconds, the resolution
 * of Python's datetime, so "under 3 seconds" is exact. Float ratios against
 * 0.2 and 0.6 become integer cross-multiplications; the bias thresholds are
 * compared as exact rationals.
 */
module Security {
  import opened Wrappers
  import opened Sorting
  import opened ArenaModels

  const MicrosPerSecond := 1_000_000
  const MicrosPerHour := 3_600_000_000
  const MicrosPerDay := 24 * MicrosPerHour

  /** Python's `not user_id`: no id, or the id 0. */
  predicate NoUser(user: Option<int>) {
    user.None? || user.value == 0
  }

  // ---------------------------------------------------------------------------
  // Counting a user's votes

  /** How many of `votes` are by `user` at or after `since`. */
  function CountSince(votes: seq<VoteRow>, user: int, since: int): (r: nat)
    ensures r <= |votes|
    decreases |votes|
  {
    if |votes| == 0 then 0
    else
      var v := votes[|votes| - 1];
      CountSince(votes[..|votes| - 1], user, since) + (if v.user == user && v.at >= since then 1 else 0)
  }

  lemma {:induction false} CountSinceAppend(a: seq<VoteRow>, b: seq<VoteRow>, user: int, since: int)
    ensures CountSince(a + b, user, since) == CountSince(a, user, since) + CountSince(b, user, since)
    decreases |b|
  {
    if |b| > 0 {
      assert (a + b)[..|a + b| - 1] == a + b[..|b| - 1];
      CountSinceAppend(a, b[..|b| - 1], user, since);
    } else {
      assert a + b == a;
    }
  }

  /** The votes by `user`, in table order. */
  function VotesBy(votes: seq<VoteRow>, user: int): (r: seq<VoteRow>)
    ensures |r| <= |votes|
    ensures forall i :: 0 <= i < |r| ==> r[i].user == user
    decreases |votes|
  {
    if |votes| == 0 then []
    else
      var init := VotesBy(votes[..|votes| - 1], user);
      if votes[|votes| - 1].user == user then init + [votes[|votes| - 1]] else init
  }

  // ---------------------------------------------------------------------------
  // detect_suspicious_voting_patterns

  datatype SuspicionReason = TooManyVotes(count: nat, hours: int, max: int) | ExcessiveShortTerm(count: nat)

  /** `(is_suspicious, reason, vote_count)`. */
  datatype Suspicion = Suspicion(suspicious: bool, reason: Option<SuspicionReason>, recent: nat)

  const DefaultHoursBack := 24
  const DefaultMaxPerHour := 30

  /**
   * `detect_suspicious_voting_patterns`: too many votes in the window, or
   * (for windows of three hours or more) more than 100 in the last three hours.
   */
  function DetectSuspicious(user: Option<int>, votes: seq<VoteRow>, now: int, hoursBack: int, maxPerHour: int): (r: Suspicion)
    ensures NoUser(user) ==> r == Suspicion(false, None, 0)
    ensures !NoUser(user) ==> r.recent == CountSince(votes, user.value, now - hoursBack * MicrosPerHour)
    ensures !NoUser(user) ==>
      (r.suspicious <==>
        (r.recent > maxPerHour * hoursBack
         || (hoursBack >= 3 && CountSince(votes, user.value, now - 3 * MicrosPerHour) > 100)))
    ensures r.reason.Some? <==> r.suspicious
  {
    if NoUser(user) then Suspicion(false, None, 0)
    else
      var recent := CountSince(votes, user.value, now - hoursBack * MicrosPerHour);
      var max := maxPerHour * hoursBack;
      if recent > max then Suspicion(true, Some(TooManyVotes(recent, hoursBack, max)), recent)
      else if hoursBack >= 3 && CountSince(votes, user.value, now - 3 * MicrosPerHour) > 100 then
        Suspicion(true, Some(ExcessiveShortTerm(CountSince(votes, user.value, now - 3 * MicrosPerHour))), recent)
      else Suspicion(false, None, recent)
  }

  /** More votes never clear a suspicion. */
  lemma SuspicionMonotone(user: Option<int>, votes: seq<VoteRow>, more: seq<VoteRow>, now: int, hoursBack: int, maxPerHour: int)
    ensures DetectSuspicious(user, votes, now, hoursBack, maxPerHour).suspicious ==>
      DetectSuspicious(user, votes + more, now, hoursBack, maxPerHour).suspicious
  {
    if !NoUser(user) {
      CountSinceAppend(votes, more, user.value, now - hoursBack * MicrosPerHour);
      CountSinceAppend(votes, more, user.value, now - 3 * MicrosPerHour);
    }
  }

  // ---------------------------------------------------------------------------
  // detect_model_bias

  /** `(is_biased, bias_ratio, votes_for_model, total_votes)`. */
  datatype BiasCheck = BiasCheck(biased: bool, ratio: real, forModel: nat, total: nat)

  /**
   * `detect_model_bias`: below `minVotes` votes nothing is biased; otherwise
   * the share of the user's votes that chose `model` is compared with the
   * threshold.
   */
  function DetectModelBias(user: Option<int>, votes: seq<VoteRow>, model: string, minVotes: int, threshold: real): (r: BiasCheck)
    ensures NoUser(user) ==> r == BiasCheck(false, 0.0, 0, 0)
    ensures !NoUser(user) ==> r.total == |VotesBy(votes, user.value)|
    ensures !NoUser(user) && r.total < minVotes ==> r == BiasCheck(false, 0.0, 0, r.total)
    ensures !NoUser(user) && r.total >= minVotes ==>
      r.forModel == Wins(VotesBy(votes, user.value), model) && r.forModel <= r.total
      && r.ratio == Share(r.forModel, r.total)
      && (r.biased <==> r.ratio >= threshold)
    ensures 0.0 <= r.ratio <= 1.0
  {
    if NoUser(user) then BiasCheck(false, 0.0, 0, 0)
    else
      var mine := VotesBy(votes, user.value);
      var total := |mine|;
      if total < minVotes then BiasCheck(false, 0.0, 0, total)
      else
        var forModel := Wins(mine, model);
        WinsWithinVotes(mine, model);
        var ratio := Share(forModel, total);
        BiasCheck(ratio >= threshold && total >= minVotes, ratio, forModel, total)
  }

  /** `part / whole if whole > 0 else 0`. */
  function Share(part: nat, whole: nat): (r: real)
    requires part <= whole
    ensures 0.0 <= r <= 1.0
    ensures whole > 0 ==> r * whole as real == part as real
    ensures whole == 0 ==> r == 0.0
  {
    if whole > 0 then part as real / whole as real else 0.0
  }

  /** A model is chosen at most once per vote. */
  lemma {:induction false} WinsWithinVotes(votes: seq<VoteRow>, id: string)
    ensures Wins(votes, id) <= |votes|
    decreases |votes|
  {
    if |votes| > 0 {
      WinsWithinVotes(votes[..|votes| - 1], id);
    }
  }

  // ---------------------------------------------------------------------------
  // detect_rapid_voting

  /** The detector needs this many recent votes and looks at no more. */
  const RapidSample := 50

  /** The vote times of `user`, in table order. */
  function UserTimes(votes: seq<VoteRow>, user: int): (r: seq<int>)
    ensures |r| == |VotesBy(votes, user)|
    decreases |votes|
  {
    if |votes| == 0 then []
    else
      var init := UserTimes(votes[..|votes| - 1], user);
      if votes[|votes| - 1].user == user then init + [votes[|votes| - 1].at] else init
  }

  function TimeKey(t: int): real {
    t as real
  }

  /**
   * `order_by(vote_date.desc()).limit(n)`: the `n` most recent times, newest
   * first, taken from `times` (with their repetitions); every time left out is
   * no later than every time kept.
   */
  function Latest(times: seq<int>, n: nat): (r: seq<int>)
    ensures |r| == if |times| < n then |times| else n
    ensures forall i, j :: 0 <= i < j < |r| ==> r[i] >= r[j]
    ensures multiset(r) <= multiset(times)
    ensures forall t :: t in multiset(times) - multiset(r) ==> forall i :: 0 <= i < |r| ==> t <= r[i]
  {
    var m := if |times| < n then |times| else n;
    LatestSplit(times, m);
    SortDesc(times, TimeKey)[..m]
  }

  /** Cutting the newest-first order: the tail holds the rest of the times, none later than the head's. */
  lemma LatestSplit(times: seq<int>, m: nat)
    requires m <= |times|
    ensures var sorted := SortDesc(times, TimeKey);
      var r := sorted[..m];
      (forall i, j :: 0 <= i < j < |r| ==> r[i] >= r[j])
      && multiset(r) <= multiset(times)
      && forall t :: t in multiset(times) - multiset(r) ==> forall i :: 0 <= i < |r| ==> t <= r[i]
  {
    var sorted := SortDesc(times, TimeKey);
    PrefixOrdered(sorted, m);
    TailOutranked(sorted, m);
  }

  /** A prefix of a newest-first list is newest first. */
  lemma PrefixOrdered(sorted: seq<int>, m: nat)
    requires m <= |sorted| && SortedDesc(sorted, TimeKey)
    ensures forall i, j :: 0 <= i < j < m ==> sorted[..m][i] >= sorted[..m][j]
  {
    forall i, j | 0 <= i < j < m ensures sorted[..m][i] >= sorted[..m][j] {
      assert TimeKey(sorted[i]) >= TimeKey(sorted[j]);
    }
  }

  /** What a cut leaves out of a newest-first list is its tail, no later than the prefix. */
  lemma TailOutranked(sorted: seq<int>, m: nat)
    requires m <= |sorted| && SortedDesc(sorted, TimeKey)
    ensures multiset(sorted[..m]) <= multiset(sorted)
    ensures forall t :: t in multiset(sorted) - multiset(sorted[..m]) ==> forall i :: 0 <= i < m ==> t <= sorted[i]
  {
    assert sorted == sorted[..m] + sorted[m..];
    assert multiset(sorted) - multiset(sorted[..m]) == multiset(sorted[m..]);
    forall t | t in multiset(sorted[m..]) ensures forall i :: 0 <= i < m ==> t <= sorted[i] {
      assert t in sorted[m..];
      var k :| m <= k < |sorted| && sorted[k] == t;
      assert forall i :: 0 <= i < m ==> TimeKey(sorted[i]) >= TimeKey(sorted[k]);
    }
  }

  /** The gaps between consecutive votes, newest first. */
  function Intervals(recent: seq<int>): (r: seq<int>)
    ensures |r| == if |recent| == 0 then 0 else |recent| - 1
    ensures forall i {:trigger r[i]} :: 0 <= i < |r| ==> r[i] == recent[i] - recent[i + 1]
  {
    if |recent| == 0 then [] else seq(|recent| - 1, i requires 0 <= i < |recent| - 1 => recent[i] - recent[i + 1])
  }

  /** `sum(s)`. */
  function Total(s: seq<int>): int
    decreases |s|
  {
    if |s| == 0 then 0 else Total(s[..|s| - 1]) + s[|s| - 1]
  }

  /** The first `n - 1` intervals add up to the time between the first and the `n`-th vote. */
  lemma {:induction false} IntervalsTelescope(recent: seq<int>, n: nat)
    requires 1 <= n <= |recent|
    ensures Total(Intervals(recent)[..n - 1]) == recent[0] - recent[n - 1]
    decreases n
  {
    if n > 1 {
      var iv := Intervals(recent);
      assert iv[..n - 1][..n - 2] == iv[..n - 2];
      IntervalsTelescope(recent, n - 1);
    }
  }

  /**
   * For votes newest first, no interval is negative and the intervals add up
   * to the span from the oldest vote to the newest, the numerator of
   * `avg_interval`.
   */
  lemma IntervalsOfNewestFirst(recent: seq<int>)
    requires forall i, j :: 0 <= i < j < |recent| ==> recent[i] >= recent[j]
    ensures forall i :: 0 <= i < |Intervals(recent)| ==> Intervals(recent)[i] >= 0
    ensures |recent| > 0 ==> Total(Intervals(recent)) == recent[0] - recent[|recent| - 1]
  {
    if |recent| > 0 {
      IntervalsTelescope(recent, |recent|);
      assert Intervals(recent)[..|recent| - 1] == Intervals(recent);
    }
  }

  /** How many of `s` are below `bound`. */
  function CountBelow(s: seq<int>, bound: int): (r: nat)
    ensures r <= |s|
    decreases |s|
  {
    if |s| == 0 then 0
    else CountBelow(s[..|s| - 1], bound) + (if s[|s| - 1] < bound then 1 else 0)
  }

  /** An interval under five seconds. */
  predicate Fast(x: int) {
    x < 5 * MicrosPerSecond
  }

  /** The length of the run of fast intervals at the end of `s`. */
  function TrailingFast(s: seq<int>): (r: nat)
    ensures r <= |s|
    decreases |s|
  {
    if |s| == 0 then 0
    else if Fast(s[|s| - 1]) then TrailingFast(s[..|s| - 1]) + 1
    else 0
  }

  /** The trailing run is at least `k` long exactly when the last `k` intervals are fast. */
  lemma {:induction false} TrailingFastMeans(s: seq<int>, k: nat)
    ensures TrailingFast(s) >= k <==> k <= |s| && forall j :: |s| - k <= j < |s| ==> Fast(s[j])
    decreases |s|
  {
    if |s| > 0 && k > 0 {
      var t := s[..|s| - 1];
      TrailingFastMeans(t, k - 1);
      assert forall j :: 0 <= j < |t| ==> t[j] == s[j];
    }
  }

  /** A run of at least ten fast intervals ends just before the slow interval `e`. */
  predicate EndsSustainedRun(s: seq<int>, e: int) {
    10 <= e < |s| && !Fast(s[e]) && forall j :: e - 10 <= j < e ==> Fast(s[j])
  }

  /** `s` ends with at least ten fast intervals. */
  predicate EndsInSustainedRun(s: seq<int>) {
    |s| >= 10 && forall j :: |s| - 10 <= j < |s| ==> Fast(s[j])
  }

  /** How many positions below `m` end a sustained run. */
  function RunEnds(s: seq<int>, m: nat): nat
    requires m <= |s|
  {
    if m == 0 then 0 else RunEnds(s, m - 1) + (if EndsSustainedRun(s, m - 1) then 1 else 0)
  }

  /**
   * The number of sustained sequences, stated without the loop: every maximal
   * run of at least ten fast intervals counts once, where it ends, whether a
   * slow interval ends it or the sequence does.
   */
  function SustainedRuns(s: seq<int>): nat {
    RunEnds(s, |s|) + (if EndsInSustainedRun(s) then 1 else 0)
  }

  /** The counting loop of `detect_rapid_voting`: the sequences closed so far and the current run's length. */
  function CountRuns(s: seq<int>): (nat, nat)
    decreases |s|
  {
    if |s| == 0 then (0, 0)
    else
      var (closed, current) := CountRuns(s[..|s| - 1]);
      if Fast(s[|s| - 1]) then (closed, current + 1)
      else (if current >= 10 then closed + 1 else closed, 0)
  }

  /** The loop's count after the final check for a run still open at the end. */
  function Sustained(s: seq<int>): nat {
    var (closed, current) := CountRuns(s);
    if current >= 10 then closed + 1 else closed
  }

  lemma {:induction false} RunEndsPrefix(s: seq<int>, t: seq<int>, m: nat)
    requires t <= s && m <= |t|
    ensures RunEnds(t, m) == RunEnds(s, m)
  {
    if m > 0 {
      RunEndsPrefix(s, t, m - 1);
      assert EndsSustainedRun(t, m - 1) <==> EndsSustainedRun(s, m - 1) by {
        assert forall j :: 0 <= j < |t| ==> t[j] == s[j];
      }
    }
  }

  /** The loop keeps exactly the closed sustained runs and the open run's length. */
  lemma {:induction false} CountRunsMeaning(s: seq<int>)
    ensures CountRuns(s) == (RunEnds(s, |s|), TrailingFast(s))
    decreases |s|
  {
    if |s| > 0 {
      var n := |s| - 1;
      var t := s[..n];
      CountRunsMeaning(t);
      RunEndsPrefix(s, t, n);
      if !Fast(s[n]) {
        TrailingFastMeans(t, 10);
        assert forall j :: 0 <= j < |t| ==> t[j] == s[j];
        assert EndsSustainedRun(s, n) <==> TrailingFast(t) >= 10;
      }
    }
  }

  /** The loop counts each maximal run of ten or more fast intervals exactly once. */
  lemma SustainedMeaning(s: seq<int>)
    ensures Sustained(s) == SustainedRuns(s)
  {
    CountRunsMeaning(s);
    TrailingFastMeans(s, 10);
  }

  /** `(is_rapid, intervals)`; the average interval is left out. */
  datatype RapidCheck = RapidCheck(isRapid: bool, intervals: seq<int>)

  /**
   * `detect_rapid_voting` over the user's 50 latest votes: rapid when more
   * than 20% of the gaps are under a second, or more than 60% are under three
   * seconds and some sustained run exists, or there are two sustained runs.
   */
  function DetectRapid(user: Option<int>, votes: seq<VoteRow>): (r: RapidCheck)
    ensures NoUser(user) || |UserTimes(votes, user.value)| < RapidSample ==> r == RapidCheck(false, [])
    ensures !NoUser(user) && |UserTimes(votes, user.value)| >= RapidSample ==>
      var iv := r.intervals;
      |iv| == RapidSample - 1
      && iv == Intervals(Latest(UserTimes(votes, user.value), RapidSample))
      && (forall i :: 0 <= i < |iv| ==> iv[i] >= 0)
      && (r.isRapid <==>
            5 * CountBelow(iv, MicrosPerSecond) > |iv|
            || (5 * CountBelow(iv, 3 * MicrosPerSecond) > 3 * |iv| && SustainedRuns(iv) > 0)
            || SustainedRuns(iv) >= 2)
  {
    if NoUser(user) then RapidCheck(false, [])
    else
      var recent := Latest(UserTimes(votes, user.value), RapidSample);
      if |recent| < RapidSample then RapidCheck(false, [])
      else
        var iv := Intervals(recent);
        SustainedMeaning(iv);
        var n := |iv|;
        var extremely := CountBelow(iv, MicrosPerSecond);
        var very := CountBelow(iv, 3 * MicrosPerSecond);
        var sustained := Sustained(iv);
        RapidCheck(5 * extremely > n || (5 * very > 3 * n && sustained > 0) || sustained >= 2, iv)
  }

  // ---------------------------------------------------------------------------
  // check_user_security_score

  /** What the score reads from the users table; ages in whole days from the clock. */
  datatype Account = Account(joinAgeDays: Option<int>, hfAgeDays: Option<int>)

  function JoinAgePenalty(age: Option<int>): nat {
    if age.None? then 20
    else if age.value < 45 then 30
    else if age.value < 90 then 15
    else if age.value < 180 then 5
    else 0
  }

  function HfAgePenalty(age: Option<int>): nat {
    if age.None? then 15
    else if age.value < 30 then 25
    else if age.value < 90 then 10
    else 0
  }

  /** A week-old account with many votes loses 15 points. */
  function NewAccountPenalty(age: Option<int>, total: nat): nat {
    if age.Some? && age.value < 7 && total > 20 then 15 else 0
  }

  /**
   * The same rule as written: `account_age_days and ...` treats an age of 0
   * as false, and without a join date the variable was never assigned.
   */
  function NewAccountPenaltyAsWritten(age: Option<int>, total: nat): Result<nat, string> {
    if age.None? then Failure("UnboundLocalError: account_age_days")
    else if age.value != 0 && age.value < 7 && total > 20 then Success(15)
    else Success(0)
  }

  /** Appearances and choices of one model among a user's votes. */
  function BiasRatio(votes: seq<VoteRow>, id: string): real {
    if Matches(votes, id) == 0 then 0.0 else Wins(votes, id) as real / Matches(votes, id) as real
  }

  /** A model counts for bias once it appeared in five of the user's votes. */
  predicate Considered(votes: seq<VoteRow>, id: string) {
    Matches(votes, id) >= 5
  }

  /** The models in `votes`, chosen before rejected, each once, in order of first appearance. */
  function ModelsIn(votes: seq<VoteRow>): (r: seq<string>)
    ensures forall id :: id in r <==> exists i :: 0 <= i < |votes| && (votes[i].chosen == id || votes[i].rejected == id)
    decreases |votes|
  {
    if |votes| == 0 then []
    else
      var init := ModelsIn(votes[..|votes| - 1]);
      var v := votes[|votes| - 1];
      assert forall i :: 0 <= i < |votes| - 1 ==> votes[..|votes| - 1][i] == votes[i];
      var withChosen := if v.chosen in init then init else init + [v.chosen];
      if v.rejected in withChosen then withChosen else withChosen + [v.rejected]
  }

  /**
   * The highest bias ratio among the considered models of `ids`, or 0: the
   * loop over `model_stats` that replaces the maximum only on a strictly
   * greater ratio.
   */
  function MaxBias(votes: seq<VoteRow>, ids: seq<string>): (r: real)
    ensures r >= 0.0
    ensures forall id :: id in ids && Considered(votes, id) ==> BiasRatio(votes, id) <= r
    ensures r == 0.0 || exists id :: id in ids && Considered(votes, id) && r == BiasRatio(votes, id)
    decreases |ids|
  {
    if |ids| == 0 then 0.0
    else
      var m := MaxBias(votes, ids[..|ids| - 1]);
      var id := ids[|ids| - 1];
      assert forall x :: x in ids <==> x in ids[..|ids| - 1] || x == id;
      if Considered(votes, id) && BiasRatio(votes, id) > m then BiasRatio(votes, id) else m
  }

  function BiasPenalty(maxBias: real): nat {
    if maxBias >= 0.95 then 30
    else if maxBias >= 0.9 then 20
    else if maxBias >= 0.8 then 10
    else 0
  }

  /** The bias deduction, applied only to users with at least five votes. */
  function UserBiasPenalty(mine: seq<VoteRow>): nat {
    if |mine| >= 5 then BiasPenalty(MaxBias(mine, ModelsIn(mine))) else 0
  }

  /** What `is_vote_allowed` reads from the score's factors. */
  datatype Assessment = Assessment(score: int, suspicious: bool, rapid: bool)

  /** `max(0, score)`. */
  function Clamp(score: int): (r: nat)
    ensures r >= score && (score >= 0 ==> r == score) && (score <= 100 ==> r <= 100)
  {
    if score < 0 then 0 else score
  }

  /** The sum of the deductions, given the new-account one. */
  function DeductionsWith(account: Account, suspicious: bool, rapid: bool, mine: seq<VoteRow>, newAccount: nat): nat {
    JoinAgePenalty(account.joinAgeDays) + HfAgePenalty(account.hfAgeDays)
    + (if suspicious then 25 else 0) + (if rapid then 20 else 0)
    + newAccount + UserBiasPenalty(mine)
  }

  function Deductions(account: Account, suspicious: bool, rapid: bool, mine: seq<VoteRow>): nat {
    DeductionsWith(account, suspicious, rapid, mine, NewAccountPenalty(account.joinAgeDays, |mine|))
  }

  /** 100 minus the deductions, never below 0, given the new-account one. */
  function ScoreWith(account: Account, suspicious: bool, rapid: bool, mine: seq<VoteRow>, newAccount: nat): (r: nat)
    ensures r <= 100
  {
    Clamp(100 - DeductionsWith(account, suspicious, rapid, mine, newAccount))
  }

  function Score(account: Account, suspicious: bool, rapid: bool, mine: seq<VoteRow>): (r: nat)
    ensures r <= 100
  {
    ScoreWith(account, suspicious, rapid, mine, NewAccountPenalty(account.joinAgeDays, |mine|))
  }

  /**
   * `check_user_security_score`, with the new-account rule applying to every
   * account younger than a week: 100 minus the deductions, never below 0.
   * A missing or unknown user scores 0.
   */
  function SecurityScore(user: Option<int>, account: Option<Account>, votes: seq<VoteRow>, now: int): (r: Assessment)
    ensures 0 <= r.score <= 100
    ensures NoUser(user) || account.None? ==> r == Assessment(0, false, false)
    ensures !NoUser(user) && account.Some? ==>
      r.score == Score(account.value, r.suspicious, r.rapid, VotesBy(votes, user.value))
  {
    if NoUser(user) || account.None? then Assessment(0, false, false)
    else
      var suspicious := DetectSuspicious(user, votes, now, DefaultHoursBack, DefaultMaxPerHour).suspicious;
      var rapid := DetectRapid(user, votes).isRapid;
      Assessment(Score(account.value, suspicious, rapid, VotesBy(votes, user.value)), suspicious, rapid)
  }

  /** The flags of a known user's assessment are the two detectors' verdicts, on the default window. */
  lemma SecurityScoreFlags(user: Option<int>, account: Option<Account>, votes: seq<VoteRow>, now: int)
    requires !NoUser(user) && account.Some?
    ensures SecurityScore(user, account, votes, now).suspicious
      == DetectSuspicious(user, votes, now, DefaultHoursBack, DefaultMaxPerHour).suspicious
    ensures SecurityScore(user, account, votes, now).rapid == DetectRapid(user, votes).isRapid
  {
  }

  /** The score as written: the new-account rule as `NewAccountPenaltyAsWritten` has it. */
  function SecurityScoreAsWritten(user: Option<int>, account: Option<Account>, votes: seq<VoteRow>, now: int): (r: Result<Assessment, string>)
    ensures NoUser(user) || account.None? ==> r == Success(Assessment(0, false, false))
    ensures !NoUser(user) && account.Some? ==> (r.Failure? <==> account.value.joinAgeDays.None?)
  {
    if NoUser(user) || account.None? then Success(Assessment(0, false, false))
    else
      var acc := account.value;
      var suspicious := DetectSuspicious(user, votes, now, DefaultHoursBack, DefaultMaxPerHour).suspicious;
      var rapid := DetectRapid(user, votes).isRapid;
      var mine := VotesBy(votes, user.value);
      var newAccount :- NewAccountPenaltyAsWritten(acc.joinAgeDays, |mine|);
      Success(Assessment(ScoreWith(acc, suspicious, rapid, mine, newAccount), suspicious, rapid))
  }

  /** As written, an account created today escapes the new-account deduction. */
  lemma SameDayAccountEscapes()
    ensures NewAccountPenaltyAsWritten(Some(0), 21) == Success(0)
    ensures NewAccountPenalty(Some(0), 21) == 15
  {
  }

  /** As written, a user without a join date makes the score raise instead of deducting 20 points. */
  lemma MissingJoinDateRaises(user: int, hfAge: Option<int>, votes: seq<VoteRow>, now: int)
    requires user != 0
    ensures SecurityScoreAsWritten(Some(user), Some(Account(None, hfAge)), votes, now).Failure?
    ensures SecurityScore(Some(user), Some(Account(None, hfAge)), votes, now).score <= 80
  {
  }

  /** Both versions agree wherever the written one does not misread the age. */
  lemma AsWrittenAgreesElsewhere(user: Option<int>, account: Option<Account>, votes: seq<VoteRow>, now: int)
    requires account.Some? ==> account.value.joinAgeDays.Some? && account.value.joinAgeDays.value != 0
    ensures SecurityScoreAsWritten(user, account, votes, now) == Success(SecurityScore(user, account, votes, now))
  {
    if !NoUser(user) && account.Some? {
      var acc := account.value;
      var mine := VotesBy(votes, user.value);
      assert NewAccountPenaltyAsWritten(acc.joinAgeDays, |mine|) == Success(NewAccountPenalty(acc.joinAgeDays, |mine|));
    }
  }

  /** Every flag and every deduction can only lower the score. */
  lemma ScoreMonotone(account: Account, mine: seq<VoteRow>, s1: bool, r1: bool, s2: bool, r2: bool)
    requires (s1 ==> s2) && (r1 ==> r2)
    ensures Score(account, s2, r2, mine) <= Score(account, s1, r1, mine)
  {
  }

  /** A higher bias ratio never earns a smaller deduction. */
  lemma BiasPenaltyMonotone(a: real, b: real)
    requires a <= b
    ensures BiasPenalty(a) <= BiasPenalty(b)
  {
  }

  // ---------------------------------------------------------------------------
  // is_vote_allowed

  datatype Denial = NotAuthenticated | Suspended | ScoreTooLow | SuspiciousPattern | TooRapid

  /** `(allowed, reason, security_score)`. */
  datatype Gate = Allowed(score: int) | Denied(why: Denial, score: int)

  /** A row of the timeouts table. */
  datatype TimeoutRow = TimeoutRow(user: int, active: bool, expiresAt: int, reason: string)

  /** `check_user_timeout`: an active timeout of this user that has not expired. */
  predicate TimedOut(timeouts: seq<TimeoutRow>, user: int, now: int) {
    exists i :: 0 <= i < |timeouts| && timeouts[i].user == user && timeouts[i].active && timeouts[i].expiresAt > now
  }

  /**
   * `is_vote_allowed`. `timeoutLookup` is `check_user_timeout`'s outcome: an
   * answer, or the exception that the gate logs and ignores.
   */
  function VoteAllowed(user: Option<int>, timeoutLookup: Result<bool, string>, account: Option<Account>,
                       votes: seq<VoteRow>, now: int): (g: Gate)
    ensures NoUser(user) ==> g == Denied(NotAuthenticated, 0)
    ensures !NoUser(user) && timeoutLookup == Success(true) ==> g == Denied(Suspended, 0)
    ensures !NoUser(user) && timeoutLookup != Success(true) ==>
      var a := SecurityScore(user, account, votes, now);
      g.score == a.score
      && (a.score < 20 ==> g.Denied? && g.why == ScoreTooLow)
      && (a.score >= 20 && a.suspicious ==> g.Denied? && g.why == SuspiciousPattern)
      && (a.score >= 20 && !a.suspicious && a.rapid ==> g.Denied? && g.why == TooRapid)
      && (g.Allowed? <==> a.score >= 20 && !a.suspicious && !a.rapid)
  {
    if NoUser(user) then Denied(NotAuthenticated, 0)
    else if timeoutLookup == Success(true) then Denied(Suspended, 0)
    else GateOn(SecurityScore(user, account, votes, now))
  }

  /** The checks after the timeout one: the score threshold, then the two flags. */
  function GateOn(a: Assessment): Gate {
    if a.score < 20 then Denied(ScoreTooLow, a.score)
    else if a.suspicious then Denied(SuspiciousPattern, a.score)
    else if a.rapid then Denied(TooRapid, a.score)
    else Allowed(a.score)
  }

  /**
   * `is_vote_allowed` on the score as written: the score is computed outside
   * the gate's `try`, so a known user without a join date makes the whole
   * request fail instead of getting an answer.
   */
  function VoteAllowedAsWritten(user: Option<int>, timeoutLookup: Result<bool, string>, account: Option<Account>,
                                votes: seq<VoteRow>, now: int): (r: Result<Gate, string>)
    ensures NoUser(user) ==> r == Success(Denied(NotAuthenticated, 0))
    ensures !NoUser(user) && timeoutLookup == Success(true) ==> r == Success(Denied(Suspended, 0))
    ensures !NoUser(user) && timeoutLookup != Success(true) ==>
      (r.Failure? <==> account.Some? && account.value.joinAgeDays.None?)
  {
    if NoUser(user) then Success(Denied(NotAuthenticated, 0))
    else if timeoutLookup == Success(true) then Success(Denied(Suspended, 0))
    else
      var a :- SecurityScoreAsWritten(user, account, votes, now);
      Success(GateOn(a))
  }

  /** The two gates agree wherever the written score does not misread the account age. */
  lemma VoteAllowedAsWrittenAgrees(user: Option<int>, timeoutLookup: Result<bool, string>, account: Option<Account>,
                                   votes: seq<VoteRow>, now: int)
    requires account.Some? ==> account.value.joinAgeDays.Some? && account.value.joinAgeDays.value != 0
    ensures VoteAllowedAsWritten(user, timeoutLookup, account, votes, now) == Success(VoteAllowed(user, timeoutLookup, account, votes, now))
  {
    AsWrittenAgreesElsewhere(user, account, votes, now);
  }

  /** An accepted vote comes from a known, untimed-out user scoring at least 20 with no flag raised. */
  lemma AllowedMeans(user: Option<int>, timeouts: seq<TimeoutRow>, account: Option<Account>, votes: seq<VoteRow>, now: int)
    requires !NoUser(user)
    ensures var g := VoteAllowed(user, Success(TimedOut(timeouts, user.value, now)), account, votes, now);
      g.Allowed? ==>
        !TimedOut(timeouts, user.value, now) && account.Some? && g.score >= 20
        && !DetectSuspicious(user, votes, now, DefaultHoursBack, DefaultMaxPerHour).suspicious
        && !DetectRapid(user, votes).isRapid
  {
  }
}
