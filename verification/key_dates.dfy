/**
 * `get_key_historical_dates` (`models.py`): the first of every month from
 * the first vote's month up to the last vote, for the historical leaderboard.
 *
 * Datetimes are naive and compared field by field, as Python compares them;
 * the time of day is a count of microseconds.
 */
module KeyDates {

  datatype DateTime = DateTime(year: int, month: int, day: int, micros: nat)

  predicate Valid(d: DateTime) {
    1 <= d.month <= 12 && 1 <= d.day <= 31
  }

  /** Python's datetime order: year, month, day, then time of day. */
  predicate Le(a: DateTime, b: DateTime) {
    a.year < b.year
    || (a.year == b.year && (a.month < b.month
    || (a.month == b.month && (a.day < b.day
    || (a.day == b.day && a.micros <= b.micros)))))
  }

  /** Months counted from January of year 0. */
  function MonthIndex(d: DateTime): int {
    d.year * 12 + d.month - 1
  }

  /** The first of month number `idx`, at time of day `micros`. */
  function MonthStart(idx: int, micros: nat): (d: DateTime)
    ensures Valid(d) && d.day == 1 && d.micros == micros && MonthIndex(d) == idx
  {
    DateTime(idx / 12, idx % 12 + 1, 1, micros)
  }

  /** Two valid dates lie in the same month exactly when their month numbers agree. */
  lemma SameMonth(a: DateTime, b: DateTime)
    requires Valid(a) && Valid(b)
    ensures MonthIndex(a) == MonthIndex(b) <==> a.year == b.year && a.month == b.month
    ensures MonthIndex(a) < MonthIndex(b) <==> a.year < b.year || (a.year == b.year && a.month < b.month)
  {
    if a.year < b.year {
      assert MonthIndex(a) <= a.year * 12 + 11 < (a.year + 1) * 12 <= MonthIndex(b);
    } else if b.year < a.year {
      assert MonthIndex(b) <= b.year * 12 + 11 < (b.year + 1) * 12 <= MonthIndex(a);
    }
  }

  /** A valid first of the month is the `MonthStart` of its own month. */
  lemma IsMonthStart(d: DateTime)
    requires Valid(d) && d.day == 1
    ensures d == MonthStart(MonthIndex(d), d.micros)
  {
    SameMonth(d, MonthStart(MonthIndex(d), d.micros));
  }

  /** The datetime order compares the month first, then day and time within it. */
  lemma LeByMonth(a: DateTime, b: DateTime)
    requires Valid(a) && Valid(b)
    ensures Le(a, b) <==>
      MonthIndex(a) < MonthIndex(b)
      || (MonthIndex(a) == MonthIndex(b) && (a.day < b.day || (a.day == b.day && a.micros <= b.micros)))
  {
    SameMonth(a, b);
  }

  /** The loop's step: `replace(year=year + 1, month=1)` in December, else `replace(month=month + 1)`. */
  function NextMonth(d: DateTime): (r: DateTime)
    requires Valid(d) && d.day == 1
    ensures Valid(r) && r.day == 1 && r.micros == d.micros && MonthIndex(r) == MonthIndex(d) + 1
  {
    if d.month == 12 then d.(year := d.year + 1, month := 1) else d.(month := d.month + 1)
  }

  predicate AllValid(s: seq<DateTime>) {
    forall i :: 0 <= i < |s| ==> Valid(s[i])
  }

  /** The first vote by date. */
  function Earliest(s: seq<DateTime>): (r: DateTime)
    requires |s| > 0 && AllValid(s)
    ensures Valid(r) && r in s && forall i :: 0 <= i < |s| ==> Le(r, s[i])
    decreases |s|
  {
    if |s| == 1 then s[0]
    else
      var m := Earliest(s[..|s| - 1]);
      assert forall i :: 0 <= i < |s| - 1 ==> s[..|s| - 1][i] == s[i];
      if Le(m, s[|s| - 1]) then m else s[|s| - 1]
  }

  /** The last vote by date. */
  function Latest(s: seq<DateTime>): (r: DateTime)
    requires |s| > 0 && AllValid(s)
    ensures Valid(r) && r in s && forall i :: 0 <= i < |s| ==> Le(s[i], r)
    decreases |s|
  {
    if |s| == 1 then s[0]
    else
      var m := Latest(s[..|s| - 1]);
      assert forall i :: 0 <= i < |s| - 1 ==> s[..|s| - 1][i] == s[i];
      if Le(s[|s| - 1], m) then m else s[|s| - 1]
  }

  /**
   * The month-stepping loop stops one month early exactly when the last vote
   * falls on the first of its month at an earlier time of day than the first
   * vote; then the last vote itself is appended instead.
   */
  predicate StopsEarly(first: DateTime, last: DateTime) {
    last.day == 1 && last.micros < first.micros
  }

  /**
   * With `n` the number of months from `first`'s month to `last`'s, `dates`
   * is the first of each of those `n` months (at `first`'s time of day) and
   * then one date in `last`'s month: its first, or `last` itself when the
   * loop stops early.
   */
  predicate Monthly(first: DateTime, last: DateTime, dates: seq<DateTime>) {
    var n := MonthIndex(last) - MonthIndex(first);
    n >= 0 && |dates| == n + 1
    && (forall j :: 0 <= j < n ==> dates[j] == MonthStart(MonthIndex(first) + j, first.micros))
    && dates[n] == (if StopsEarly(first, last) then last else MonthStart(MonthIndex(last), first.micros))
  }

  /**
   * `get_key_historical_dates` over the vote dates of one model type. With
   * `n` the number of months from the first vote's month to the last vote's,
   * the result is the first of each of those `n` months (at the first vote's
   * time of day) and then one date in the last vote's month: its first, or
   * the last vote itself when the loop stopped early.
   */
  method KeyDates(votes: seq<DateTime>) returns (dates: seq<DateTime>)
    requires AllValid(votes)
    ensures |votes| == 0 ==> dates == []
    ensures |votes| > 0 ==> Monthly(Earliest(votes), Latest(votes), dates)
  {
    if |votes| == 0 {
      return [];
    }
    var first, last := Earliest(votes), Latest(votes);
    Start(votes);
    var current := first.(day := 1);
    dates := [];
    while Le(current, last)
      invariant Stepping(first, last, current, dates)
      decreases MonthIndex(last) + 1 - MonthIndex(current)
    {
      Step(first, last, current, dates);
      dates := dates + [current];
      current := NextMonth(current);
    }
    Finished(first, last, current, dates);
    dates := Close(dates, last);
  }

  /**
   * The check after the loop, `key_dates and key_dates[-1].month != end.month
   * or key_dates[-1].year != end.year`: the last vote is appended when the
   * loop's final date lies in another month.
   */
  function Close(dates: seq<DateTime>, last: DateTime): seq<DateTime>
    requires |dates| > 0
  {
    if (|dates| > 0 && dates[|dates| - 1].month != last.month) || dates[|dates| - 1].year != last.year then
      dates + [last]
    else dates
  }

  /**
   * The loop's state: `current` is the first of a month from the first
   * vote's month to the one after the last vote's, at the first vote's time
   * of day, and `dates` holds the firsts of the months before it.
   */
  predicate Stepping(first: DateTime, last: DateTime, current: DateTime, dates: seq<DateTime>) {
    Valid(first) && Valid(last) && Le(first, last)
    && Valid(current) && current.day == 1 && current.micros == first.micros
    && MonthIndex(first) <= MonthIndex(current) <= MonthIndex(last) + 1
    && |dates| == MonthIndex(current) - MonthIndex(first)
    && (forall j :: 0 <= j < |dates| ==> dates[j] == MonthStart(MonthIndex(first) + j, first.micros))
    && (|dates| > 0 ==> Le(dates[|dates| - 1], last))
  }

  /** The loop starts from the first of the first vote's month, with no dates. */
  lemma Start(votes: seq<DateTime>)
    requires |votes| > 0 && AllValid(votes)
    ensures var first := Earliest(votes);
      Stepping(first, Latest(votes), first.(day := 1), [])
  {
    var first, last := Earliest(votes), Latest(votes);
    assert Le(first, last) by {
      var i :| 0 <= i < |votes| && votes[i] == first;
    }
    LeByMonth(first, last);
  }

  /** One turn of the loop keeps its state. */
  lemma Step(first: DateTime, last: DateTime, current: DateTime, dates: seq<DateTime>)
    requires Stepping(first, last, current, dates) && Le(current, last)
    ensures Stepping(first, last, NextMonth(current), dates + [current])
  {
    LeByMonth(current, last);
    IsMonthStart(current);
  }

  /** When the loop stops, closing its dates gives one date per month up to the last vote's. */
  lemma Finished(first: DateTime, last: DateTime, current: DateTime, dates: seq<DateTime>)
    requires Stepping(first, last, current, dates) && !Le(current, last)
    ensures |dates| > 0
    ensures Monthly(first, last, Close(dates, last))
  {
    LeByMonth(first, last);
    LeByMonth(current, last);
    assert |dates| > 0;
    var tail := dates[|dates| - 1];
    SameMonth(tail, last);
    LeByMonth(tail, last);
  }
}
