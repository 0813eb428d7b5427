/**
 * The two leaderboards of the TTS arena (`models.py`): the public one, which
 * ranks models that passed the vote threshold by Elo and assigns tiers, and a
 * user's personal one, which counts that user's own votes.
 */
module Leaderboard {
  import opened Wrappers
  import opened Sorting
  import opened ArenaModels

  /** A row of the models table: its primary key and its columns. */
  datatype Listed = Listed(id: string, model: ArenaModel)

  /** Only models with more counted matches than this reach the public board. */
  const PublicThreshold := 250

  /** Python's `int(x)` on a float: truncation toward zero. */
  function TruncToInt(x: real): (r: int)
    ensures 0.0 <= x ==> r as real <= x < r as real + 1.0
    ensures x < 0.0 ==> r as real - 1.0 < x <= r as real
  {
    if x >= 0.0 then x.Floor else -((-x).Floor)
  }

  /** Truncation keeps the order of its arguments. */
  lemma TruncMonotone(x: real, y: real)
    requires x <= y
    ensures TruncToInt(x) <= TruncToInt(y)
  {
  }

  function Tier(rank: nat): string {
    if rank <= 2 then "tier-s"
    else if rank <= 4 then "tier-a"
    else if rank <= 7 then "tier-b"
    else ""
  }

  // ---------------------------------------------------------------------------
  // The public board

  datatype BoardRow = BoardRow(rank: nat, id: string, name: string, totalVotes: nat, elo: int, tier: string)

  predicate OnPublicBoard(l: Listed, modelType: string) {
    l.model.modelType == modelType && l.model.matches > PublicThreshold
  }

  /** The query's filter: the models of this type past the threshold, in table order. */
  function Eligible(models: seq<Listed>, modelType: string): (r: seq<Listed>)
    ensures |r| <= |models|
    ensures forall l :: l in r <==> l in models && OnPublicBoard(l, modelType)
    decreases |models|
  {
    if |models| == 0 then []
    else
      var rest := Eligible(models[1..], modelType);
      assert forall l :: l in models <==> l == models[0] || l in models[1..];
      if OnPublicBoard(models[0], modelType) then [models[0]] + rest else rest
  }

  function EloOf(l: Listed): real {
    l.model.elo
  }

  function PublicRow(rank: nat, l: Listed): BoardRow {
    BoardRow(rank, l.id, l.model.name, l.model.matches, TruncToInt(l.model.elo), Tier(rank))
  }

  /**
   * `get_leaderboard_data`: the eligible models by Elo, highest first, ranked
   * from 1, with tiers by rank.
   */
  function PublicBoard(models: seq<Listed>, modelType: string): (r: seq<BoardRow>)
    ensures |r| == |Eligible(models, modelType)|
    ensures forall i :: 0 <= i < |r| ==> r[i].rank == i + 1 && r[i].totalVotes > PublicThreshold
  {
    var eligible := Eligible(models, modelType);
    var sorted := SortDesc(eligible, EloOf);
    SortDescElements(eligible, EloOf);
    assert forall i :: 0 <= i < |sorted| ==> sorted[i] in eligible;
    Ranked(sorted)
  }

  /** The models in the given order, ranked from 1. */
  function Ranked(sorted: seq<Listed>): (r: seq<BoardRow>)
    ensures |r| == |sorted| && forall i :: 0 <= i < |r| ==> r[i] == PublicRow(i + 1, sorted[i])
  {
    seq(|sorted|, i requires 0 <= i < |sorted| => PublicRow(i + 1, sorted[i]))
  }

  /** The board lists the higher (truncated) Elo first. */
  lemma PublicBoardOrdered(models: seq<Listed>, modelType: string)
    ensures var r := PublicBoard(models, modelType);
      forall i, j :: 0 <= i < j < |r| ==> r[i].elo >= r[j].elo
  {
    var sorted := SortDesc(Eligible(models, modelType), EloOf);
    var r := PublicBoard(models, modelType);
    forall i, j | 0 <= i < j < |r| ensures r[i].elo >= r[j].elo {
      assert EloOf(sorted[j]) <= EloOf(sorted[i]);
      TruncMonotone(EloOf(sorted[j]), EloOf(sorted[i]));
    }
  }

  /** Ranks 1-2 are tier S, 3-4 tier A, 5-7 tier B, and the rest have no tier. */
  lemma PublicBoardTiers(models: seq<Listed>, modelType: string)
    ensures var r := PublicBoard(models, modelType);
      forall i :: 0 <= i < |r| ==>
        (r[i].tier == "tier-s" <==> i < 2)
        && (r[i].tier == "tier-a" <==> 2 <= i < 4)
        && (r[i].tier == "tier-b" <==> 4 <= i < 7)
        && (r[i].tier == "" <==> 7 <= i)
  {
  }

  /** Row `i` of the board is the `i`-th model of the Elo order. */
  lemma PublicBoardAt(models: seq<Listed>, modelType: string, i: nat)
    requires i < |PublicBoard(models, modelType)|
    ensures var sorted := SortDesc(Eligible(models, modelType), EloOf);
      i < |sorted| && PublicBoard(models, modelType)[i] == PublicRow(i + 1, sorted[i])
  {
  }

  /** Every row is a model of this type past the threshold, shown with its own truncated Elo. */
  lemma PublicBoardSound(models: seq<Listed>, modelType: string)
    ensures var r := PublicBoard(models, modelType);
      forall i :: 0 <= i < |r| ==>
        exists l :: l in models && OnPublicBoard(l, modelType) && l.id == r[i].id && r[i].elo == TruncToInt(l.model.elo)
  {
    var eligible := Eligible(models, modelType);
    var sorted := SortDesc(eligible, EloOf);
    var r := PublicBoard(models, modelType);
    SortDescElements(eligible, EloOf);
    forall i | 0 <= i < |r|
      ensures exists l :: l in models && OnPublicBoard(l, modelType) && l.id == r[i].id && r[i].elo == TruncToInt(l.model.elo)
    {
      var l := sorted[i];
      assert l in eligible && r[i] == PublicRow(i + 1, l);
    }
  }

  /** Every model of this type past the threshold has a row. */
  lemma PublicBoardComplete(models: seq<Listed>, modelType: string)
    ensures var r := PublicBoard(models, modelType);
      forall l :: l in models && OnPublicBoard(l, modelType) ==> exists i :: 0 <= i < |r| && r[i].id == l.id
  {
    var eligible := Eligible(models, modelType);
    var sorted := SortDesc(eligible, EloOf);
    var r := PublicBoard(models, modelType);
    SortDescElements(eligible, EloOf);
    forall l | l in models && OnPublicBoard(l, modelType) ensures exists i :: 0 <= i < |r| && r[i].id == l.id {
      assert l in sorted;
      var i :| 0 <= i < |sorted| && sorted[i] == l;
      assert r[i] == PublicRow(i + 1, l);
    }
  }

  // ---------------------------------------------------------------------------
  // A user's own board

  /** No vote in `votes` is by another user or about another model type. */
  predicate ByUser(votes: seq<VoteRow>, user: int, modelType: string) {
    forall i :: 0 <= i < |votes| ==> votes[i].user == user && votes[i].modelType == modelType
  }

  /** The user's votes of this type, in table order. */
  function VotesOf(votes: seq<VoteRow>, user: int, modelType: string): (r: seq<VoteRow>)
    ensures ByUser(r, user, modelType)
    ensures forall v :: v in r <==> v in votes && v.user == user && v.modelType == modelType
    decreases |votes|
  {
    if |votes| == 0 then []
    else
      var init := VotesOf(votes[..|votes| - 1], user, modelType);
      var last := votes[|votes| - 1];
      assert votes == votes[..|votes| - 1] + [last];
      if last.user == user && last.modelType == modelType then init + [last] else init
  }

  const UnknownModel := "KeyError: a vote names a model that is not of this type"

  /** Some vote names a model that is not in `ids`. */
  predicate NamesUnknown(votes: seq<VoteRow>, ids: set<string>) {
    exists i :: 0 <= i < |votes| && (votes[i].chosen !in ids || votes[i].rejected !in ids)
  }

  /**
   * The tally loop of `get_user_leaderboard`: a `(wins, matches)` pair per
   * known model, updated vote by vote; a vote that names an unknown model
   * raises.
   */
  method Tally(ids: set<string>, votes: seq<VoteRow>) returns (r: Result<map<string, (nat, nat)>, string>)
    ensures r.Failure? <==> NamesUnknown(votes, ids)
    ensures r.Success? ==> r.value.Keys == ids
    ensures r.Success? ==> forall id :: id in ids ==> r.value[id] == (Wins(votes, id), Matches(votes, id))
  {
    var stats: map<string, (nat, nat)> := map id | id in ids :: (0, 0);
    var i := 0;
    while i < |votes|
      invariant 0 <= i <= |votes|
      invariant stats.Keys == ids
      invariant !NamesUnknown(votes[..i], ids)
      invariant Tallies(stats, votes[..i], ids)
    {
      var v := votes[i];
      if v.chosen !in stats || v.rejected !in stats {
        return Failure(UnknownModel);
      }
      TallyStep(stats, votes, i, ids);
      stats := Count(stats, v);
      i := i + 1;
    }
    assert votes[..i] == votes;
    return Success(stats);
  }

  /** The two dictionary updates for one vote: a win and a match for the chosen model, then a match for the rejected one. */
  function Count(stats: map<string, (nat, nat)>, v: VoteRow): map<string, (nat, nat)>
    requires v.chosen in stats && v.rejected in stats
  {
    var s := stats[v.chosen := (stats[v.chosen].0 + 1, stats[v.chosen].1 + 1)];
    s[v.rejected := (s[v.rejected].0, s[v.rejected].1 + 1)]
  }

  /** `stats` holds the wins and matches in `votes` of every model of `ids`. */
  predicate Tallies(stats: map<string, (nat, nat)>, votes: seq<VoteRow>, ids: set<string>) {
    stats.Keys == ids && forall id :: id in ids ==> stats[id] == (Wins(votes, id), Matches(votes, id))
  }

  /** Counting vote `i` into the tally of the votes before it gives the tally of the votes up to it. */
  lemma TallyStep(stats: map<string, (nat, nat)>, votes: seq<VoteRow>, i: nat, ids: set<string>)
    requires i < |votes| && votes[i].chosen in ids && votes[i].rejected in ids
    requires Tallies(stats, votes[..i], ids) && !NamesUnknown(votes[..i], ids)
    ensures Tallies(Count(stats, votes[i]), votes[..i + 1], ids) && !NamesUnknown(votes[..i + 1], ids)
  {
    assert votes[..i + 1][..i] == votes[..i];
    forall id | id in ids ensures Count(stats, votes[i])[id] == (Wins(votes[..i + 1], id), Matches(votes[..i + 1], id)) {
      assert Wins(votes[..i + 1], id) == Wins(votes[..i], id) + (if votes[i].chosen == id then 1 else 0);
      assert Losses(votes[..i + 1], id) == Losses(votes[..i], id) + (if votes[i].rejected == id then 1 else 0);
    }
    var upTo := votes[..i + 1];
    forall k | 0 <= k < |upTo| ensures upTo[k].chosen in ids && upTo[k].rejected in ids {
      if k < i {
        assert upTo[k] == votes[..i][k];
      }
    }
  }

  /** A personal row; `percent` is the rounded win rate the sort compares. */
  datatype UserRow = UserRow(rank: nat, id: string, name: string, wins: nat, matches: nat, percent: int)

  function PercentOf(row: UserRow): real {
    row.percent as real
  }

  /** Every model of this type has a tally. */
  predicate Tallied(models: seq<Listed>, modelType: string, stats: map<string, (nat, nat)>) {
    forall k :: 0 <= k < |models| && models[k].model.modelType == modelType ==> models[k].id in stats
  }

  /** `wins / matches * 100`, as shown by `display`. */
  function WinRate(wins: nat, matches: nat, display: real -> int): int
    requires matches > 0
  {
    display(wins as real / matches as real * 100.0)
  }

  /**
   * A row shows its model's tally; `display` is the `:.0f` rendering of the
   * win rate in percent, read back as a number.
   */
  predicate ShowsTally(row: UserRow, stats: map<string, (nat, nat)>, display: real -> int) {
    row.id in stats && row.wins == stats[row.id].0 && row.matches == stats[row.id].1 && row.matches > 0
    && row.percent == WinRate(row.wins, row.matches, display)
  }

  /** The rows before ranking: the models of this type the user voted on, in table order. */
  function Unranked(models: seq<Listed>, modelType: string, stats: map<string, (nat, nat)>, display: real -> int): (r: seq<UserRow>)
    requires Tallied(models, modelType, stats)
    ensures |r| <= |models|
    ensures forall i :: 0 <= i < |r| ==> ShowsTally(r[i], stats, display)
    decreases |models|
  {
    if |models| == 0 then []
    else
      var n := |models| - 1;
      var init := Unranked(models[..n], modelType, stats, display);
      var l := models[n];
      if l.model.modelType == modelType && stats[l.id].1 > 0 then
        var (w, m) := stats[l.id];
        init + [UserRow(0, l.id, l.model.name, w, m, WinRate(w, m, display))]
      else init
  }

  function IdsOfType(models: seq<Listed>, modelType: string): set<string> {
    set l | l in models && l.model.modelType == modelType :: l.id
  }

  /** Every row is for a model of this type in `models`. */
  predicate RowsFromModels(r: seq<UserRow>, models: seq<Listed>, modelType: string) {
    forall i :: 0 <= i < |r| ==> r[i].id in IdsOfType(models, modelType)
  }

  /** Every model of this type with at least one tallied match has a row. */
  predicate ModelsHaveRows(r: seq<UserRow>, models: seq<Listed>, modelType: string, stats: map<string, (nat, nat)>)
    requires Tallied(models, modelType, stats)
  {
    forall k :: 0 <= k < |models| && models[k].model.modelType == modelType && stats[models[k].id].1 > 0 ==>
      exists i :: 0 <= i < |r| && r[i].id == models[k].id
  }

  /** The unranked rows are exactly the models of this type with at least one match. */
  lemma {:induction false} UnrankedMembers(models: seq<Listed>, modelType: string, stats: map<string, (nat, nat)>, display: real -> int)
    requires Tallied(models, modelType, stats)
    ensures RowsFromModels(Unranked(models, modelType, stats, display), models, modelType)
    ensures ModelsHaveRows(Unranked(models, modelType, stats, display), models, modelType, stats)
    decreases |models|
  {
    if |models| > 0 {
      var n := |models| - 1;
      var init := Unranked(models[..n], modelType, stats, display);
      var r := Unranked(models, modelType, stats, display);
      UnrankedMembers(models[..n], modelType, stats, display);
      assert forall i :: 0 <= i < |init| ==> r[i] == init[i];
      assert IdsOfType(models[..n], modelType) <= IdsOfType(models, modelType) by {
        forall l | l in models[..n] ensures l in models {
        }
      }
      forall i | 0 <= i < |r| ensures r[i].id in IdsOfType(models, modelType) {
        if i == |init| {
          assert models[n] in models;
        }
      }
      forall k | 0 <= k < |models| && models[k].model.modelType == modelType && stats[models[k].id].1 > 0
        ensures exists i :: 0 <= i < |r| && r[i].id == models[k].id
      {
        if k < n {
          assert models[..n][k] == models[k];
          var i :| 0 <= i < |init| && init[i].id == models[..n][k].id;
          assert r[i].id == models[k].id;
        } else {
          assert r[|init|].id == models[k].id;
        }
      }
    }
  }

  /** Wins never exceed matches. */
  lemma WinsWithinOwnMatches(votes: seq<VoteRow>, id: string)
    ensures Wins(votes, id) <= Matches(votes, id)
  {
  }

  /** Ranking: the sorted rows with ranks 1, 2, ... */
  function Rank(sorted: seq<UserRow>): (r: seq<UserRow>)
    ensures |r| == |sorted|
    ensures forall i :: 0 <= i < |r| ==> r[i] == sorted[i].(rank := i + 1)
  {
    seq(|sorted|, i requires 0 <= i < |sorted| => sorted[i].(rank := i + 1))
  }

  /**
   * Ranking only numbers the rows: each ranked row is its sorted row up to the
   * rank, and the ranks used are exactly 1 to the number of rows.
   */
  lemma RankNumbers(sorted: seq<UserRow>)
    ensures var r := Rank(sorted);
      (forall i :: 0 <= i < |r| ==> r[i].(rank := sorted[i].rank) == sorted[i])
      && forall k :: k in RanksOf(r) <==> 1 <= k <= |r|
  {
    var r := Rank(sorted);
    forall k | 1 <= k <= |r| ensures k in RanksOf(r) {
      assert r[k - 1].rank == k;
    }
  }

  /** The ranks a table shows. */
  ghost function RanksOf(r: seq<UserRow>): set<int>
  {
    set i | 0 <= i < |r| :: r[i].rank
  }

  /** The rows for a finished tally: sorted by displayed win rate, highest first, then ranked. */
  function Board(models: seq<Listed>, modelType: string, stats: map<string, (nat, nat)>, display: real -> int): (r: seq<UserRow>)
    requires Tallied(models, modelType, stats)
    ensures |r| <= |models|
  {
    Rank(SortDesc(Unranked(models, modelType, stats, display), PercentOf))
  }

  /** Each ranked row shows the tally of a model of this type, with its place as rank. */
  lemma BoardRows(models: seq<Listed>, modelType: string, stats: map<string, (nat, nat)>, display: real -> int)
    requires Tallied(models, modelType, stats)
    ensures var b := Board(models, modelType, stats, display);
      forall i :: 0 <= i < |b| ==> b[i].rank == i + 1 && ShowsTally(b[i], stats, display) && b[i].id in IdsOfType(models, modelType)
  {
    var ids := IdsOfType(models, modelType);
    var rows := Unranked(models, modelType, stats, display);
    UnrankedMembers(models, modelType, stats, display);
    var sorted := SortDesc(rows, PercentOf);
    SortDescElements(rows, PercentOf);
    var b := Board(models, modelType, stats, display);
    forall i | 0 <= i < |b| ensures b[i].rank == i + 1 && ShowsTally(b[i], stats, display) && b[i].id in ids {
      assert sorted[i] in rows;
      RankedShowsTally(sorted[i], i + 1, stats, display);
    }
  }

  /** Giving a row its rank keeps the tally it shows. */
  lemma RankedShowsTally(row: UserRow, rank: nat, stats: map<string, (nat, nat)>, display: real -> int)
    requires ShowsTally(row, stats, display)
    ensures ShowsTally(row.(rank := rank), stats, display)
  {
  }

  /** The ranked rows are in order of displayed win rate. */
  lemma BoardOrdered(models: seq<Listed>, modelType: string, stats: map<string, (nat, nat)>, display: real -> int)
    requires Tallied(models, modelType, stats)
    ensures var b := Board(models, modelType, stats, display);
      forall i, j :: 0 <= i < j < |b| ==> b[i].percent >= b[j].percent
  {
    var sorted := SortDesc(Unranked(models, modelType, stats, display), PercentOf);
    forall i, j | 0 <= i < j < |sorted| ensures sorted[i].percent >= sorted[j].percent {
      assert PercentOf(sorted[i]) >= PercentOf(sorted[j]);
    }
  }

  /** Every model of this type with a tallied match has a ranked row. */
  lemma BoardComplete(models: seq<Listed>, modelType: string, stats: map<string, (nat, nat)>, display: real -> int)
    requires Tallied(models, modelType, stats)
    ensures ModelsHaveRows(Board(models, modelType, stats, display), models, modelType, stats)
  {
    var rows := Unranked(models, modelType, stats, display);
    UnrankedMembers(models, modelType, stats, display);
    var sorted := SortDesc(rows, PercentOf);
    SortDescElements(rows, PercentOf);
    var b := Board(models, modelType, stats, display);
    forall k | 0 <= k < |models| && models[k].model.modelType == modelType && stats[models[k].id].1 > 0
      ensures exists i :: 0 <= i < |b| && b[i].id == models[k].id
    {
      var i :| 0 <= i < |rows| && rows[i].id == models[k].id;
      assert rows[i] in sorted;
      var j :| 0 <= j < |sorted| && sorted[j] == rows[i];
      assert b[j].id == models[k].id;
    }
  }

  /**
   * `get_user_leaderboard`: the user's rows sorted by displayed win rate,
   * highest first (equal rates keep table order), ranked from 1.
   */
  method UserBoard(models: seq<Listed>, modelType: string, allVotes: seq<VoteRow>, user: int, display: real -> int)
    returns (r: Result<seq<UserRow>, string>)
    ensures r.Failure? <==> NamesUnknown(VotesOf(allVotes, user, modelType), IdsOfType(models, modelType))
    ensures r.Success? ==>
      |r.value| <= |models| && forall i :: 0 <= i < |r.value| ==> r.value[i].rank == i + 1
    ensures r.Success? ==> var votes := VotesOf(allVotes, user, modelType);
      forall i :: 0 <= i < |r.value| ==>
        r.value[i].id in IdsOfType(models, modelType)
        && 0 < r.value[i].matches && r.value[i].wins <= r.value[i].matches
        && r.value[i].wins == Wins(votes, r.value[i].id) && r.value[i].matches == Matches(votes, r.value[i].id)
        && r.value[i].percent == WinRate(r.value[i].wins, r.value[i].matches, display)
    ensures r.Success? ==> forall i, j :: 0 <= i < j < |r.value| ==> r.value[i].percent >= r.value[j].percent
    ensures r.Success? ==> var votes := VotesOf(allVotes, user, modelType);
      forall k :: 0 <= k < |models| && models[k].model.modelType == modelType && Matches(votes, models[k].id) > 0 ==>
        exists i :: 0 <= i < |r.value| && r.value[i].id == models[k].id
  {
    var votes := VotesOf(allVotes, user, modelType);
    var ids := IdsOfType(models, modelType);
    var tally := Tally(ids, votes);
    if tally.Failure? {
      return Failure(tally.error);
    }
    var stats := tally.value;
    BoardOfTally(models, modelType, votes, stats, display);
    return Success(Board(models, modelType, stats, display));
  }

  /** The board of a finished tally shows, ranks, orders and covers the tallied models. */
  lemma BoardOfTally(models: seq<Listed>, modelType: string, votes: seq<VoteRow>, stats: map<string, (nat, nat)>,
                     display: real -> int)
    requires Tallies(stats, votes, IdsOfType(models, modelType))
    ensures Tallied(models, modelType, stats)
    ensures var b := Board(models, modelType, stats, display);
      |b| <= |models|
      && (forall i :: 0 <= i < |b| ==>
        b[i].rank == i + 1 && b[i].id in IdsOfType(models, modelType)
        && 0 < b[i].matches && b[i].wins <= b[i].matches
        && b[i].wins == Wins(votes, b[i].id) && b[i].matches == Matches(votes, b[i].id)
        && b[i].percent == WinRate(b[i].wins, b[i].matches, display))
      && (forall i, j :: 0 <= i < j < |b| ==> b[i].percent >= b[j].percent)
      && (forall k :: 0 <= k < |models| && models[k].model.modelType == modelType && Matches(votes, models[k].id) > 0 ==>
            exists i :: 0 <= i < |b| && b[i].id == models[k].id)
  {
    assert Tallied(models, modelType, stats) by {
      forall k | 0 <= k < |models| && models[k].model.modelType == modelType ensures models[k].id in stats {
        assert models[k] in models;
      }
    }
    var b := Board(models, modelType, stats, display);
    BoardRows(models, modelType, stats, display);
    BoardOrdered(models, modelType, stats, display);
    BoardComplete(models, modelType, stats, display);
    forall i | 0 <= i < |b| ensures b[i].wins <= b[i].matches {
      WinsWithinOwnMatches(votes, b[i].id);
    }
    forall k | 0 <= k < |models| && models[k].model.modelType == modelType && Matches(votes, models[k].id) > 0
      ensures exists i :: 0 <= i < |b| && b[i].id == models[k].id
    {
      assert models[k] in models;
    }
  }
}
