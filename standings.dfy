/**
 * The standings table of a division: one row per team of the division, in
 * registration order, counting wins, losses, points for, points against and
 * the point differential over the division's final matches; and the display
 * order, non-increasing by (wins, differential, points for), ties kept in
 * table order.
 */
module Standings {
  import opened Records

  datatype Row = Row(teamId: string, w: int, l: int, pf: int, pa: int, pd: int)

  /** The five counters of a row. */
  datatype Column = W | L | PF | PA | PD

  function Get(r: Row, c: Column): int
  {
    match c
    case W => r.w
    case L => r.l
    case PF => r.pf
    case PA => r.pa
    case PD => r.pd
  }

  /** A match takes part in the standings of `d` when it belongs to `d` and is final. */
  predicate Counted(m: Match, d: string)
  {
    m.divisionId == d && m.status == Final
  }

  /** A zero row for each id, in order. */
  function ZeroRows(ids: seq<string>): (rows: seq<Row>)
    ensures |rows| == |ids|
    ensures forall i :: 0 <= i < |ids| ==> rows[i] == Row(ids[i], 0, 0, 0, 0, 0)
  {
    seq(|ids|, i requires 0 <= i < |ids| => Row(ids[i], 0, 0, 0, 0, 0))
  }

  /** Add the deltas to the counters of the row keyed `id`; other rows are unchanged. */
  function Credit(rows: seq<Row>, id: string, dw: int, dl: int, dpf: int, dpa: int): (r: seq<Row>)
    ensures |r| == |rows|
  {
    seq(|rows|, i requires 0 <= i < |rows| =>
      if rows[i].teamId == id
      then rows[i].(w := rows[i].w + dw, l := rows[i].l + dl, pf := rows[i].pf + dpf, pa := rows[i].pa + dpa)
      else rows[i])
  }

  /**
   * One final match: both teams get their column sums as points for and
   * against; teamA gets the win when it is the recorded winner, otherwise
   * teamB gets it, and the other team the loss.
   */
  function ApplyMatch(rows: seq<Row>, m: Match): seq<Row>
  {
    var pfA, pfB := TotalA(m.scores), TotalB(m.scores);
    var points := Credit(Credit(rows, m.teamA, 0, 0, pfA, pfB), m.teamB, 0, 0, pfB, pfA);
    if m.winner == Some(m.teamA)
    then Credit(Credit(points, m.teamA, 1, 0, 0, 0), m.teamB, 0, 1, 0, 0)
    else Credit(Credit(points, m.teamB, 1, 0, 0, 0), m.teamA, 0, 1, 0, 0)
  }

  /** The counters after the counted matches of `ms`, taken in order. */
  function Tally(rows: seq<Row>, ms: seq<Match>, d: string): (r: seq<Row>)
    ensures |r| == |rows|
  {
    if ms == [] then rows
    else
      var prev := Tally(rows, ms[..|ms| - 1], d);
      var m := ms[|ms| - 1];
      if Counted(m, d) then ApplyMatch(prev, m) else prev
  }

  /** Every row's differential set to points for minus points against. */
  function WithDifferential(rows: seq<Row>): (r: seq<Row>)
    ensures |r| == |rows|
  {
    seq(|rows|, i requires 0 <= i < |rows| => rows[i].(pd := rows[i].pf - rows[i].pa))
  }

  /** The table the service computes for division `d`. */
  function StandingsTable(teams: seq<Team>, ms: seq<Match>, d: string): seq<Row>
  {
    WithDifferential(Tally(ZeroRows(DivTeamIds(teams, d)), ms, d))
  }

  /** The row ids, in order. */
  function RowIds(rows: seq<Row>): (ids: seq<string>)
    ensures |ids| == |rows|
    ensures forall i :: 0 <= i < |rows| ==> ids[i] == rows[i].teamId
  {
    seq(|rows|, i requires 0 <= i < |rows| => rows[i].teamId)
  }

  /**
   * The table as the service builds it: a zero row per division team, then
   * a pass over all matches, then the differentials. The service fails on
   * a final match of the division whose teams have no row; callers rule
   * that out.
   */
  method ComputeStandings(teams: seq<Team>, matches: seq<Match>, divId: string) returns (table: seq<Row>)
    requires forall k :: 0 <= k < |matches| && Counted(matches[k], divId) ==>
      matches[k].teamA in DivTeamIds(teams, divId) && matches[k].teamB in DivTeamIds(teams, divId)
    ensures table == StandingsTable(teams, matches, divId)
  {
    var divTeams := DivTeams(teams, divId);
    ghost var ids := DivTeamIds(teams, divId);
    table := [];
    var i := 0;
    while i < |divTeams|
      invariant 0 <= i <= |divTeams|
      invariant table == ZeroRows(ids[..i])
    {
      table := table + [Row(divTeams[i].id, 0, 0, 0, 0, 0)];
      i := i + 1;
    }
    assert ids[..i] == ids;
    ghost var zero := table;
    var j := 0;
    while j < |matches|
      invariant 0 <= j <= |matches|
      invariant table == Tally(zero, matches[..j], divId)
    {
      var m := matches[j];
      assert matches[..j + 1][..j] == matches[..j];
      if m.divisionId == divId && m.status == Final {
        var pfA := TotalA(m.scores);
        var pfB := TotalB(m.scores);
        table := Credit(table, m.teamA, 0, 0, pfA, pfB);
        table := Credit(table, m.teamB, 0, 0, pfB, pfA);
        if m.winner == Some(m.teamA) {
          table := Credit(table, m.teamA, 1, 0, 0, 0);
          table := Credit(table, m.teamB, 0, 1, 0, 0);
        } else {
          table := Credit(table, m.teamB, 1, 0, 0, 0);
          table := Credit(table, m.teamA, 0, 1, 0, 0);
        }
      }
      j := j + 1;
    }
    assert matches[..j] == matches;
    ghost var tallied := table;
    var k := 0;
    while k < |table|
      invariant 0 <= k <= |table| == |tallied|
      invariant forall x :: 0 <= x < k ==> table[x] == tallied[x].(pd := tallied[x].pf - tallied[x].pa)
      invariant forall x :: k <= x < |table| ==> table[x] == tallied[x]
    {
      table := table[k := table[k].(pd := table[k].pf - table[k].pa)];
      k := k + 1;
    }
  }

  // ---------------------------------------------------------------------
  // Each row against an independent count over the matches
  // ---------------------------------------------------------------------

  /** Whether `x` is credited with the win of `m`. */
  predicate Won(m: Match, x: string)
  {
    if m.winner == Some(m.teamA) then m.teamA == x else m.teamB == x
  }

  /** Whether `x` is charged with the loss of `m`. */
  predicate Lost(m: Match, x: string)
  {
    if m.winner == Some(m.teamA) then m.teamB == x else m.teamA == x
  }

  /** Points `x` scored in `m` (both sides, should it be on both). */
  function PointsFor(m: Match, x: string): int
  {
    (if m.teamA == x then TotalA(m.scores) else 0) + (if m.teamB == x then TotalB(m.scores) else 0)
  }

  /** Points scored against `x` in `m`. */
  function PointsAgainst(m: Match, x: string): int
  {
    (if m.teamA == x then TotalB(m.scores) else 0) + (if m.teamB == x then TotalA(m.scores) else 0)
  }

  /** Counted matches of `d` in `ms` that `x` won. */
  function Wins(ms: seq<Match>, d: string, x: string): nat
  {
    if ms == [] then 0
    else Wins(ms[..|ms| - 1], d, x) + (if Counted(ms[|ms| - 1], d) && Won(ms[|ms| - 1], x) then 1 else 0)
  }

  /** Counted matches of `d` in `ms` that `x` lost. */
  function Losses(ms: seq<Match>, d: string, x: string): nat
  {
    if ms == [] then 0
    else Losses(ms[..|ms| - 1], d, x) + (if Counted(ms[|ms| - 1], d) && Lost(ms[|ms| - 1], x) then 1 else 0)
  }

  /** Points `x` scored over the counted matches of `d`. */
  function PointsForIn(ms: seq<Match>, d: string, x: string): int
  {
    if ms == [] then 0
    else PointsForIn(ms[..|ms| - 1], d, x) + (if Counted(ms[|ms| - 1], d) then PointsFor(ms[|ms| - 1], x) else 0)
  }

  /** Points scored against `x` over the counted matches of `d`. */
  function PointsAgainstIn(ms: seq<Match>, d: string, x: string): int
  {
    if ms == [] then 0
    else PointsAgainstIn(ms[..|ms| - 1], d, x) + (if Counted(ms[|ms| - 1], d) then PointsAgainst(ms[|ms| - 1], x) else 0)
  }

  /** Counted matches of `d` in `ms`. */
  function FinalCount(ms: seq<Match>, d: string): nat
  {
    if ms == [] then 0
    else FinalCount(ms[..|ms| - 1], d) + (if Counted(ms[|ms| - 1], d) then 1 else 0)
  }

  /** What one match does to one row. */
  lemma ApplyMatchRow(rows: seq<Row>, m: Match, i: nat)
    requires i < |rows|
    ensures |ApplyMatch(rows, m)| == |rows|
    ensures ApplyMatch(rows, m)[i] == rows[i].(
      w := rows[i].w + (if Won(m, rows[i].teamId) then 1 else 0),
      l := rows[i].l + (if Lost(m, rows[i].teamId) then 1 else 0),
      pf := rows[i].pf + PointsFor(m, rows[i].teamId),
      pa := rows[i].pa + PointsAgainst(m, rows[i].teamId))
  {
  }

  /** After the pass over `ms`, each row holds its starting counters plus the team's own counts. */
  lemma {:induction false} TallyRow(rows: seq<Row>, ms: seq<Match>, d: string, i: nat)
    requires i < |rows|
    ensures Tally(rows, ms, d)[i] == rows[i].(
      w := rows[i].w + Wins(ms, d, rows[i].teamId),
      l := rows[i].l + Losses(ms, d, rows[i].teamId),
      pf := rows[i].pf + PointsForIn(ms, d, rows[i].teamId),
      pa := rows[i].pa + PointsAgainstIn(ms, d, rows[i].teamId))
  {
    if ms != [] {
      var init := ms[..|ms| - 1];
      TallyRow(rows, init, d, i);
      if Counted(ms[|ms| - 1], d) {
        ApplyMatchRow(Tally(rows, init, d), ms[|ms| - 1], i);
      }
    }
  }

  /**
   * Row i of the standings of `d` belongs to the i-th team of the division
   * and holds that team's wins, losses, points for and against over the
   * final matches of `d`, and their difference.
   */
  lemma StandingsRow(teams: seq<Team>, ms: seq<Match>, d: string, i: nat)
    requires i < |DivTeamIds(teams, d)|
    ensures |StandingsTable(teams, ms, d)| == |DivTeamIds(teams, d)|
    ensures var x := DivTeamIds(teams, d)[i];
      StandingsTable(teams, ms, d)[i] ==
        Row(x, Wins(ms, d, x), Losses(ms, d, x), PointsForIn(ms, d, x), PointsAgainstIn(ms, d, x),
            PointsForIn(ms, d, x) - PointsAgainstIn(ms, d, x))
  {
    TallyRow(ZeroRows(DivTeamIds(teams, d)), ms, d, i);
  }

  // ---------------------------------------------------------------------
  // Column totals
  // ---------------------------------------------------------------------

  /** The total of one column. */
  function Sum(rows: seq<Row>, c: Column): int
  {
    if rows == [] then 0 else Sum(rows[..|rows| - 1], c) + Get(rows[|rows| - 1], c)
  }

  function Delta(c: Column, dw: int, dl: int, dpf: int, dpa: int): int
  {
    match c
    case W => dw
    case L => dl
    case PF => dpf
    case PA => dpa
    case PD => 0
  }

  /** Crediting the one row keyed `id` moves each column total by its delta. */
  lemma {:induction false} CreditSum(rows: seq<Row>, id: string, dw: int, dl: int, dpf: int, dpa: int, c: Column)
    requires Distinct(RowIds(rows)) && id in RowIds(rows)
    ensures Sum(Credit(rows, id, dw, dl, dpf, dpa), c) == Sum(rows, c) + Delta(c, dw, dl, dpf, dpa)
  {
    var n := |rows|;
    var init := rows[..n - 1];
    var cr := Credit(rows, id, dw, dl, dpf, dpa);
    assert cr[..n - 1] == Credit(init, id, dw, dl, dpf, dpa);
    assert RowIds(init) == RowIds(rows)[..n - 1];
    if rows[n - 1].teamId == id {
      forall k | 0 <= k < n - 1 ensures RowIds(init)[k] != id {
        assert RowIds(rows)[k] != RowIds(rows)[n - 1];
      }
      CreditAbsent(init, id, dw, dl, dpf, dpa, c);
    } else {
      assert id in RowIds(init) by {
        var k :| 0 <= k < n && RowIds(rows)[k] == id;
        assert k < n - 1;
        assert RowIds(init)[k] == id;
      }
      assert Distinct(RowIds(init)) by {
        forall a, b | 0 <= a < b < n - 1 ensures RowIds(init)[a] != RowIds(init)[b] {
          assert RowIds(rows)[a] != RowIds(rows)[b];
        }
      }
      CreditSum(init, id, dw, dl, dpf, dpa, c);
    }
  }

  /** Crediting an id no row carries changes nothing. */
  lemma CreditAbsent(rows: seq<Row>, id: string, dw: int, dl: int, dpf: int, dpa: int, c: Column)
    requires id !in RowIds(rows)
    ensures Credit(rows, id, dw, dl, dpf, dpa) == rows
  {
    forall i | 0 <= i < |rows| ensures rows[i].teamId != id {
      assert RowIds(rows)[i] == rows[i].teamId;
    }
  }

  /** Credit leaves every row's id where it was. */
  lemma CreditIds(rows: seq<Row>, id: string, dw: int, dl: int, dpf: int, dpa: int)
    ensures RowIds(Credit(rows, id, dw, dl, dpf, dpa)) == RowIds(rows)
  {
  }

  /** The pass over the matches keeps the row ids. */
  lemma {:induction false} TallyIds(rows: seq<Row>, ms: seq<Match>, d: string)
    ensures RowIds(Tally(rows, ms, d)) == RowIds(rows)
  {
    if ms != [] {
      TallyIds(rows, ms[..|ms| - 1], d);
      var prev := Tally(rows, ms[..|ms| - 1], d);
      var m := ms[|ms| - 1];
      if Counted(m, d) {
        var pfA, pfB := TotalA(m.scores), TotalB(m.scores);
        CreditIds(prev, m.teamA, 0, 0, pfA, pfB);
        var r1 := Credit(prev, m.teamA, 0, 0, pfA, pfB);
        CreditIds(r1, m.teamB, 0, 0, pfB, pfA);
        var r2 := Credit(r1, m.teamB, 0, 0, pfB, pfA);
        CreditIds(r2, m.teamA, 1, 0, 0, 0);
        CreditIds(r2, m.teamB, 1, 0, 0, 0);
        CreditIds(Credit(r2, m.teamA, 1, 0, 0, 0), m.teamB, 0, 1, 0, 0);
        CreditIds(Credit(r2, m.teamB, 1, 0, 0, 0), m.teamA, 0, 1, 0, 0);
      }
    }
  }

  /** One counted match adds one win, one loss, and the same points to both point columns. */
  lemma ApplyMatchSums(rows: seq<Row>, m: Match)
    requires Distinct(RowIds(rows)) && m.teamA in RowIds(rows) && m.teamB in RowIds(rows)
    ensures Sum(ApplyMatch(rows, m), W) == Sum(rows, W) + 1
    ensures Sum(ApplyMatch(rows, m), L) == Sum(rows, L) + 1
    ensures Sum(ApplyMatch(rows, m), PF) == Sum(rows, PF) + TotalA(m.scores) + TotalB(m.scores)
    ensures Sum(ApplyMatch(rows, m), PA) == Sum(rows, PA) + TotalA(m.scores) + TotalB(m.scores)
  {
    var pfA, pfB := TotalA(m.scores), TotalB(m.scores);
    var r1 := Credit(rows, m.teamA, 0, 0, pfA, pfB);
    CreditIds(rows, m.teamA, 0, 0, pfA, pfB);
    var r2 := Credit(r1, m.teamB, 0, 0, pfB, pfA);
    CreditIds(r1, m.teamB, 0, 0, pfB, pfA);
    var first := if m.winner == Some(m.teamA) then m.teamA else m.teamB;
    var second := if m.winner == Some(m.teamA) then m.teamB else m.teamA;
    var r3 := Credit(r2, first, 1, 0, 0, 0);
    CreditIds(r2, first, 1, 0, 0, 0);
    assert ApplyMatch(rows, m) == Credit(r3, second, 0, 1, 0, 0);
    forall c: Column
      ensures Sum(Credit(r3, second, 0, 1, 0, 0), c) ==
        Sum(rows, c) + Delta(c, 0, 0, pfA, pfB) + Delta(c, 0, 0, pfB, pfA) + Delta(c, 1, 0, 0, 0) + Delta(c, 0, 1, 0, 0)
    {
      CreditSum(rows, m.teamA, 0, 0, pfA, pfB, c);
      CreditSum(r1, m.teamB, 0, 0, pfB, pfA, c);
      CreditSum(r2, first, 1, 0, 0, 0, c);
      CreditSum(r3, second, 0, 1, 0, 0, c);
    }
    assert Sum(ApplyMatch(rows, m), W) == Sum(rows, W) + 1;
  }

  /** The pass over the matches adds one win and one loss per counted match, and keeps PF - PA. */
  lemma {:induction false} TallySums(rows: seq<Row>, ms: seq<Match>, d: string)
    requires Distinct(RowIds(rows))
    requires forall k :: 0 <= k < |ms| && Counted(ms[k], d) ==>
      ms[k].teamA in RowIds(rows) && ms[k].teamB in RowIds(rows)
    ensures Sum(Tally(rows, ms, d), W) == Sum(rows, W) + FinalCount(ms, d)
    ensures Sum(Tally(rows, ms, d), L) == Sum(rows, L) + FinalCount(ms, d)
    ensures Sum(Tally(rows, ms, d), PF) - Sum(Tally(rows, ms, d), PA) == Sum(rows, PF) - Sum(rows, PA)
  {
    if ms != [] {
      var init := ms[..|ms| - 1];
      var m := ms[|ms| - 1];
      assert forall k :: 0 <= k < |init| ==> init[k] == ms[k];
      TallySums(rows, init, d);
      if Counted(m, d) {
        TallyIds(rows, init, d);
        ApplyMatchSums(Tally(rows, init, d), m);
      }
    }
  }

  /** Setting the differentials leaves the other columns and sums PD to PF - PA. */
  lemma {:induction false} WithDifferentialSums(rows: seq<Row>)
    ensures RowIds(WithDifferential(rows)) == RowIds(rows)
    ensures forall c :: c != PD ==> Sum(WithDifferential(rows), c) == Sum(rows, c)
    ensures Sum(WithDifferential(rows), PD) == Sum(rows, PF) - Sum(rows, PA)
  {
    if rows != [] {
      var n := |rows|;
      assert WithDifferential(rows)[..n - 1] == WithDifferential(rows[..n - 1]);
      WithDifferentialSums(rows[..n - 1]);
    }
  }

  /** Zero rows carry the given ids and sum to zero in every column. */
  lemma {:induction false} ZeroRowsSums(ids: seq<string>, c: Column)
    ensures RowIds(ZeroRows(ids)) == ids
    ensures Sum(ZeroRows(ids), c) == 0
  {
    if ids != [] {
      var n := |ids|;
      assert ZeroRows(ids)[..n - 1] == ZeroRows(ids[..n - 1]);
      ZeroRowsSums(ids[..n - 1], c);
    }
  }

  /**
   * When every final match of `d` is between teams of `d`: the wins and the
   * losses of the table both add up to the number of final matches, points
   * for and points against add up to the same total, and the differentials
   * cancel out.
   */
  lemma StandingsSums(teams: seq<Team>, ms: seq<Match>, d: string)
    requires Distinct(TeamIds(teams))
    requires forall k :: 0 <= k < |ms| && Counted(ms[k], d) ==>
      ms[k].teamA in DivTeamIds(teams, d) && ms[k].teamB in DivTeamIds(teams, d)
    ensures Sum(StandingsTable(teams, ms, d), W) == FinalCount(ms, d)
    ensures Sum(StandingsTable(teams, ms, d), L) == FinalCount(ms, d)
    ensures Sum(StandingsTable(teams, ms, d), PF) == Sum(StandingsTable(teams, ms, d), PA)
    ensures Sum(StandingsTable(teams, ms, d), PD) == 0
  {
    var ids := DivTeamIds(teams, d);
    DivTeamIdsDistinct(teams, d);
    var zero := ZeroRows(ids);
    ZeroRowsSums(ids, W);
    ZeroRowsSums(ids, L);
    ZeroRowsSums(ids, PF);
    ZeroRowsSums(ids, PA);
    TallySums(zero, ms, d);
    WithDifferentialSums(Tally(zero, ms, d));
  }

  /**
   * The table has one row per team of `d`, in registration order; a
   * division without teams (an unknown one included) gets an empty table.
   */
  lemma StandingsIds(teams: seq<Team>, ms: seq<Match>, d: string)
    ensures RowIds(StandingsTable(teams, ms, d)) == DivTeamIds(teams, d)
    ensures (forall t :: t in teams ==> t.divisionId != d) ==> StandingsTable(teams, ms, d) == []
  {
    var ids := DivTeamIds(teams, d);
    var zero := ZeroRows(ids);
    ZeroRowsSums(ids, W);
    TallyIds(zero, ms, d);
    WithDifferentialSums(Tally(zero, ms, d));
    assert (forall t :: t in teams ==> t.divisionId != d) ==> |DivTeams(teams, d)| == 0;
  }

  // ---------------------------------------------------------------------
  // Display order
  // ---------------------------------------------------------------------

  /** `x` ranks strictly above `y`: more wins, else a larger differential, else more points for. */
  predicate Outranks(x: Row, y: Row)
  {
    x.w > y.w || (x.w == y.w && (x.pd > y.pd || (x.pd == y.pd && x.pf > y.pf)))
  }

  /** `x` and `y` tie on (wins, differential, points for). */
  predicate SameKey(x: Row, y: Row)
  {
    x.w == y.w && x.pd == y.pd && x.pf == y.pf
  }

  /** No row is outranked by a row after it. */
  predicate Ordered(s: seq<Row>)
  {
    forall i, j :: 0 <= i < j < |s| ==> !Outranks(s[j], s[i])
  }

  /** `x` placed before the first row of `s` that does not outrank it. */
  function Insert(x: Row, s: seq<Row>): (r: seq<Row>)
    ensures multiset(r) == multiset(s) + multiset{x}
  {
    if s == [] || !Outranks(s[0], x) then [x] + s
    else
      assert s == [s[0]] + s[1..];
      [s[0]] + Insert(x, s[1..])
  }

  /**
   * The display order of the rows: the service sorts them by the key
   * (-W, -PD, -PF) with a stable sort; this is a stable insertion sort on
   * the same key.
   */
  function Ranked(rows: seq<Row>): (r: seq<Row>)
    ensures multiset(r) == multiset(rows)
  {
    if rows == [] then []
    else
      assert rows == [rows[0]] + rows[1..];
      Insert(rows[0], Ranked(rows[1..]))
  }

  /** The rows of `s` that tie with `k`, in their order in `s`. */
  function KeyFilter(s: seq<Row>, k: Row): seq<Row>
  {
    if s == [] then []
    else (if SameKey(s[0], k) then [s[0]] else []) + KeyFilter(s[1..], k)
  }

  lemma {:induction false} InsertOrdered(x: Row, s: seq<Row>)
    requires Ordered(s)
    ensures Ordered(Insert(x, s))
  {
    if s != [] && Outranks(s[0], x) {
      var rest := Insert(x, s[1..]);
      InsertOrdered(x, s[1..]);
      forall e | e in rest ensures !Outranks(e, s[0]) {
        assert e in multiset(rest);
        if e != x {
          assert e in s[1..];
        }
      }
      var r := [s[0]] + rest;
      forall i, j | 0 <= i < j < |r| ensures !Outranks(r[j], r[i]) {
        if i > 0 {
          assert r[i] == rest[i - 1] && r[j] == rest[j - 1];
        } else {
          assert r[j] == rest[j - 1];
        }
      }
    }
  }

  /** The displayed rows are ordered non-increasingly by (wins, differential, points for). */
  lemma {:induction false} RankedOrdered(rows: seq<Row>)
    ensures Ordered(Ranked(rows))
  {
    if rows != [] {
      RankedOrdered(rows[1..]);
      InsertOrdered(rows[0], Ranked(rows[1..]));
    }
  }

  lemma {:induction false} InsertStable(x: Row, s: seq<Row>, k: Row)
    requires Ordered(s)
    ensures KeyFilter(Insert(x, s), k) == KeyFilter([x] + s, k)
  {
    if s != [] && Outranks(s[0], x) {
      InsertStable(x, s[1..], k);
      assert ([s[0]] + Insert(x, s[1..]))[1..] == Insert(x, s[1..]);
      assert ([x] + s[1..])[1..] == s[1..];
      assert ([x] + s)[1..] == s;
    }
  }

  /** Rows that tie on the key keep their table order. */
  lemma {:induction false} RankedStable(rows: seq<Row>, k: Row)
    ensures KeyFilter(Ranked(rows), k) == KeyFilter(rows, k)
  {
    if rows != [] {
      RankedStable(rows[1..], k);
      RankedOrdered(rows[1..]);
      InsertStable(rows[0], Ranked(rows[1..]), k);
      assert ([rows[0]] + Ranked(rows[1..]))[1..] == Ranked(rows[1..]);
    }
  }

  /**
   * T1 beats T2 31-24 and T3 22-11 in division D: T1's row is 2 wins, no
   * loss, 53 for, 35 against, +18; T2 and T3 have one loss each.
   */
  lemma StandingsExample(teams: seq<Team>, ms: seq<Match>)
    requires teams == [Team("T1", "D", "p1", None), Team("T2", "D", "p2", None), Team("T3", "D", "p3", None)]
    requires ms == [Match("m1", "D", 1, "T1", "T2", Final, [ScoreLine(31, 24)], Some("T1"), None),
                    Match("m2", "D", 2, "T1", "T3", Final, [ScoreLine(22, 11)], Some("T1"), None)]
    ensures StandingsTable(teams, ms, "D") ==
      [Row("T1", 2, 0, 53, 35, 18), Row("T2", 0, 1, 24, 31, -7), Row("T3", 0, 1, 11, 22, -11)]
  {
    var rows := [Row("T1", 2, 0, 53, 35, 18), Row("T2", 0, 1, 24, 31, -7), Row("T3", 0, 1, 11, 22, -11)];
    ExampleIds(teams);
    ExampleCounts(ms);
    var t := StandingsTable(teams, ms, "D");
    forall i | 0 <= i < 3 ensures t[i] == rows[i] {
      StandingsRow(teams, ms, "D", i);
    }
  }

  lemma ExampleIds(teams: seq<Team>)
    requires teams == [Team("T1", "D", "p1", None), Team("T2", "D", "p2", None), Team("T3", "D", "p3", None)]
    ensures DivTeamIds(teams, "D") == ["T1", "T2", "T3"]
  {
    var rest := teams[1..];
    var last := rest[1..];
    assert last[1..] == [];
    DivTeamIdsCons(last, "D");
    DivTeamIdsCons(rest, "D");
    DivTeamIdsCons(teams, "D");
  }

  lemma ExampleCounts(ms: seq<Match>)
    requires ms == [Match("m1", "D", 1, "T1", "T2", Final, [ScoreLine(31, 24)], Some("T1"), None),
                    Match("m2", "D", 2, "T1", "T3", Final, [ScoreLine(22, 11)], Some("T1"), None)]
    ensures Wins(ms, "D", "T1") == 2 && Losses(ms, "D", "T1") == 0
    ensures PointsForIn(ms, "D", "T1") == 53 && PointsAgainstIn(ms, "D", "T1") == 35
    ensures Wins(ms, "D", "T2") == 0 && Losses(ms, "D", "T2") == 1
    ensures PointsForIn(ms, "D", "T2") == 24 && PointsAgainstIn(ms, "D", "T2") == 31
    ensures Wins(ms, "D", "T3") == 0 && Losses(ms, "D", "T3") == 1
    ensures PointsForIn(ms, "D", "T3") == 11 && PointsAgainstIn(ms, "D", "T3") == 22
  {
    assert "T1"[1] != "T2"[1] && "T1"[1] != "T3"[1] && "T2"[1] != "T3"[1];
    assert TotalA(ms[0].scores) == 31 && TotalB(ms[0].scores) == 24;
    assert TotalA(ms[1].scores) == 22 && TotalB(ms[1].scores) == 11;
    var first := ms[..1];
    assert first == [ms[0]] && first[..0] == [];
    assert Counted(ms[0], "D") && Counted(ms[1], "D");
    forall x: string
      ensures Wins(first, "D", x) == (if x == "T1" then 1 else 0)
      ensures Losses(first, "D", x) == (if x == "T2" then 1 else 0)
      ensures PointsForIn(first, "D", x) == PointsFor(ms[0], x)
      ensures PointsAgainstIn(first, "D", x) == PointsAgainst(ms[0], x)
    {
      assert Wins(first[..0], "D", x) == 0 && Losses(first[..0], "D", x) == 0;
      assert PointsForIn(first[..0], "D", x) == 0 && PointsAgainstIn(first[..0], "D", x) == 0;
    }
  }

  /**
   * The row with the most wins is displayed first; T1 and T3 tie on every
   * key and keep their registration order.
   */
  lemma RankedExample(rows: seq<Row>)
    requires rows == [Row("T1", 0, 1, 24, 31, -7), Row("T2", 2, 0, 53, 35, 18), Row("T3", 0, 1, 24, 31, -7)]
    ensures Ranked(rows) == [rows[1], rows[0], rows[2]]
  {
    var tail := rows[1..];
    assert tail == [rows[1], rows[2]] && tail[1..] == [rows[2]] && tail[1..][1..] == [];
    assert Ranked([rows[2]]) == [rows[2]];
    assert Insert(rows[1], [rows[2]]) == [rows[1], rows[2]];
    assert Ranked(tail) == [rows[1], rows[2]];
    var after := [rows[2]];
    assert [rows[1], rows[2]][1..] == after && after[1..] == [];
    assert Insert(rows[0], after) == [rows[0], rows[2]];
    assert Insert(rows[0], [rows[1], rows[2]]) == [rows[1], rows[0], rows[2]];
  }
}
