/**
 * The in-memory tournament store and the operations that change it: team
 * registration with deduplication, installing a round-robin schedule for a
 * division, and submitting and confirming a match's score; plus the
 * standings query.
 */
module Tournament {
  import opened Records
  import opened Scheduler
  import opened Standings
  import opened Protocol

  /** What scheduling reports: the number of rounds and of matches created. */
  datatype Summary = Summary(rounds: nat, matches: nat)

  // ---------------------------------------------------------------------
  // Teams
  // ---------------------------------------------------------------------

  /** Team `t` consists of `a` and `b`, in the same or the swapped order. */
  predicate SamePlayers(t: Team, a: string, b: Option<string>)
  {
    (t.playerA == a && t.playerB == b) || (Some(t.playerA) == b && t.playerB == Some(a))
  }

  /** The id of the first team of `ts` made of `a` and `b`, in either order. */
  function FindTeam(ts: seq<Team>, a: string, b: Option<string>): (r: Option<string>)
    ensures r.None? <==> forall j :: 0 <= j < |ts| ==> !SamePlayers(ts[j], a, b)
  {
    if ts == [] then None
    else if SamePlayers(ts[0], a, b) then Some(ts[0].id)
    else
      assert forall j :: 1 <= j < |ts| ==> ts[j] == ts[1..][j - 1];
      FindTeam(ts[1..], a, b)
  }

  /** The first team made of the players is the one found. */
  lemma {:induction false} FindTeamFirst(ts: seq<Team>, a: string, b: Option<string>, i: nat)
    requires i < |ts| && SamePlayers(ts[i], a, b)
    requires forall j :: 0 <= j < i ==> !SamePlayers(ts[j], a, b)
    ensures FindTeam(ts, a, b) == Some(ts[i].id)
  {
    if i > 0 {
      assert !SamePlayers(ts[0], a, b);
      FindTeamFirst(ts[1..], a, b, i - 1);
    }
  }

  /** A team appended after no match is the first match. */
  lemma FindTeamAppend(ts: seq<Team>, t: Team, a: string, b: Option<string>)
    requires FindTeam(ts, a, b).None? && SamePlayers(t, a, b)
    ensures FindTeam(ts + [t], a, b) == Some(t.id)
  {
    var s := ts + [t];
    assert forall j :: 0 <= j < |ts| ==> s[j] == ts[j];
    FindTeamFirst(s, a, b, |ts|);
  }

  /** Registering `a` with `b` finds the same team as registering `b` with `a`. */
  lemma {:induction false} FindTeamSymmetric(ts: seq<Team>, a: string, b: string)
    ensures FindTeam(ts, a, Some(b)) == FindTeam(ts, b, Some(a))
  {
    if ts != [] {
      FindTeamSymmetric(ts[1..], a, b);
    }
  }

  // ---------------------------------------------------------------------
  // Matches
  // ---------------------------------------------------------------------

  /** No two matches share an id. */
  predicate UniqueIds(ms: seq<Match>)
  {
    forall i, j :: 0 <= i < j < |ms| ==> ms[i].id != ms[j].id
  }

  function IdSet(ms: seq<Match>): set<string>
  {
    set m | m in ms :: m.id
  }

  /** The position of the match with id `id`, if any. */
  function MatchIndex(ms: seq<Match>, id: string): (r: Option<nat>)
    ensures r.Some? ==> r.value < |ms| && ms[r.value].id == id
    ensures r.None? <==> id !in IdSet(ms)
  {
    if ms == [] then None
    else if ms[0].id == id then Some(0)
    else
      var r := MatchIndex(ms[1..], id);
      assert forall m :: m in ms ==> m == ms[0] || m in ms[1..];
      if r.Some? then Some(r.value + 1) else None
  }

  /** The matches of every division except `d`, in order. */
  function OtherDivisions(ms: seq<Match>, d: string): (r: seq<Match>)
    ensures forall m :: m in r <==> m in ms && m.divisionId != d
    ensures IdSet(r) <= IdSet(ms)
    ensures UniqueIds(ms) ==> UniqueIds(r)
  {
    if ms == [] then []
    else
      var rest := OtherDivisions(ms[1..], d);
      assert forall m :: m in ms ==> m == ms[0] || m in ms[1..];
      if ms[0].divisionId != d then
        assert UniqueIds(ms) ==> ms[0].id !in IdSet(ms[1..]) by {
          if UniqueIds(ms) {
            forall j | 1 <= j < |ms| ensures ms[j].id != ms[0].id { }
          }
        }
        [ms[0]] + rest
      else rest
  }

  /** A fresh pending match of round `roundNo` between the two teams of `pr`. */
  function NewMatch(id: string, d: string, roundNo: int, pr: Pairing<string>): Match
  {
    Match(id, d, roundNo, pr.a, pr.b, Pending, [], None, None)
  }

  /** The matches created for one round, taking their ids from the front of `ids`. */
  function RoundFixtures(d: string, roundNo: int, ps: seq<Pairing<string>>, ids: seq<string>): (r: seq<Match>)
    requires |ps| <= |ids|
    ensures |r| == |ps|
  {
    seq(|ps|, k requires 0 <= k < |ps| => NewMatch(ids[k], d, roundNo, ps[k]))
  }

  /** The matches created for all rounds, round by round, with consecutive ids from `ids`. */
  function Fixtures(d: string, rr: seq<seq<Pairing<string>>>, ids: seq<string>): (r: seq<Match>)
    requires PairingCount(rr) <= |ids|
    ensures |r| == PairingCount(rr)
  {
    if rr == [] then []
    else
      var n := |rr|;
      Fixtures(d, rr[..n - 1], ids) + RoundFixtures(d, n, rr[n - 1], ids[PairingCount(rr[..n - 1])..])
  }

  lemma RoundFixturesNext(d: string, roundNo: int, ps: seq<Pairing<string>>, ids: seq<string>, k: nat)
    requires k < |ps| <= |ids|
    ensures RoundFixtures(d, roundNo, ps[..k + 1], ids) ==
      RoundFixtures(d, roundNo, ps[..k], ids) + [NewMatch(ids[k], d, roundNo, ps[k])]
  {
  }

  lemma FixturesNext(d: string, rr: seq<seq<Pairing<string>>>, ids: seq<string>, i: nat)
    requires i < |rr| && PairingCount(rr[..i + 1]) <= |ids|
    ensures PairingCount(rr[..i + 1]) == PairingCount(rr[..i]) + |rr[i]|
    ensures Fixtures(d, rr[..i + 1], ids) ==
      Fixtures(d, rr[..i], ids) + RoundFixtures(d, i + 1, rr[i], ids[PairingCount(rr[..i])..])
  {
    assert rr[..i + 1][..i] == rr[..i];
  }

  lemma PairingCountNext<T>(rr: seq<seq<Pairing<T>>>, i: nat)
    requires i < |rr|
    ensures PairingCount(rr[..i + 1]) == PairingCount(rr[..i]) + |rr[i]|
  {
    assert rr[..i + 1][..i] == rr[..i];
  }

  lemma {:induction false} PairingCountPrefix<T>(rr: seq<seq<Pairing<T>>>, i: nat)
    requires i <= |rr|
    ensures PairingCount(rr[..i]) <= PairingCount(rr)
  {
    if i < |rr| {
      PairingCountNext(rr, |rr| - 1);
      assert rr[..|rr|] == rr;
      assert rr[..|rr| - 1][..i] == rr[..i];
      PairingCountPrefix(rr[..|rr| - 1], i);
    } else {
      assert rr[..i] == rr;
    }
  }

  /**
   * Every created match is a fresh pending match of division `d`, without
   * scores or winner, whose round number r + 1 names a round r that pairs
   * its two teams; the k-th one takes the k-th id.
   */
  lemma {:induction false} FixturesMembers(d: string, rr: seq<seq<Pairing<string>>>, ids: seq<string>)
    requires PairingCount(rr) <= |ids|
    ensures forall k :: 0 <= k < |Fixtures(d, rr, ids)| ==>
      var m := Fixtures(d, rr, ids)[k];
      m.id == ids[k] && m.divisionId == d && m.status == Pending && m.scores == []
      && m.winner == None && m.awaitingSubmissionId == None
      && 1 <= m.roundNo <= |rr| && Pairing(m.teamA, m.teamB) in rr[m.roundNo - 1]
  {
    if rr != [] {
      var n := |rr|;
      var init := rr[..n - 1];
      var before := PairingCount(init);
      FixturesMembers(d, init, ids);
      var f := Fixtures(d, rr, ids);
      forall k | 0 <= k < |f|
        ensures f[k].id == ids[k] && f[k].divisionId == d && f[k].status == Pending && f[k].scores == []
          && f[k].winner == None && f[k].awaitingSubmissionId == None
          && 1 <= f[k].roundNo <= n && Pairing(f[k].teamA, f[k].teamB) in rr[f[k].roundNo - 1]
      {
        if k < before {
          assert f[k] == Fixtures(d, init, ids)[k];
          assert init[f[k].roundNo - 1] == rr[f[k].roundNo - 1];
        } else {
          assert f[k] == NewMatch(ids[k], d, n, rr[n - 1][k - before]);
        }
      }
    }
  }

  /** The j-th pairing of round r becomes the match at position PairingCount(rr[..r]) + j, numbered r + 1. */
  lemma {:induction false} FixturesAt(d: string, rr: seq<seq<Pairing<string>>>, ids: seq<string>, r: nat, j: nat)
    requires PairingCount(rr) <= |ids|
    requires r < |rr| && j < |rr[r]|
    ensures PairingCount(rr[..r]) + j < PairingCount(rr)
    ensures Fixtures(d, rr, ids)[PairingCount(rr[..r]) + j] ==
      NewMatch(ids[PairingCount(rr[..r]) + j], d, r + 1, rr[r][j])
  {
    var n := |rr|;
    var init := rr[..n - 1];
    PairingCountNext(rr, n - 1);
    assert rr[..n] == rr;
    if r < n - 1 {
      assert init[..r] == rr[..r];
      PairingCountPrefix(rr, n - 1);
      FixturesAt(d, init, ids, r, j);
    }
  }

  /** Replacing a division's matches leaves the other divisions' matches exactly as they were. */
  lemma ScheduleLeavesOthers(ms: seq<Match>, d: string, rr: seq<seq<Pairing<string>>>, ids: seq<string>)
    requires PairingCount(rr) <= |ids|
    ensures OtherDivisions(OtherDivisions(ms, d) + Fixtures(d, rr, ids), d) == OtherDivisions(ms, d)
  {
    FixturesMembers(d, rr, ids);
    OtherDivisionsDrop(OtherDivisions(ms, d), Fixtures(d, rr, ids), d);
  }

  lemma {:induction false} OtherDivisionsDrop(kept: seq<Match>, added: seq<Match>, d: string)
    requires forall m :: m in kept ==> m.divisionId != d
    requires forall m :: m in added ==> m.divisionId == d
    ensures OtherDivisions(kept + added, d) == kept
  {
    if kept == [] {
      if added != [] {
        assert added[0] in added;
        assert added[1..] == added[1..];
        OtherDivisionsDrop([], added[1..], d);
        assert ([] + added)[1..] == [] + added[1..];
      }
    } else {
      assert (kept + added)[1..] == kept[1..] + added;
      assert kept[0] in kept;
      OtherDivisionsDrop(kept[1..], added, d);
    }
  }

  // ---------------------------------------------------------------------
  // The store invariant
  // ---------------------------------------------------------------------

  /** A stored match is between two different teams of its division and is well formed. */
  predicate MatchValid(m: Match, teams: seq<Team>, subs: map<string, Submission>)
  {
    m.teamA in DivTeamIds(teams, m.divisionId) && m.teamB in DivTeamIds(teams, m.divisionId)
    && m.teamA != m.teamB && WellFormed(m, subs)
  }

  /**
   * Team ids are distinct and none is the bye sentinel (fresh ids are
   * twelve hex digits); match ids are distinct; every match is valid.
   */
  predicate ValidState(teams: seq<Team>, matches: seq<Match>, subs: map<string, Submission>)
  {
    Distinct(TeamIds(teams)) && Bye !in TeamIds(teams) && UniqueIds(matches)
    && forall m :: m in matches ==> MatchValid(m, teams, subs)
  }

  /** In a valid store every final match of `d` is between teams of `d`: the standings never miss a row. */
  lemma ValidCounted(teams: seq<Team>, matches: seq<Match>, subs: map<string, Submission>, d: string)
    requires ValidState(teams, matches, subs)
    ensures forall k :: 0 <= k < |matches| && Counted(matches[k], d) ==>
      matches[k].teamA in DivTeamIds(teams, d) && matches[k].teamB in DivTeamIds(teams, d)
  {
    forall k | 0 <= k < |matches| && Counted(matches[k], d)
      ensures matches[k].teamA in DivTeamIds(teams, d) && matches[k].teamB in DivTeamIds(teams, d)
    {
      assert MatchValid(matches[k], teams, subs);
    }
  }

  /** In a valid store the standings of any division satisfy the sum properties. */
  lemma ValidStandings(teams: seq<Team>, matches: seq<Match>, subs: map<string, Submission>, d: string)
    requires ValidState(teams, matches, subs)
    ensures Sum(StandingsTable(teams, matches, d), W) == FinalCount(matches, d)
    ensures Sum(StandingsTable(teams, matches, d), L) == FinalCount(matches, d)
    ensures Sum(StandingsTable(teams, matches, d), PF) == Sum(StandingsTable(teams, matches, d), PA)
  {
    ValidCounted(teams, matches, subs, d);
    StandingsSums(teams, matches, d);
  }

  /** A registered team keeps every stored match valid. */
  lemma EnsureTeamValid(teams: seq<Team>, matches: seq<Match>, subs: map<string, Submission>, t: Team)
    requires ValidState(teams, matches, subs)
    requires t.id !in TeamIds(teams) && t.id != Bye
    ensures ValidState(teams + [t], matches, subs)
  {
    TeamIdsAppend(teams, t);
    DistinctSnoc(TeamIds(teams), t.id);
    forall m | m in matches ensures MatchValid(m, teams + [t], subs) {
      assert MatchValid(m, teams, subs);
      DivTeamIdsAppend(teams, t, m.divisionId);
    }
  }

  lemma DistinctSnoc<T>(s: seq<T>, x: T)
    requires Distinct(s) && x !in s
    ensures Distinct(s + [x])
  {
    var c := s + [x];
    forall i, j | 0 <= i < j < |c| ensures c[i] != c[j] {
      if j == |s| {
        assert c[i] == s[i];
      } else {
        assert c[i] == s[i] && c[j] == s[j];
      }
    }
  }

  /** The created matches are between two different teams of the division and are well formed. */
  lemma FixturesValid(teams: seq<Team>, subs: map<string, Submission>, d: string, ids: seq<string>)
    requires Distinct(TeamIds(teams)) && Bye !in TeamIds(teams)
    requires PairingCount(RoundRobin(DivTeamIds(teams, d), Bye)) <= |ids|
    ensures forall m :: m in Fixtures(d, RoundRobin(DivTeamIds(teams, d), Bye), ids) ==> MatchValid(m, teams, subs)
  {
    var divIds := DivTeamIds(teams, d);
    var rr := RoundRobin(divIds, Bye);
    var f := Fixtures(d, rr, ids);
    DivTeamIdsDistinct(teams, d);
    if Bye in divIds {
      DivTeamIdsIn(teams, d, Bye);
    }
    FixturesMembers(d, rr, ids);
    forall m | m in f ensures MatchValid(m, teams, subs) {
      var k :| 0 <= k < |f| && f[k] == m;
      PairingMembers(divIds, Bye, m.roundNo - 1, Pairing(m.teamA, m.teamB));
    }
  }

  /** Kept matches and created matches together still have distinct ids. */
  lemma ScheduleUnique(kept: seq<Match>, f: seq<Match>, ids: seq<string>, used: set<string>)
    requires UniqueIds(kept) && IdSet(kept) <= used
    requires Distinct(ids) && forall id :: id in ids ==> id !in used
    requires |f| <= |ids| && forall k :: 0 <= k < |f| ==> f[k].id == ids[k]
    ensures UniqueIds(kept + f)
  {
    var all := kept + f;
    forall i, j | 0 <= i < j < |all| ensures all[i].id != all[j].id {
      if j < |kept| {
        assert all[i] == kept[i] && all[j] == kept[j];
      } else if i < |kept| {
        assert all[i] in kept;
        assert all[i].id in IdSet(kept);
        assert ids[j - |kept|] in ids;
      } else {
        assert all[i].id == ids[i - |kept|] && all[j].id == ids[j - |kept|];
      }
    }
  }

  /** The installed schedule keeps the store valid. */
  lemma ScheduleValid(teams: seq<Team>, matches: seq<Match>, subs: map<string, Submission>, d: string, ids: seq<string>)
    requires ValidState(teams, matches, subs)
    requires Distinct(ids) && forall id :: id in ids ==> id !in IdSet(matches)
    requires PairingCount(RoundRobin(DivTeamIds(teams, d), Bye)) <= |ids|
    ensures ValidState(teams, OtherDivisions(matches, d) + Fixtures(d, RoundRobin(DivTeamIds(teams, d), Bye), ids), subs)
  {
    var rr := RoundRobin(DivTeamIds(teams, d), Bye);
    var kept := OtherDivisions(matches, d);
    var f := Fixtures(d, rr, ids);
    FixturesValid(teams, subs, d, ids);
    FixturesMembers(d, rr, ids);
    ScheduleUnique(kept, f, ids, IdSet(matches));
    forall m | m in kept + f ensures MatchValid(m, teams, subs) {
      if m in kept {
        assert m in matches;
      }
    }
  }

  /** Submitting keeps the store valid once the new submission is stored. */
  lemma SubmitValid(teams: seq<Team>, matches: seq<Match>, subs: map<string, Submission>, i: nat,
                    byTeam: string, side: string, sub: Submission)
    requires ValidState(teams, matches, subs)
    requires i < |matches| && Submit(matches[i], byTeam, side, sub.id).Ok?
    requires sub.id != "" && sub.id !in subs && sub.matchId == matches[i].id && sub.state == SubmissionPending
    ensures ValidState(teams, matches[i := Submit(matches[i], byTeam, side, sub.id).value], subs[sub.id := sub])
  {
    var m1 := Submit(matches[i], byTeam, side, sub.id).value;
    var ms := matches[i := m1];
    forall m | m in ms ensures MatchValid(m, teams, subs[sub.id := sub]) {
      var k :| 0 <= k < |ms| && ms[k] == m;
      assert MatchValid(matches[k], teams, subs);
      if k == i {
        SubmitWellFormed(matches[i], byTeam, side, sub, subs);
      } else {
        OtherWellFormed(m, subs, sub.id, sub);
      }
    }
    forall a, b | 0 <= a < b < |ms| ensures ms[a].id != ms[b].id {
      assert matches[a].id != matches[b].id;
    }
  }

  /** Confirming keeps the store valid once the submission is marked confirmed. */
  lemma ConfirmValid(teams: seq<Team>, matches: seq<Match>, subs: map<string, Submission>, i: nat, given: Option<string>)
    requires ValidState(teams, matches, subs)
    requires i < |matches|
    requires HasPending(matches[i]) && given == matches[i].awaitingSubmissionId ==> given.value in subs
    requires Confirm(matches[i], given, subs).Ok?
    ensures ValidState(teams, matches[i := Confirm(matches[i], given, subs).value], MarkConfirmed(subs, given.value))
  {
    var m0 := matches[i];
    assert MatchValid(m0, teams, subs);
    var id := given.value;
    var m1 := Confirm(m0, given, subs).value;
    var ms := matches[i := m1];
    var subs1 := MarkConfirmed(subs, id);
    assert subs1 == subs[id := subs[id].(state := OpponentConfirmed)];
    forall m | m in ms ensures MatchValid(m, teams, subs1) {
      var k :| 0 <= k < |ms| && ms[k] == m;
      assert MatchValid(matches[k], teams, subs);
      if k == i {
        ConfirmWellFormed(m0, given, subs);
      } else {
        assert matches[k].id != m0.id;
        OtherWellFormed(m, subs, id, subs[id].(state := OpponentConfirmed));
      }
    }
    forall a, b | 0 <= a < b < |ms| ensures ms[a].id != ms[b].id {
      assert matches[a].id != matches[b].id;
    }
  }

  // ---------------------------------------------------------------------
  // The scans the store methods run
  // ---------------------------------------------------------------------

  /** Scan the division's teams, in order, for one made of `a` and `b` in either order. */
  method FindTeamIn(divTeams: seq<Team>, a: string, b: Option<string>) returns (found: Option<string>)
    ensures found == FindTeam(divTeams, a, b)
  {
    var i := 0;
    while i < |divTeams|
      invariant 0 <= i <= |divTeams|
      invariant forall j :: 0 <= j < i ==> !SamePlayers(divTeams[j], a, b)
    {
      var t := divTeams[i];
      if (t.playerA == a && t.playerB == b) || (Some(t.playerA) == b && t.playerB == Some(a)) {
        FindTeamFirst(divTeams, a, b, i);
        return Some(t.id);
      }
      i := i + 1;
    }
    return None;
  }

  /**
   * The matches of a schedule, round by round: a pending match per pairing,
   * numbered from 1 by round, with ids taken in order from `freshIds`.
   */
  method CreateMatches(divId: string, rr: seq<seq<Pairing<string>>>, freshIds: seq<string>)
    returns (created: seq<Match>)
    requires PairingCount(rr) <= |freshIds|
    ensures created == Fixtures(divId, rr, freshIds)
  {
    created := [];
    var roundNo := 1;
    var i := 0;
    while i < |rr|
      invariant 0 <= i <= |rr| && roundNo == i + 1
      invariant |created| == PairingCount(rr[..i]) <= PairingCount(rr)
      invariant created == Fixtures(divId, rr[..i], freshIds)
    {
      var pairs := rr[i];
      PairingCountPrefix(rr, i + 1);
      FixturesNext(divId, rr, freshIds, i);
      ghost var done := created;
      ghost var ids := freshIds[PairingCount(rr[..i])..];
      var k := 0;
      while k < |pairs|
        invariant 0 <= k <= |pairs|
        invariant |created| == PairingCount(rr[..i]) + k
        invariant created == done + RoundFixtures(divId, roundNo, pairs[..k], ids)
      {
        RoundFixturesNext(divId, roundNo, pairs, ids, k);
        created := created + [Match(freshIds[|created|], divId, roundNo, pairs[k].a, pairs[k].b, Pending, [], None, None)];
        k := k + 1;
      }
      assert pairs[..k] == pairs;
      roundNo := roundNo + 1;
      i := i + 1;
    }
    assert rr[..i] == rr;
  }

  // ---------------------------------------------------------------------
  // The store
  // ---------------------------------------------------------------------

  class Store {
    var divisions: set<string>
    var teams: seq<Team>
    var matches: seq<Match>
    var submissions: map<string, Submission>

    ghost predicate Valid()
      reads this
    {
      ValidState(teams, matches, submissions)
    }

    /** An empty store over the given divisions. */
    constructor(divisionIds: set<string>)
      ensures Valid()
      ensures divisions == divisionIds && teams == [] && matches == [] && submissions == map[]
    {
      divisions := divisionIds;
      teams := [];
      matches := [];
      submissions := map[];
    }

    /**
     * The team of division `divId` made of `playerA` and `playerB` (in
     * either order), registered under `freshId` if there is none yet.
     */
    method EnsureTeam(divId: string, playerA: string, playerB: Option<string>, freshId: string) returns (id: string)
      requires Valid()
      requires freshId !in TeamIds(teams) && freshId != Bye
      modifies this
      ensures Valid()
      ensures divisions == old(divisions) && matches == old(matches) && submissions == old(submissions)
      ensures FindTeam(DivTeams(old(teams), divId), playerA, playerB).Some? ==>
        id == FindTeam(DivTeams(old(teams), divId), playerA, playerB).value && teams == old(teams)
      ensures FindTeam(DivTeams(old(teams), divId), playerA, playerB).None? ==>
        id == freshId && teams == old(teams) + [Team(freshId, divId, playerA, playerB)]
      ensures FindTeam(DivTeams(teams, divId), playerA, playerB) == Some(id)
    {
      var divTeams := DivTeams(teams, divId);
      var found := FindTeamIn(divTeams, playerA, playerB);
      if found.Some? {
        return found.value;
      }
      var team := Team(freshId, divId, playerA, playerB);
      EnsureTeamValid(teams, matches, submissions, team);
      DivTeamsAppend(teams, team, divId);
      FindTeamAppend(divTeams, team, playerA, playerB);
      teams := teams + [team];
      id := freshId;
    }

    /**
     * Replace every match of division `divId` by a fresh pending match per
     * pairing of the round-robin schedule of its teams, numbered by round
     * from 1, with ids taken in order from `freshIds`.
     */
    method ScheduleRoundRobin(divId: string, freshIds: seq<string>) returns (r: Result<Summary, Error>)
      requires Valid()
      requires Distinct(freshIds) && forall id :: id in freshIds ==> id !in IdSet(matches)
      requires PairingCount(RoundRobin(DivTeamIds(teams, divId), Bye)) <= |freshIds|
      modifies this
      ensures Valid()
      ensures divisions == old(divisions) && teams == old(teams) && submissions == old(submissions)
      ensures divId !in divisions ==> r == Err(DivisionNotFound) && matches == old(matches)
      ensures divId in divisions && |DivTeams(teams, divId)| < 2 ==>
        r == Err(TooFewTeams) && matches == old(matches)
      ensures divId in divisions && |DivTeams(teams, divId)| >= 2 ==>
        var rr := RoundRobin(DivTeamIds(teams, divId), Bye);
        r == Ok(Summary(|rr|, PairingCount(rr)))
        && matches == OtherDivisions(old(matches), divId) + Fixtures(divId, rr, freshIds)
    {
      if divId !in divisions {
        return Err(DivisionNotFound);
      }
      var divTeams := DivTeams(teams, divId);
      if |divTeams| < 2 {
        return Err(TooFewTeams);
      }
      var rr := RoundRobinIds(TeamIds(divTeams), Bye);
      ScheduleValid(teams, matches, submissions, divId, freshIds);
      var created := CreateMatches(divId, rr, freshIds);
      matches := OtherDivisions(matches, divId) + created;
      r := Ok(Summary(|rr|, |created|));
    }

    /**
     * Store `scores` as a pending submission of `byTeam` for match
     * `matchId` under `freshId`, make the match await it, and return the
     * submission.
     */
    method SubmitScore(matchId: string, byTeam: string, side: string, scores: seq<ScoreLine>, freshId: string)
      returns (r: Result<Submission, Error>)
      requires Valid()
      requires freshId != "" && freshId !in submissions
      modifies this
      ensures Valid()
      ensures divisions == old(divisions) && teams == old(teams)
      ensures MatchIndex(old(matches), matchId).None? ==>
        r == Err(MatchNotFound) && matches == old(matches) && submissions == old(submissions)
      ensures MatchIndex(old(matches), matchId).Some? ==>
        var i := MatchIndex(old(matches), matchId).value;
        var sub := Submission(freshId, matchId, byTeam, side, scores, SubmissionPending);
        match Submit(old(matches)[i], byTeam, side, freshId)
        case Err(e) => r == Err(e) && matches == old(matches) && submissions == old(submissions)
        case Ok(m) => r == Ok(sub) && matches == old(matches)[i := m] && submissions == old(submissions)[freshId := sub]
    {
      var found := MatchIndex(matches, matchId);
      if found.None? {
        return Err(MatchNotFound);
      }
      var i := found.value;
      var m := matches[i];
      if m.status == Final {
        return Err(AlreadyFinal);
      }
      if (byTeam != m.teamA && byTeam != m.teamB) || (side != "A" && side != "B") {
        return Err(InvalidSubmission);
      }
      var sub := Submission(freshId, matchId, byTeam, side, scores, SubmissionPending);
      SubmitValid(teams, matches, submissions, i, byTeam, side, sub);
      submissions := submissions[freshId := sub];
      matches := matches[i := m.(status := AwaitingConfirm, awaitingSubmissionId := Some(freshId))];
      r := Ok(sub);
    }

    /**
     * Confirm the submission `given` of match `matchId`: the match becomes
     * final with that submission's scores and winner, and is returned.
     */
    method ConfirmScore(matchId: string, given: Option<string>) returns (r: Result<Match, Error>)
      requires Valid()
      modifies this
      ensures Valid()
      ensures divisions == old(divisions) && teams == old(teams)
      ensures MatchIndex(old(matches), matchId).None? ==>
        r == Err(MatchNotFound) && matches == old(matches) && submissions == old(submissions)
      ensures MatchIndex(old(matches), matchId).Some? ==>
        var i := MatchIndex(old(matches), matchId).value;
        HasPending(old(matches)[i]) && given == old(matches)[i].awaitingSubmissionId ==> given.value in old(submissions)
      ensures MatchIndex(old(matches), matchId).Some? ==>
        var i := MatchIndex(old(matches), matchId).value;
        match Confirm(old(matches)[i], given, old(submissions))
        case Err(e) => r == Err(e) && matches == old(matches) && submissions == old(submissions)
        case Ok(m) => (r == Ok(m) && matches == old(matches)[i := m]
          && submissions == MarkConfirmed(old(submissions), given.value))
    {
      var found := MatchIndex(matches, matchId);
      if found.None? {
        return Err(MatchNotFound);
      }
      var i := found.value;
      var m := matches[i];
      assert MatchValid(m, teams, submissions);
      if m.status != AwaitingConfirm || m.awaitingSubmissionId.None? || m.awaitingSubmissionId.value == "" {
        return Err(NoPendingSubmission);
      }
      if given != m.awaitingSubmissionId {
        return Err(SubmissionMismatch);
      }
      var sub := submissions[given.value];
      var winner := if TotalA(sub.scores) > TotalB(sub.scores) then m.teamA else m.teamB;
      ConfirmValid(teams, matches, submissions, i, given);
      m := m.(scores := sub.scores, winner := Some(winner), status := Final, awaitingSubmissionId := None);
      matches := matches[i := m];
      submissions := submissions[given.value := sub.(state := OpponentConfirmed)];
      r := Ok(m);
    }

    /** The standings of division `divId` in display order. */
    method Standings(divId: string) returns (rows: seq<Row>)
      requires Valid()
      ensures rows == Ranked(StandingsTable(teams, matches, divId))
      ensures Ordered(rows)
    {
      ValidCounted(teams, matches, submissions, divId);
      var table := ComputeStandings(teams, matches, divId);
      rows := Ranked(table);
      RankedOrdered(table);
    }
  }
}
