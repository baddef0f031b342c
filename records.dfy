/**
 * The records of the tournament store (teams, matches, score submissions)
 * and the small queries over them that every component shares.
 */
module Records {

  datatype Option<+T> = None | Some(value: T)

  datatype Result<+T, +E> = Ok(value: T) | Err(error: E)

  /** One failure per place where the service rejects a request. */
  datatype Error =
    | DivisionNotFound     // schedule: unknown division (HTTP 404)
    | TooFewTeams          // schedule: fewer than two teams (HTTP 400)
    | MatchNotFound        // submit/confirm: unknown match (HTTP 404)
    | AlreadyFinal         // submit: the match is final (HTTP 400)
    | InvalidSubmission    // submit: byTeam not a participant, or side not "A"/"B" (HTTP 400)
    | NoPendingSubmission  // confirm: nothing is awaiting confirmation (HTTP 400)
    | SubmissionMismatch   // confirm: not the id that is awaiting confirmation (HTTP 400)

  /** A singles player (playerB == None) or a doubles pair registered in one division. */
  datatype Team = Team(id: string, divisionId: string, playerA: string, playerB: Option<string>)

  /** Points of side A and side B in one game. */
  datatype ScoreLine = ScoreLine(a: int, b: int)

  /** The two values the service stores in a submission's state: 'pending', 'opponent-confirmed'. */
  datatype SubmissionState = SubmissionPending | OpponentConfirmed

  datatype Submission = Submission(
    id: string,
    matchId: string,
    byTeam: string,
    side: string,
    scores: seq<ScoreLine>,
    state: SubmissionState)

  /** The three values of a match's status: 'pending', 'awaiting-confirm', 'final'. */
  datatype MatchStatus = Pending | AwaitingConfirm | Final

  datatype Match = Match(
    id: string,
    divisionId: string,
    roundNo: int,
    teamA: string,
    teamB: string,
    status: MatchStatus,
    scores: seq<ScoreLine>,
    winner: Option<string>,
    awaitingSubmissionId: Option<string>)

  /** Total points of side A over all games. */
  function TotalA(scores: seq<ScoreLine>): int
  {
    if scores == [] then 0 else scores[0].a + TotalA(scores[1..])
  }

  /** Total points of side B over all games. */
  function TotalB(scores: seq<ScoreLine>): int
  {
    if scores == [] then 0 else scores[0].b + TotalB(scores[1..])
  }

  predicate Distinct<T(==)>(s: seq<T>)
  {
    forall i, j :: 0 <= i < j < |s| ==> s[i] != s[j]
  }

  /** The teams of division `d`, in registration order. */
  function DivTeams(teams: seq<Team>, d: string): (r: seq<Team>)
    ensures forall t :: t in r <==> t in teams && t.divisionId == d
    ensures |r| <= |teams|
  {
    if teams == [] then []
    else if teams[0].divisionId == d then [teams[0]] + DivTeams(teams[1..], d)
    else DivTeams(teams[1..], d)
  }

  function TeamIds(teams: seq<Team>): (r: seq<string>)
    ensures |r| == |teams|
    ensures forall i :: 0 <= i < |teams| ==> r[i] == teams[i].id
  {
    if teams == [] then [] else [teams[0].id] + TeamIds(teams[1..])
  }

  /** The ids of the teams of division `d`, in registration order. */
  function DivTeamIds(teams: seq<Team>, d: string): seq<string>
  {
    TeamIds(DivTeams(teams, d))
  }

  lemma {:induction false} DivTeamsAppend(teams: seq<Team>, t: Team, d: string)
    ensures DivTeams(teams + [t], d) == DivTeams(teams, d) + (if t.divisionId == d then [t] else [])
  {
    if teams != [] {
      assert (teams + [t])[1..] == teams[1..] + [t];
      DivTeamsAppend(teams[1..], t, d);
    }
  }

  lemma DistinctCons<T>(x: T, s: seq<T>)
    ensures Distinct([x] + s) <==> x !in s && Distinct(s)
  {
    var c := [x] + s;
    if x !in s && Distinct(s) {
      forall i, j | 0 <= i < j < |c| ensures c[i] != c[j] {
        if i == 0 { assert c[j] == s[j - 1]; } else { assert c[i] == s[i - 1] && c[j] == s[j - 1]; }
      }
    }
    if Distinct(c) {
      forall i, j | 0 <= i < j < |s| ensures s[i] != s[j] { assert s[i] == c[i + 1] && s[j] == c[j + 1]; }
      forall k | 0 <= k < |s| ensures s[k] != x { assert c[0] == x && c[k + 1] == s[k]; }
    }
  }

  lemma {:induction false} DivTeamIdsIn(teams: seq<Team>, d: string, x: string)
    requires x in DivTeamIds(teams, d)
    ensures x in TeamIds(teams)
  {
    var k :| 0 <= k < |DivTeamIds(teams, d)| && DivTeamIds(teams, d)[k] == x;
    var t := DivTeams(teams, d)[k];
    assert t in teams;
    var j :| 0 <= j < |teams| && teams[j] == t;
    assert TeamIds(teams)[j] == x;
  }

  lemma TeamIdsCons(teams: seq<Team>)
    requires teams != []
    ensures TeamIds(teams) == [teams[0].id] + TeamIds(teams[1..])
  {
  }

  lemma DivTeamIdsCons(teams: seq<Team>, d: string)
    requires teams != []
    ensures DivTeamIds(teams, d) ==
      (if teams[0].divisionId == d then [teams[0].id] else []) + DivTeamIds(teams[1..], d)
  {
    var rest := DivTeams(teams[1..], d);
    if teams[0].divisionId == d {
      var mine := [teams[0]] + rest;
      assert DivTeams(teams, d) == mine;
      assert mine[1..] == rest;
      TeamIdsCons(mine);
    } else {
      assert DivTeams(teams, d) == rest;
      assert [] + TeamIds(rest) == TeamIds(rest);
    }
  }

  /** A division's teams are a subsequence of all teams, so their ids stay distinct. */
  lemma {:induction false} DivTeamIdsDistinct(teams: seq<Team>, d: string)
    requires Distinct(TeamIds(teams))
    ensures Distinct(DivTeamIds(teams, d))
  {
    if teams != [] {
      var x, rest := teams[0].id, teams[1..];
      TeamIdsCons(teams);
      DistinctCons(x, TeamIds(rest));
      DivTeamIdsDistinct(rest, d);
      DivTeamIdsCons(teams, d);
      if teams[0].divisionId == d {
        if x in DivTeamIds(rest, d) {
          DivTeamIdsIn(rest, d, x);
        }
        DistinctCons(x, DivTeamIds(rest, d));
      } else {
        assert DivTeamIds(teams, d) == DivTeamIds(rest, d);
      }
    }
  }

  lemma {:induction false} TeamIdsAppend(teams: seq<Team>, t: Team)
    ensures TeamIds(teams + [t]) == TeamIds(teams) + [t.id]
  {
    if teams != [] {
      assert (teams + [t])[1..] == teams[1..] + [t];
      TeamIdsAppend(teams[1..], t);
    }
  }

  /** Registering a team adds its id at the end of its own division's ids and nowhere else. */
  lemma DivTeamIdsAppend(teams: seq<Team>, t: Team, d: string)
    ensures DivTeamIds(teams + [t], d) == DivTeamIds(teams, d) + (if t.divisionId == d then [t.id] else [])
  {
    DivTeamsAppend(teams, t, d);
    if t.divisionId == d {
      TeamIdsAppend(DivTeams(teams, d), t);
    } else {
      assert DivTeams(teams + [t], d) == DivTeams(teams, d);
    }
  }
}
