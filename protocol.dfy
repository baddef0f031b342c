/**
 * The life of one match's score: a match starts pending, a participant's
 * submission makes it await confirmation, and confirming exactly the
 * submission it awaits makes it final with that submission's scores and a
 * winner.
 */
module Protocol {
  import opened Records

  /** The match awaits confirmation of a non-empty submission id. */
  predicate HasPending(m: Match)
  {
    m.status == AwaitingConfirm && m.awaitingSubmissionId.Some? && m.awaitingSubmissionId.value != ""
  }

  /** teamA wins only when its points exceed teamB's; a tie goes to teamB. */
  function Winner(scores: seq<ScoreLine>, teamA: string, teamB: string): (w: string)
    ensures w == teamA || w == teamB
    ensures TotalA(scores) == TotalB(scores) ==> w == teamB
    ensures teamA != teamB ==> (w == teamA <==> TotalA(scores) > TotalB(scores))
  {
    if TotalA(scores) > TotalB(scores) then teamA else teamB
  }

  /**
   * The fields of a match agree with its status, and the submission it
   * awaits is a stored, still pending submission for this match.
   */
  predicate WellFormed(m: Match, subs: map<string, Submission>)
  {
    match m.status
    case Pending =>
      m.awaitingSubmissionId == None && m.winner == None
    case AwaitingConfirm =>
      HasPending(m) && m.winner == None
      && m.awaitingSubmissionId.value in subs
      && subs[m.awaitingSubmissionId.value].matchId == m.id
      && subs[m.awaitingSubmissionId.value].state == SubmissionPending
    case Final =>
      m.awaitingSubmissionId == None && (m.winner == Some(m.teamA) || m.winner == Some(m.teamB))
  }

  /**
   * A score submission by `byTeam` for `m`, stored under `subId`: refused for
   * a final match, and for a team that does not play in it or a side other
   * than "A" or "B"; otherwise the match awaits `subId`, replacing any
   * submission it awaited before. The side is not checked against the
   * team's position.
   */
  function Submit(m: Match, byTeam: string, side: string, subId: string): (r: Result<Match, Error>)
    ensures r.Ok? <==>
      m.status != Final && (byTeam == m.teamA || byTeam == m.teamB) && (side == "A" || side == "B")
    ensures r.Err? ==> r.error == (if m.status == Final then AlreadyFinal else InvalidSubmission)
    ensures r.Ok? ==> r.value.status == AwaitingConfirm && r.value.awaitingSubmissionId == Some(subId)
    ensures r.Ok? ==> r.value.(status := m.status, awaitingSubmissionId := m.awaitingSubmissionId) == m
  {
    if m.status == Final then Err(AlreadyFinal)
    else if (byTeam != m.teamA && byTeam != m.teamB) || (side != "A" && side != "B") then Err(InvalidSubmission)
    else Ok(m.(status := AwaitingConfirm, awaitingSubmissionId := Some(subId)))
  }

  /**
   * Confirmation of the submission `given` (None when the request names
   * none): refused unless the match awaits a submission and `given` is
   * exactly that one; otherwise the match takes the submission's scores,
   * its winner, and becomes final with nothing awaited.
   */
  function Confirm(m: Match, given: Option<string>, subs: map<string, Submission>): (r: Result<Match, Error>)
    requires HasPending(m) && given == m.awaitingSubmissionId ==> given.value in subs
    ensures r.Ok? <==> HasPending(m) && given == m.awaitingSubmissionId
    ensures r.Err? ==> r.error == (if HasPending(m) then SubmissionMismatch else NoPendingSubmission)
    ensures r.Ok? ==> var sub := subs[given.value];
      r.value.status == Final && r.value.awaitingSubmissionId == None
      && r.value.scores == sub.scores
      && r.value.winner == Some(Winner(sub.scores, m.teamA, m.teamB))
    ensures r.Ok? ==> r.value.(status := m.status, awaitingSubmissionId := m.awaitingSubmissionId,
                                scores := m.scores, winner := m.winner) == m
  {
    if !HasPending(m) then Err(NoPendingSubmission)
    else if given != m.awaitingSubmissionId then Err(SubmissionMismatch)
    else
      var sub := subs[given.value];
      Ok(m.(scores := sub.scores, winner := Some(Winner(sub.scores, m.teamA, m.teamB)),
            status := Final, awaitingSubmissionId := None))
  }

  /** The submission store after `id` is confirmed. */
  function MarkConfirmed(subs: map<string, Submission>, id: string): (r: map<string, Submission>)
    requires id in subs
    ensures r.Keys == subs.Keys
    ensures r[id].state == OpponentConfirmed && r[id].(state := subs[id].state) == subs[id]
    ensures forall k :: k in subs && k != id ==> r[k] == subs[k]
  {
    subs[id := subs[id].(state := OpponentConfirmed)]
  }

  // ---------------------------------------------------------------------
  // Properties of the protocol
  // ---------------------------------------------------------------------

  /** A final match accepts neither a submission nor a confirmation. */
  lemma FinalIsFinal(m: Match, byTeam: string, side: string, subId: string, given: Option<string>, subs: map<string, Submission>)
    requires m.status == Final
    ensures Submit(m, byTeam, side, subId) == Err(AlreadyFinal)
    ensures Confirm(m, given, subs) == Err(NoPendingSubmission)
  {
  }

  /** Confirming the submission just accepted finalises the match with its scores. */
  lemma SubmitThenConfirm(m: Match, byTeam: string, side: string, sub: Submission, subs: map<string, Submission>)
    requires Submit(m, byTeam, side, sub.id).Ok? && sub.id != ""
    ensures var m1 := Submit(m, byTeam, side, sub.id).value;
      var r := Confirm(m1, Some(sub.id), subs[sub.id := sub]);
      r.Ok? && r.value.status == Final && r.value.scores == sub.scores
      && r.value.winner == Some(Winner(sub.scores, m.teamA, m.teamB))
  {
  }

  /** After a confirmation, confirming again is refused whatever id is named. */
  lemma ConfirmOnce(m: Match, given: Option<string>, again: Option<string>, subs: map<string, Submission>)
    requires HasPending(m) && given == m.awaitingSubmissionId ==> given.value in subs
    requires Confirm(m, given, subs).Ok?
    ensures Confirm(Confirm(m, given, subs).value, again, subs) == Err(NoPendingSubmission)
  {
  }

  /**
   * A second submission is accepted while the first awaits confirmation, and
   * from then on the first one's id is refused as a mismatch.
   */
  lemma ResubmitReplaces(m: Match, byTeam: string, side: string, first: string, second: string,
                         by2: string, side2: string, subs: map<string, Submission>)
    requires Submit(m, byTeam, side, first).Ok?
    requires (by2 == m.teamA || by2 == m.teamB) && (side2 == "A" || side2 == "B")
    requires first != second && second != ""
    ensures var m1 := Submit(m, byTeam, side, first).value;
      Submit(m1, by2, side2, second).Ok?
      && Confirm(Submit(m1, by2, side2, second).value, Some(first), subs) == Err(SubmissionMismatch)
  {
  }

  /** Either participant may submit either side. */
  lemma SideNotChecked(m: Match, subId: string)
    requires m.status != Final
    ensures Submit(m, m.teamA, "B", subId).Ok? && Submit(m, m.teamB, "A", subId).Ok?
  {
  }

  /** Submitting keeps the match well formed once the new submission is stored. */
  lemma SubmitWellFormed(m: Match, byTeam: string, side: string, sub: Submission, subs: map<string, Submission>)
    requires WellFormed(m, subs)
    requires Submit(m, byTeam, side, sub.id).Ok?
    requires sub.id != "" && sub.matchId == m.id && sub.state == SubmissionPending
    ensures WellFormed(Submit(m, byTeam, side, sub.id).value, subs[sub.id := sub])
  {
  }

  /** Confirming keeps the match well formed once its submission is marked confirmed. */
  lemma ConfirmWellFormed(m: Match, given: Option<string>, subs: map<string, Submission>)
    requires WellFormed(m, subs)
    requires Confirm(m, given, subs).Ok?
    ensures WellFormed(Confirm(m, given, subs).value, MarkConfirmed(subs, given.value))
  {
  }

  /**
   * A match that does not await `id` stays well formed when `id` is added
   * or marked confirmed, if `id` is new or belongs to another match.
   */
  lemma OtherWellFormed(m: Match, subs: map<string, Submission>, id: string, sub: Submission)
    requires WellFormed(m, subs)
    requires id !in subs || (subs[id].matchId != m.id && sub.matchId != m.id)
    ensures WellFormed(m, subs[id := sub])
  {
  }

  /** Games 11-6, 9-11, 11-7 total 31 to 24, so teamA wins. */
  lemma WinnerExample()
    ensures TotalA([ScoreLine(11, 6), ScoreLine(9, 11), ScoreLine(11, 7)]) == 31
    ensures TotalB([ScoreLine(11, 6), ScoreLine(9, 11), ScoreLine(11, 7)]) == 24
    ensures Winner([ScoreLine(11, 6), ScoreLine(9, 11), ScoreLine(11, 7)], "T1", "T2") == "T1"
  {
    var s := [ScoreLine(11, 6), ScoreLine(9, 11), ScoreLine(11, 7)];
    assert s[1..] == [ScoreLine(9, 11), ScoreLine(11, 7)];
    assert s[1..][1..] == [ScoreLine(11, 7)];
    assert s[1..][1..][1..] == [];
  }
}
