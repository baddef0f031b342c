# PicoScoreKeeper tournament core in Dafny

This project models the tournament core of the PicoScoreKeeper back end
(`backend/main.py`):

- team registration with deduplication of players and pairs;
- round-robin scheduling of a division by the circle method, with a bye for
  odd team counts;
- the two-step protocol that turns a reported score into a final result:
  one team submits, then the opponent confirms;
- the standings table and its display order.

Modules:

- `Records` (`records.dfy`) holds the stored records (`Team`, `ScoreLine`,
  `Submission`, `Match`), the error kinds the endpoints raise, and the
  per-division team query.
- `Scheduler` (`scheduler.dfy`) holds the circle method. `RoundRobin` is a
  closed-form definition of the schedule. `RoundRobinIds` and `PairOff` are
  the service's nested loops, and they are proved equal to it. The
  schedule's properties are proved about the definition: it has n - 1
  rounds, each team plays at most once per round, every two teams meet in
  exactly one round, and with an odd count each team sits out exactly once.
- `Standings` (`standings.dfy`) holds the standings computation.
  `ComputeStandings` is the service's three loops, proved equal to
  `StandingsTable`. Each row is proved equal to an independent count over
  the final matches, and the column totals are proved to balance. The
  display sort is modelled as a stable insertion sort (`Ranked`) on the key
  (wins, differential, points for), and its result is proved ordered,
  a permutation, and stable.
- `Protocol` (`protocol.dfy`) holds the match transitions as functions:
  `Submit`, `Confirm`, and the winner rule. `WellFormed` ties a match's
  status to its fields and to the stored submission it awaits.
- `Tournament` (`tournament.dfy`) holds the store, a class `Store` whose
  fields are the divisions, the teams and matches in insertion order, and
  the submissions by id. Its methods are `EnsureTeam`, `ScheduleRoundRobin`,
  `SubmitScore`, `ConfirmScore` and `Standings`. Each method keeps the
  store invariant `ValidState` and states its whole new state.

Fresh ids come from a random generator in the service. Here they are
parameters of the methods: `freshId` and `freshIds`. Each is required to be
unused. Team ids must also differ from `"BYE"`, and submission ids from `""`.
The service's ids are twelve hex digits, so they meet both requirements.

Where the design description of the system and the code differ, the model
follows the code:

- A submission while another one awaits confirmation is accepted and
  replaces it (`Protocol.ResubmitReplaces`). The design says it is rejected.
  The replaced submission stays `pending`; there is no "superseded" state.
- The `side` field is only checked to be `"A"` or `"B"`, not against the
  submitter's position (`Protocol.SideNotChecked`). Scores are always read
  as (teamA, teamB).
- Any request naming the awaited submission id may confirm it. The code
  does not check that the confirming party is the submitter's opponent.
- Equal totals make teamB the winner (`Protocol.Winner`).
- Score lines are not checked to be non-empty or non-negative.
- The standings of a division without teams, an unknown one included, are
  an empty table, not an error (`Standings.StandingsIds`).
- Rows that tie on all three keys stay in table order, which is the teams'
  registration order (`Standings.RankedStable`).
- Refusals use the service's HTTP statuses: 404 for an unknown division or
  match, 400 for everything else. In the model they are the variants of
  `Records.Error`.

## Model

| member | source | states |
|---|---|---|
| Records.DivTeams | backend/main.py:105-106 | a team is in the result exactly when it is stored and belongs to the division, and the result is no longer than the stored teams |
| Records.DivTeamIdsDistinct | backend/main.py:105-106 | when all team ids are distinct, the division's ids are distinct too |
| Records.DivTeamIdsAppend | backend/main.py:105-116 | a newly stored team adds its id at the end of its own division's ids and changes no other division's ids |
| Scheduler.Padded | backend/main.py:119-121 | the padded list has even length, keeps every id at its index, and adds exactly one bye when the count is odd |
| Scheduler.RotationsStep | backend/main.py:133 | one execution of the rotation statement takes rotation r to rotation r + 1 of the closed form |
| Scheduler.RotationsPermute | backend/main.py:125-133 | every working order is a permutation of the padded ids whose first entry stays in place |
| Scheduler.PairOff | backend/main.py:127-131 | the inner loop yields, in slot order, the pairings of slot i with slot n-1-i that do not involve the bye |
| Scheduler.RoundRobinIds | backend/main.py:118-134 | the nested loops compute exactly the closed-form schedule RoundRobin |
| Scheduler.RoundRobinShape | backend/main.py:118-134 | there are n - 1 rounds for padded count n (none for no ids), each has at most n/2 pairings, and no pairing involves the bye |
| Scheduler.RoundRobinMembers | backend/main.py:118-134 | for distinct ids without the bye, every pairing joins two different input teams |
| Scheduler.RoundRobinOncePerRound | backend/main.py:126-132 | for distinct ids, no team appears in two pairings of one round |
| Scheduler.RoundRobinEveryPairOnce | backend/main.py:118-134 | for distinct ids, every two different teams meet in some round, and in only one round |
| Scheduler.RoundRobinOddByes | backend/main.py:119-131 | with an odd number of distinct ids, each team sits out exactly one round |
| Scheduler.RoundRobinEvenFull | backend/main.py:118-134 | with an even number of distinct ids, every round has n/2 pairings and each team plays once in it |
| Scheduler.RoundRobinTwoTeams | backend/main.py:118-134 | two teams give one round with the single pairing (first, second) |
| Scheduler.RoundRobinFourTeams | backend/main.py:118-134 | A, B, C, D give the rounds (A,D),(B,C) / (A,C),(D,B) / (A,B),(C,D) |
| Standings.ComputeStandings | backend/main.py:136-153 | the three loops build StandingsTable. It requires that every final match of the division is between teams of the division; otherwise the service's table lookup fails |
| Standings.ApplyMatchRow | backend/main.py:143-150 | one final match adds to a row the win, the loss and the points that belong to that row's team, and nothing else |
| Standings.TallyRow | backend/main.py:140-150 | after the pass over the matches, each row holds its starting counters plus its team's wins, losses, points for and points against over the final matches of the division |
| Standings.StandingsRow | backend/main.py:136-153 | row i belongs to the i-th team of the division and equals an independent count of that team's wins, losses, points for and against, and their difference |
| Standings.StandingsIds | backend/main.py:137-139 | the table has one row per division team, in registration order, and is empty when no team belongs to the division |
| Standings.ApplyMatchSums | backend/main.py:143-150 | one final match adds one win and one loss in total, and the same points to the points-for and points-against totals |
| Standings.TallySums | backend/main.py:140-150 | the pass adds one win and one loss per final match and keeps PF - PA in total |
| Standings.WithDifferentialSums | backend/main.py:151-152 | setting the differentials keeps the ids and the other columns, and the PD total equals the PF total minus the PA total |
| Standings.StandingsSums | backend/main.py:136-153 | the wins and the losses both total the number of final matches, the PF and PA totals are equal, and the differentials total zero |
| Standings.StandingsExample | backend/main.py:136-153 | with T1 beating T2 31-24 and T3 22-11, the rows are T1 2-0 53/35 +18, T2 0-1 24/31 -7, T3 0-1 11/22 -11 |
| Standings.Insert | backend/main.py:289 | insertion adds exactly the one row: the result has the input rows plus that row |
| Standings.Ranked | backend/main.py:289 | the displayed rows are a permutation of the table |
| Standings.InsertOrdered | backend/main.py:289 | inserting into an ordered list keeps it ordered |
| Standings.RankedOrdered | backend/main.py:289 | no displayed row is outranked on (wins, differential, points for) by a later row |
| Standings.InsertStable | backend/main.py:289 | inserting a row places it after the rows with the same key |
| Standings.RankedStable | backend/main.py:289 | rows with equal keys keep their table order, so the sort is stable |
| Standings.RankedExample | backend/main.py:289 | the team with the most wins moves first, and two fully tied teams keep their order |
| Protocol.Winner | backend/main.py:266-268 | the winner is one of the two teams; for two different teams it is teamA exactly when teamA's total is greater; a tie goes to teamB |
| Protocol.Submit | backend/main.py:239-250 | accepted exactly when the match is not final, the submitter plays in it and the side is "A" or "B"; refusals are AlreadyFinal, then InvalidSubmission; on acceptance only status (now awaiting) and the awaited id (now the new one) change |
| Protocol.Confirm | backend/main.py:259-270 | accepted exactly when the match awaits a non-empty id and the request names that id; otherwise NoPendingSubmission or SubmissionMismatch; on acceptance the match is final, awaits nothing, has the submission's scores and winner, and nothing else changes |
| Protocol.MarkConfirmed | backend/main.py:272 | only the confirmed submission changes, and only its state, which becomes opponent-confirmed |
| Protocol.FinalIsFinal | backend/main.py:239-260 | a final match refuses every submission (AlreadyFinal) and every confirmation (NoPendingSubmission) |
| Protocol.SubmitThenConfirm | backend/main.py:235-273 | confirming the submission just accepted finalises the match with that submission's scores and winner |
| Protocol.ConfirmOnce | backend/main.py:259-270 | after a confirmation, any further confirmation is refused with NoPendingSubmission |
| Protocol.ResubmitReplaces | backend/main.py:239-263 | a second valid submission is accepted while the first is awaited, and the first one's id is then refused as a mismatch |
| Protocol.SideNotChecked | backend/main.py:244-245 | teamA may submit side "B" and teamB side "A" |
| Protocol.SubmitWellFormed | backend/main.py:247-250 | an accepted submission, once stored as pending, leaves the match well formed |
| Protocol.ConfirmWellFormed | backend/main.py:264-272 | an accepted confirmation, with the submission marked confirmed, leaves the match well formed |
| Protocol.OtherWellFormed | backend/main.py:248-272 | storing or updating a submission of another match keeps a match well formed |
| Protocol.WinnerExample | backend/main.py:266-268 | games 11-6, 9-11, 11-7 total 31 to 24, and teamA wins |
| Tournament.FindTeam | backend/main.py:108-113 | nothing is found exactly when no team of the list has the two players in either order |
| Tournament.FindTeamFirst | backend/main.py:109-113 | the result is the first team in order with those players |
| Tournament.FindTeamAppend | backend/main.py:114-115 | once a team is appended after a failed search, the same search finds it |
| Tournament.FindTeamSymmetric | backend/main.py:110-113 | registering (a, b) and registering (b, a) find the same team |
| Tournament.FindTeamIn | backend/main.py:109-113 | the scan over the division's teams returns FindTeam |
| Tournament.MatchIndex | backend/main.py:236-238 | a found index holds a match with the id, and nothing is found exactly when no stored match has the id |
| Tournament.OtherDivisions | backend/main.py:217-218 | exactly the matches of other divisions are kept, and distinct ids stay distinct |
| Tournament.CreateMatches | backend/main.py:219-227 | the nested loops create Fixtures: one match per pairing, round by round, with consecutive fresh ids |
| Tournament.FixturesMembers | backend/main.py:219-227 | the k-th created match takes the k-th fresh id, belongs to the division, is pending with no scores, winner or awaited id, and its round number r + 1 names a round r that pairs its two teams |
| Tournament.FixturesAt | backend/main.py:219-227 | the j-th pairing of round r becomes match number PairingCount(rounds before r) + j, with round number r + 1 and that pairing's teams |
| Tournament.ScheduleLeavesOthers | backend/main.py:217-227 | rescheduling a division leaves the other divisions' matches as they were, in order |
| Tournament.ValidCounted | backend/main.py:140-146 | in a valid store every final match of a division is between teams of that division, so the table lookups succeed |
| Tournament.ValidStandings | backend/main.py:136-153 | in a valid store the standings of any division have balanced totals |
| Tournament.EnsureTeamValid | backend/main.py:114-115 | storing a new team with an unused id keeps the store valid |
| Tournament.FixturesValid | backend/main.py:215-227 | every created match is between two different teams of the division and is well formed |
| Tournament.ScheduleUnique | backend/main.py:219-227 | the kept matches and the created matches together have distinct ids |
| Tournament.ScheduleValid | backend/main.py:209-228 | installing the schedule keeps the store valid |
| Tournament.SubmitValid | backend/main.py:247-251 | an accepted submission keeps the store valid |
| Tournament.ConfirmValid | backend/main.py:264-272 | an accepted confirmation keeps the store valid |
| Tournament.Store.constructor | backend/main.py:25-33 | the store starts with no teams, matches or submissions and is valid |
| Tournament.Store.EnsureTeam | backend/main.py:108-116 | returns the id of the first division team with those players, in either order, changing nothing; otherwise it appends a new team with the fresh id; afterwards the search finds the returned id |
| Tournament.Store.ScheduleRoundRobin | backend/main.py:209-228 | unknown division → DivisionNotFound, fewer than two teams → TooFewTeams, with the matches unchanged; otherwise the division's matches are replaced by Fixtures of RoundRobin, and the result reports the number of rounds and of matches |
| Tournament.Store.SubmitScore | backend/main.py:235-252 | unknown match → MatchNotFound; otherwise the outcome of Submit; on success the pending submission is stored under the fresh id, the match is updated and the submission is returned |
| Tournament.Store.ConfirmScore | backend/main.py:255-273 | unknown match → MatchNotFound; otherwise the outcome of Confirm; on success the match is replaced and returned, and the submission is marked confirmed |
| Tournament.Store.Standings | backend/main.py:276-290 | the rows are the ranked StandingsTable of the division, ordered by (wins, differential, points for) |

## Left out

- The HTTP layer is not modelled: FastAPI routing, response models, CORS, and
  the root, health and favicon routes.
- The user, event, division and registration endpoints are not modelled.
  Divisions are given to `Store.constructor`. Registration is the caller of
  `ensure_team`, and the model has `EnsureTeam` itself.
- `list_matches` and the display labels built by `team_label` are left out;
  they only read the store.
- Request payload decoding is not modelled. An absent `byTeam` or `side`
  reaches the model as a string that fails the same checks.
- Building `ScoreLine` values from the payload (line 246) is left out. A
  malformed score line makes the service fail before anything is stored.
  The model takes well-formed score lines as its input.
- Fresh ids: `uid()` is random, so fresh ids are method parameters. They
  are required to be unused, which the twelve hex digits of `uid()` give
  only with high probability.
- Standings.ComputeStandings: requires every final match of the division
  to be between teams of the division. The service fails with a lookup
  error otherwise, and the model does not capture that failure. A store
  built by these operations never holds such a match
  (`Tournament.ValidCounted`).
- Divisions are fixed when the store is created. Creating a division
  later is not part of this model.
- Aliasing is not modelled. The service's confirmed match shares its
  score list with the submission, and matches and teams are mutable
  objects in a dictionary. Here they are values in sequences and maps.
- When a division is rescheduled, the submissions of its removed matches
  stay stored, as in the service. The model keeps them but states nothing
  more about them.
- Concurrency between requests is not modelled; each operation is atomic.
- The in-memory storage of the service is modelled by the fields of
  `Store`, with no persistence.
