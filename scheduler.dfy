/**
 * Round-robin pairing by the circle method.
 *
 * The ids are padded with a sentinel (the service uses the string "BYE") to
 * an even count n; for each of the n - 1 rounds, slot i of the working order
 * is paired with slot n - 1 - i (pairings that involve the sentinel are
 * dropped), then every element except the first is rotated one place to the
 * right.
 *
 * The pairing functions and their lemmas are generic in the id type and take
 * the sentinel as a parameter; RoundRobinIds instantiates them with string
 * ids and "BYE", as the service does.
 */
module Scheduler {
  import opened Records

  /** The placeholder that makes an odd team count even. */
  const Bye: string := "BYE"

  datatype Pairing<T> = Pairing(a: T, b: T)

  /** The ids, with one `bye` appended when their count is odd. */
  function Padded<T>(ids: seq<T>, bye: T): (p: seq<T>)
    ensures |p| % 2 == 0
    ensures |ids| <= |p| <= |ids| + 1
    ensures forall k :: 0 <= k < |ids| ==> p[k] == ids[k]
    ensures forall k :: |ids| <= k < |p| ==> p[k] == bye
  {
    if |ids| % 2 == 1 then ids + [bye] else ids
  }

  /** Keep the first element, move the last one to position 1, shift the rest right. */
  function Rotate<T>(order: seq<T>): (r: seq<T>)
    requires |order| >= 2
    ensures |r| == |order|
  {
    var n := |order|;
    [order[0]] + [order[n - 1]] + order[1..n - 1]
  }

  /** Index into the starting order of the entry in slot j after r rotations (n entries). */
  function Src(n: nat, r: nat, j: nat): (s: nat)
    requires 2 <= n && r < n && j < n
    ensures s < n && (s == 0 <==> j == 0)
  {
    if j == 0 then 0 else if j - 1 >= r then j - r else j - r + n - 1
  }

  /**
   * The working order after r rotations, in closed form: slot j holds entry
   * Src(n, r, j) of the starting order (RotationsStep links it to Rotate).
   */
  function Rotations<T>(p: seq<T>, r: nat): (o: seq<T>)
    requires |p| >= 2 && r < |p|
    ensures |o| == |p|
  {
    seq(|p|, j requires 0 <= j < |p| => p[Src(|p|, r, j)])
  }

  /** No rotation leaves the order as it is. */
  lemma RotationsZero<T>(p: seq<T>)
    requires |p| >= 2
    ensures Rotations(p, 0) == p
  {
  }

  /** One more step of Rotate from the r-th rotation gives rotation r + 1. */
  lemma RotationsStep<T>(p: seq<T>, r: nat)
    requires |p| >= 2 && r < |p| - 1
    ensures Rotate(Rotations(p, r)) == Rotations(p, r + 1)
  {
    var n := |p|;
    var o := Rotations(p, r);
    var q := Rotate(o);
    forall j | 0 <= j < n ensures q[j] == p[Src(n, r + 1, j)] {
      if j == 1 {
        assert q[1] == o[n - 1];
      } else if j >= 2 {
        assert q[j] == o[j - 1];
      }
    }
  }

  /** The rotation statement, applied to the r-th rotation, gives rotation r + 1. */
  lemma RotateOrder<T>(p: seq<T>, r: nat, order: seq<T>)
    requires |p| >= 2 && r < |p| - 1 && order == Rotations(p, r)
    ensures [order[0]] + [order[|p| - 1]] + order[1..|p| - 1] == Rotations(p, r + 1)
  {
    RotationsStep(p, r);
  }

  /** One rotation only reorders the list. */
  lemma RotatePermutes<T>(o: seq<T>)
    requires |o| >= 2
    ensures multiset(Rotate(o)) == multiset(o)
  {
    var n := |o|;
    assert o == [o[0]] + o[1..n - 1] + [o[n - 1]];
  }

  /** Every rotation is a permutation of the list it starts from and keeps its first entry in place. */
  lemma {:induction false} RotationsPermute<T>(p: seq<T>, r: nat)
    requires |p| >= 2 && r < |p|
    ensures multiset(Rotations(p, r)) == multiset(p)
    ensures Rotations(p, r)[0] == p[0]
  {
    if r == 0 {
      RotationsZero(p);
    } else {
      RotationsPermute(p, r - 1);
      RotationsStep(p, r - 1);
      RotatePermutes(Rotations(p, r - 1));
    }
  }

  /**
   * The pairings of slots 0 .. i-1 with their opposite slots, in slot
   * order, leaving out any pairing that involves the bye.
   */
  function PairsUpTo<T(==)>(order: seq<T>, i: nat, bye: T): seq<Pairing<T>>
    requires i <= |order| / 2
  {
    if i == 0 then []
    else
      var a, b := order[i - 1], order[|order| - i];
      PairsUpTo(order, i - 1, bye) + (if a != bye && b != bye then [Pairing(a, b)] else [])
  }

  /** One round: every slot of the first half against its opposite slot. */
  function RoundOf<T(==)>(order: seq<T>, bye: T): seq<Pairing<T>>
  {
    PairsUpTo(order, |order| / 2, bye)
  }

  /** The whole schedule: round r pairs off the r-th rotation of the padded ids (no rounds for no ids). */
  function RoundRobin<T(==)>(ids: seq<T>, bye: T): (rounds: seq<seq<Pairing<T>>>)
    ensures |rounds| == if ids == [] then 0 else |Padded(ids, bye)| - 1
  {
    var p := Padded(ids, bye);
    if |p| < 2 then [] else seq(|p| - 1, r requires 0 <= r < |p| - 1 => RoundOf(Rotations(p, r), bye))
  }

  /**
   * The circle method as the service runs it: nested loops over a working
   * order. The service always passes the sentinel Bye ("BYE").
   */
  method RoundRobinIds<T(==)>(teamIds: seq<T>, bye: T) returns (rounds: seq<seq<Pairing<T>>>)
    ensures rounds == RoundRobin(teamIds, bye)
  {
    var teams := teamIds;
    if |teams| % 2 == 1 {
      teams := teams + [bye];
    }
    assert teams == Padded(teamIds, bye);
    var n := |teams|;
    ghost var schedule := RoundRobin(teamIds, bye);
    rounds := [];
    var order := teams;
    var k := 0;
    if n >= 2 {
      RotationsZero(teams);
    }
    while k < n - 1
      invariant 0 <= k <= |schedule|
      invariant |order| == n
      invariant n >= 2 ==> order == Rotations(teams, k)
      invariant rounds == schedule[..k]
    {
      var pairings := PairOff(order, bye);
      NextRound(teamIds, bye, k);
      rounds := rounds + [pairings];
      RotateOrder(teams, k, order);
      order := [order[0]] + [order[n - 1]] + order[1..n - 1];
      k := k + 1;
    }
    assert schedule[..k] == schedule;
  }

  /** The first k + 1 rounds extend the first k by the round of the k-th rotation. */
  lemma NextRound<T>(ids: seq<T>, bye: T, k: nat)
    requires k < |RoundRobin(ids, bye)|
    ensures |Padded(ids, bye)| >= 2
    ensures RoundRobin(ids, bye)[..k + 1] ==
      RoundRobin(ids, bye)[..k] + [RoundOf(Rotations(Padded(ids, bye), k), bye)]
  {
    var s := RoundRobin(ids, bye);
    RoundRobinAt(ids, bye, k);
    assert s[..k + 1] == s[..k] + [s[k]];
  }

  /** The inner loop: slot i against slot n - 1 - i for the first half, skipping the bye. */
  method PairOff<T(==)>(order: seq<T>, bye: T) returns (pairings: seq<Pairing<T>>)
    ensures pairings == RoundOf(order, bye)
  {
    var n := |order|;
    var half := n / 2;
    pairings := [];
    var i := 0;
    while i < half
      invariant 0 <= i <= half
      invariant pairings == PairsUpTo(order, i, bye)
    {
      var a, b := order[i], order[n - 1 - i];
      if a != bye && b != bye {
        pairings := pairings + [Pairing(a, b)];
      }
      i := i + 1;
    }
  }

  /** Round r of the schedule is the round of the r-th rotation of the padded ids. */
  lemma RoundRobinAt<T>(ids: seq<T>, bye: T, r: nat)
    requires r < |RoundRobin(ids, bye)|
    ensures |Padded(ids, bye)| >= 2
    ensures RoundRobin(ids, bye)[r] == RoundOf(Rotations(Padded(ids, bye), r), bye)
  {
  }

  /** Whether team `x` takes part in the pairing. */
  predicate Plays<T(==)>(pr: Pairing<T>, x: T)
  {
    pr.a == x || pr.b == x
  }

  /** How many pairings of a round team `x` takes part in. */
  function Occurrences<T(==)>(round: seq<Pairing<T>>, x: T): nat
  {
    if round == [] then 0
    else Occurrences(round[..|round| - 1], x) + (if Plays(round[|round| - 1], x) then 1 else 0)
  }

  /** Whether `x` and `y` are paired, in either order, in the round. */
  predicate Meets<T(==)>(round: seq<Pairing<T>>, x: T, y: T)
  {
    Pairing(x, y) in round || Pairing(y, x) in round
  }

  /** Number of pairings over all rounds. */
  function PairingCount<T>(rounds: seq<seq<Pairing<T>>>): nat
  {
    if rounds == [] then 0 else PairingCount(rounds[..|rounds| - 1]) + |rounds[|rounds| - 1]|
  }

  // ---------------------------------------------------------------------
  // One round
  // ---------------------------------------------------------------------

  lemma {:induction false} PairsUpToSize<T>(order: seq<T>, i: nat, bye: T)
    requires i <= |order| / 2
    ensures |PairsUpTo(order, i, bye)| <= i
    ensures (forall k :: 0 <= k < |order| ==> order[k] != bye) ==> |PairsUpTo(order, i, bye)| == i
  {
    if i > 0 {
      PairsUpToSize(order, i - 1, bye);
    }
  }

  /** A pairing is in the round exactly when it joins slot j with slot n - 1 - j and avoids the bye. */
  lemma {:induction false} InPairsUpTo<T>(order: seq<T>, i: nat, bye: T, x: T, y: T)
    requires i <= |order| / 2
    ensures Pairing(x, y) in PairsUpTo(order, i, bye) <==>
      x != bye && y != bye && exists j :: 0 <= j < i && order[j] == x && order[|order| - 1 - j] == y
  {
    if i > 0 {
      InPairsUpTo(order, i - 1, bye, x, y);
    }
  }

  /** Counting in the first i pairings: the count in the first i - 1, plus the pairing of slot i - 1 if it is kept. */
  lemma OccurrencesStep<T>(order: seq<T>, i: nat, bye: T, x: T)
    requires 0 < i <= |order| / 2
    ensures Occurrences(PairsUpTo(order, i, bye), x) == Occurrences(PairsUpTo(order, i - 1, bye), x) +
      (if order[i - 1] != bye && order[|order| - i] != bye && (order[i - 1] == x || order[|order| - i] == x) then 1 else 0)
  {
    var prev := PairsUpTo(order, i - 1, bye);
    var a, b := order[i - 1], order[|order| - i];
    if a != bye && b != bye {
      assert PairsUpTo(order, i, bye) == prev + [Pairing(a, b)];
      OccurrencesSnoc(prev, Pairing(a, b), x);
    } else {
      assert PairsUpTo(order, i, bye) == prev;
    }
  }

  lemma OccurrencesSnoc<T>(prev: seq<Pairing<T>>, pr: Pairing<T>, x: T)
    ensures Occurrences(prev + [pr], x) == Occurrences(prev, x) + (if Plays(pr, x) then 1 else 0)
  {
    var cur := prev + [pr];
    assert cur[..|cur| - 1] == prev;
  }

  /**
   * With distinct entries, the team in slot k is counted once in the first i
   * pairings when slot k or its opposite slot has been reached and neither is
   * the bye, and not at all otherwise.
   */
  lemma {:induction false} OccurrencesUpTo<T>(order: seq<T>, i: nat, bye: T, k: nat)
    requires |order| % 2 == 0 && i <= |order| / 2 && k < |order|
    requires forall j :: 0 <= j < |order| && j != k ==> order[j] != order[k]
    ensures Occurrences(PairsUpTo(order, i, bye), order[k]) ==
      if (k < i || |order| - i <= k) && order[k] != bye && order[|order| - 1 - k] != bye then 1 else 0
  {
    if i > 0 {
      var n := |order|;
      var x := order[k];
      OccurrencesUpTo(order, i - 1, bye, k);
      OccurrencesStep(order, i, bye, x);
      if k == i - 1 {
        assert order[n - 1 - k] == order[n - i];
      } else if k == n - i {
        assert order[n - 1 - k] == order[i - 1];
      } else {
        assert order[i - 1] != x && order[n - i] != x;
      }
    }
  }

  lemma DistinctAt<T>(s: seq<T>, i: nat, j: nat)
    requires Distinct(s) && i < |s| && j < |s| && i != j
    ensures s[i] != s[j]
  {
    if j < i {
      assert s[j] != s[i];
    }
  }

  /** A team that is not in the order takes part in no pairing. */
  lemma {:induction false} OccurrencesAbsent<T>(order: seq<T>, i: nat, bye: T, x: T)
    requires i <= |order| / 2 && x !in order
    ensures Occurrences(PairsUpTo(order, i, bye), x) == 0
  {
    if i > 0 {
      OccurrencesAbsent(order, i - 1, bye, x);
      OccurrencesStep(order, i, bye, x);
      assert order[i - 1] != x && order[|order| - i] != x;
    }
  }

  // ---------------------------------------------------------------------
  // Which slot an entry occupies in each round
  // ---------------------------------------------------------------------

  /** Slot, after r rotations, of entry s of the starting order: the inverse of Src. */
  function Slot(n: nat, r: nat, s: nat): (j: nat)
    requires 2 <= n && r < n - 1 && s < n
    ensures j < n && Src(n, r, j) == s
  {
    if s == 0 then 0 else if s - 1 + r < n - 1 then s + r else s + r - (n - 1)
  }

  lemma SrcInjective(n: nat, r: nat, j1: nat, j2: nat)
    requires 2 <= n && r < n && j1 < n && j2 < n
    ensures Src(n, r, j1) == Src(n, r, j2) <==> j1 == j2
  {
  }

  /** Entries s and t of the starting order sit in opposite slots in round r. */
  predicate Facing(n: nat, r: nat, s: nat, t: nat)
    requires 2 <= n && r < n - 1 && s < n && t < n
  {
    Slot(n, r, s) + Slot(n, r, t) == n - 1
  }

  /** Two entries face each other in at most one round. */
  lemma FacingUnique(n: nat, r1: nat, r2: nat, s: nat, t: nat)
    requires 2 <= n && n % 2 == 0 && r1 < n - 1 && r2 < n - 1 && s < n && t < n && s != t
    requires Facing(n, r1, s, t) && Facing(n, r2, s, t)
    ensures r1 == r2
  {
    var h := n / 2;
    assert n == 2 * h;
  }

  /** Any two entries face each other in some round. */
  lemma FacingExists(n: nat, s: nat, t: nat) returns (r: nat)
    requires 2 <= n && n % 2 == 0 && s < n && t < n && s != t
    ensures r < n - 1 && Facing(n, r, s, t)
  {
    var m := n - 1;
    if s == 0 {
      r := m - t;
    } else if t == 0 {
      r := m - s;
    } else {
      var u, v := s - 1, t - 1;
      var c := m - 2 - u - v;
      var t0 := if c < 0 then c + m else c;
      r := if t0 % 2 == 0 then t0 / 2 else (t0 + m) / 2;
      assert 2 * r == t0 || 2 * r == t0 + m;
    }
  }

  /** In a distinct list, the slot that holds entry s after r rotations is Slot(n, r, s). */
  lemma SlotOfEntry<T>(p: seq<T>, r: nat, j: nat, s: nat)
    requires |p| >= 2 && Distinct(p) && r < |p| - 1 && j < |p| && s < |p|
    requires Rotations(p, r)[j] == p[s]
    ensures j == Slot(|p|, r, s)
  {
    var src := Src(|p|, r, j);
    assert p[src] == p[s];
    if src != s {
      DistinctAt(p, src, s);
    }
    SrcInjective(|p|, r, j, Slot(|p|, r, s));
  }

  /** In round r the entries s and t of a distinct padded list meet exactly when they face each other. */
  lemma MeetsIffFacing<T>(p: seq<T>, bye: T, r: nat, s: nat, t: nat)
    requires |p| >= 2 && |p| % 2 == 0 && Distinct(p) && r < |p| - 1 && s < |p| && t < |p| && s != t
    ensures Meets(RoundOf(Rotations(p, r), bye), p[s], p[t]) <==>
      p[s] != bye && p[t] != bye && Facing(|p|, r, s, t)
  {
    if p[s] != bye && p[t] != bye && Facing(|p|, r, s, t) {
      FacingMeet(p, bye, r, s, t);
    }
    if Pairing(p[s], p[t]) in RoundOf(Rotations(p, r), bye) {
      MeetFacing(p, bye, r, s, t);
    }
    if Pairing(p[t], p[s]) in RoundOf(Rotations(p, r), bye) {
      MeetFacing(p, bye, r, t, s);
    }
  }

  lemma FacingMeet<T>(p: seq<T>, bye: T, r: nat, s: nat, t: nat)
    requires |p| >= 2 && |p| % 2 == 0 && r < |p| - 1 && s < |p| && t < |p|
    requires p[s] != bye && p[t] != bye && Facing(|p|, r, s, t)
    ensures Meets(RoundOf(Rotations(p, r), bye), p[s], p[t])
  {
    var n := |p|;
    var order := Rotations(p, r);
    var js, jt := Slot(n, r, s), Slot(n, r, t);
    assert order[js] == p[s] && order[jt] == p[t];
    if js < jt {
      InPairsUpTo(order, n / 2, bye, p[s], p[t]);
    } else {
      InPairsUpTo(order, n / 2, bye, p[t], p[s]);
    }
  }

  lemma MeetFacing<T>(p: seq<T>, bye: T, r: nat, s: nat, t: nat)
    requires |p| >= 2 && |p| % 2 == 0 && Distinct(p) && r < |p| - 1 && s < |p| && t < |p|
    requires Pairing(p[s], p[t]) in RoundOf(Rotations(p, r), bye)
    ensures p[s] != bye && p[t] != bye && Facing(|p|, r, s, t) && Facing(|p|, r, t, s)
  {
    var n := |p|;
    var j := SlotsOfPairing(Rotations(p, r), bye, Pairing(p[s], p[t]));
    SlotOfEntry(p, r, j, s);
    SlotOfEntry(p, r, n - 1 - j, t);
  }

  /** A pairing of a round joins a slot j of the first half with slot n - 1 - j, neither the bye. */
  lemma SlotsOfPairing<T>(order: seq<T>, bye: T, pr: Pairing<T>) returns (j: nat)
    requires pr in RoundOf(order, bye)
    ensures j < |order| / 2 && order[j] == pr.a && order[|order| - 1 - j] == pr.b
    ensures pr.a != bye && pr.b != bye
  {
    InPairsUpTo(order, |order| / 2, bye, pr.a, pr.b);
    j :| 0 <= j < |order| / 2 && order[j] == pr.a && order[|order| - 1 - j] == pr.b;
  }

  /** Rotating a list of distinct entries keeps them distinct. */
  lemma RotationsDistinct<T>(p: seq<T>, r: nat)
    requires |p| >= 2 && Distinct(p) && r < |p|
    ensures Distinct(Rotations(p, r))
  {
    var o := Rotations(p, r);
    forall i, j | 0 <= i < j < |o| ensures o[i] != o[j] {
      SrcInjective(|p|, r, i, j);
      DistinctAt(p, Src(|p|, r, i), Src(|p|, r, j));
    }
  }

  /** Padding distinct ids that avoid the bye gives a distinct list. */
  lemma PaddedDistinct<T>(ids: seq<T>, bye: T)
    requires Distinct(ids) && bye !in ids
    ensures Distinct(Padded(ids, bye))
  {
    var p := Padded(ids, bye);
    forall i, j | 0 <= i < j < |p| ensures p[i] != p[j] {
      if j >= |ids| {
        assert p[i] == ids[i];
      } else {
        assert p[i] == ids[i] && p[j] == ids[j];
      }
    }
  }

  // ---------------------------------------------------------------------
  // Properties of the whole schedule
  // ---------------------------------------------------------------------

  /** n - 1 rounds over the padded count, each with at most n / 2 pairings, none with the bye. */
  lemma RoundRobinShape<T>(ids: seq<T>, bye: T)
    ensures |RoundRobin(ids, bye)| == if ids == [] then 0 else |Padded(ids, bye)| - 1
    ensures forall r :: 0 <= r < |RoundRobin(ids, bye)| ==> |RoundRobin(ids, bye)[r]| <= |Padded(ids, bye)| / 2
    ensures forall r, pr: Pairing<T> :: 0 <= r < |RoundRobin(ids, bye)| && pr in RoundRobin(ids, bye)[r] ==>
      pr.a != bye && pr.b != bye
  {
    var p := Padded(ids, bye);
    var rr := RoundRobin(ids, bye);
    forall r | 0 <= r < |rr| ensures |rr[r]| <= |p| / 2 {
      RoundRobinAt(ids, bye, r);
      PairsUpToSize(Rotations(p, r), |p| / 2, bye);
    }
    forall r, pr: Pairing<T> | 0 <= r < |rr| && pr in rr[r] ensures pr.a != bye && pr.b != bye {
      RoundRobinAt(ids, bye, r);
      InPairsUpTo(Rotations(p, r), |p| / 2, bye, pr.a, pr.b);
    }
  }

  /** An entry of the padded list that is not the bye is the input id at that index. */
  lemma PaddedEntry<T>(ids: seq<T>, bye: T, k: nat)
    requires k < |Padded(ids, bye)| && Padded(ids, bye)[k] != bye
    ensures k < |ids| && ids[k] == Padded(ids, bye)[k]
  {
  }

  /** A pairing of round r joins two different input ids. */
  lemma PairingMembers<T>(ids: seq<T>, bye: T, r: nat, pr: Pairing<T>)
    requires Distinct(ids) && bye !in ids && r < |RoundRobin(ids, bye)| && pr in RoundRobin(ids, bye)[r]
    ensures pr.a in ids && pr.b in ids && pr.a != pr.b
  {
    var p := Padded(ids, bye);
    var n := |p|;
    RoundRobinAt(ids, bye, r);
    var order := Rotations(p, r);
    var j := SlotsOfPairing(order, bye, pr);
    var sa, sb := Src(n, r, j), Src(n, r, n - 1 - j);
    assert p[sa] == pr.a && p[sb] == pr.b;
    PaddedEntry(ids, bye, sa);
    PaddedEntry(ids, bye, sb);
    SrcInjective(n, r, j, n - 1 - j);
    DistinctAt(ids, sa, sb);
  }

  /** For distinct ids without the bye, every pairing joins two different input teams. */
  lemma RoundRobinMembers<T>(ids: seq<T>, bye: T)
    requires Distinct(ids) && bye !in ids
    ensures forall r, pr: Pairing<T> :: 0 <= r < |RoundRobin(ids, bye)| && pr in RoundRobin(ids, bye)[r] ==>
      pr.a in ids && pr.b in ids && pr.a != pr.b
  {
    var rr := RoundRobin(ids, bye);
    forall r, pr: Pairing<T> | 0 <= r < |rr| && pr in rr[r]
      ensures pr.a in ids && pr.b in ids && pr.a != pr.b
    {
      PairingMembers(ids, bye, r, pr);
    }
  }

  /** For distinct ids, no team takes part in two pairings of one round. */
  lemma RoundRobinOncePerRound<T>(ids: seq<T>, bye: T, r: nat, x: T)
    requires Distinct(ids) && bye !in ids && r < |RoundRobin(ids, bye)|
    ensures Occurrences(RoundRobin(ids, bye)[r], x) <= 1
  {
    var p := Padded(ids, bye);
    RoundRobinAt(ids, bye, r);
    PaddedDistinct(ids, bye);
    RotationsDistinct(p, r);
    var order := Rotations(p, r);
    if x in order {
      var k :| 0 <= k < |order| && order[k] == x;
      OccurrencesUpTo(order, |p| / 2, bye, k);
    } else {
      OccurrencesAbsent(order, |p| / 2, bye, x);
    }
  }

  /**
   * For distinct ids without the bye, every two different teams are paired in
   * exactly one round (and, by RoundRobinOncePerRound, in one pairing of it).
   */
  lemma RoundRobinEveryPairOnce<T>(ids: seq<T>, bye: T, x: T, y: T)
    requires Distinct(ids) && bye !in ids && x in ids && y in ids && x != y
    ensures exists r :: 0 <= r < |RoundRobin(ids, bye)| && Meets(RoundRobin(ids, bye)[r], x, y)
    ensures forall r1, r2 :: (0 <= r1 < |RoundRobin(ids, bye)| && 0 <= r2 < |RoundRobin(ids, bye)| &&
      Meets(RoundRobin(ids, bye)[r1], x, y) && Meets(RoundRobin(ids, bye)[r2], x, y)) ==> r1 == r2
  {
    var p := Padded(ids, bye);
    var n := |p|;
    var rr := RoundRobin(ids, bye);
    PaddedDistinct(ids, bye);
    var s :| 0 <= s < |ids| && ids[s] == x;
    var t :| 0 <= t < |ids| && ids[t] == y;
    assert p[s] == x && p[t] == y;
    var r := FacingExists(n, s, t);
    RoundRobinAt(ids, bye, r);
    MeetsIffFacing(p, bye, r, s, t);
    assert Meets(rr[r], x, y);
    forall r1, r2 | 0 <= r1 < |rr| && 0 <= r2 < |rr| && Meets(rr[r1], x, y) && Meets(rr[r2], x, y)
      ensures r1 == r2
    {
      RoundRobinAt(ids, bye, r1);
      RoundRobinAt(ids, bye, r2);
      MeetsIffFacing(p, bye, r1, s, t);
      MeetsIffFacing(p, bye, r2, s, t);
      FacingUnique(n, r1, r2, s, t);
    }
  }

  /** The team in entry s of a distinct padded list plays in round r unless it faces the last entry, a bye. */
  lemma PlaysInRound<T>(p: seq<T>, bye: T, r: nat, s: nat)
    requires |p| >= 2 && |p| % 2 == 0 && Distinct(p) && r < |p| - 1 && s < |p|
    requires forall k :: 0 <= k < |p| - 1 ==> p[k] != bye
    requires p[s] != bye
    ensures Occurrences(RoundOf(Rotations(p, r), bye), p[s]) ==
      if p[|p| - 1] == bye && Facing(|p|, r, s, |p| - 1) then 0 else 1
  {
    var n := |p|;
    var order := Rotations(p, r);
    RotationsDistinct(p, r);
    var k := Slot(n, r, s);
    forall j | 0 <= j < n && j != k ensures order[j] != order[k] {
      DistinctAt(order, j, k);
    }
    OccurrencesUpTo(order, n / 2, bye, k);
    assert k < n / 2 || n - n / 2 <= k;
    var partner := Src(n, r, n - 1 - k);
    assert order[k] == p[s] && order[n - 1 - k] == p[partner];
    assert p[partner] == bye <==> partner == n - 1 && p[n - 1] == bye;
    FacingLast(n, r, s);
  }

  /** Entry s faces the last entry exactly when the slot opposite its own holds the last entry. */
  lemma FacingLast(n: nat, r: nat, s: nat)
    requires 2 <= n && r < n - 1 && s < n
    ensures Facing(n, r, s, n - 1) <==> Src(n, r, n - 1 - Slot(n, r, s)) == n - 1
  {
    SrcInjective(n, r, n - 1 - Slot(n, r, s), Slot(n, r, n - 1));
  }

  /** With an odd number of distinct ids, each team sits out exactly one round. */
  lemma RoundRobinOddByes<T>(ids: seq<T>, bye: T, x: T)
    requires Distinct(ids) && bye !in ids && |ids| % 2 == 1 && x in ids
    ensures exists r :: 0 <= r < |RoundRobin(ids, bye)| && Occurrences(RoundRobin(ids, bye)[r], x) == 0
    ensures forall r1, r2 :: (0 <= r1 < |RoundRobin(ids, bye)| && 0 <= r2 < |RoundRobin(ids, bye)| &&
      Occurrences(RoundRobin(ids, bye)[r1], x) == 0 && Occurrences(RoundRobin(ids, bye)[r2], x) == 0) ==> r1 == r2
  {
    var p := Padded(ids, bye);
    var n := |p|;
    var rr := RoundRobin(ids, bye);
    PaddedDistinct(ids, bye);
    var s :| 0 <= s < |ids| && ids[s] == x;
    assert p[s] == x && p[n - 1] == bye && s != n - 1;
    forall k | 0 <= k < n - 1 ensures p[k] != bye {
      assert p[k] == ids[k];
    }
    var r := FacingExists(n, s, n - 1);
    RoundRobinAt(ids, bye, r);
    PlaysInRound(p, bye, r, s);
    assert Occurrences(rr[r], x) == 0;
    forall r1, r2 | 0 <= r1 < |rr| && 0 <= r2 < |rr| &&
      Occurrences(rr[r1], x) == 0 && Occurrences(rr[r2], x) == 0
      ensures r1 == r2
    {
      RoundRobinAt(ids, bye, r1);
      RoundRobinAt(ids, bye, r2);
      PlaysInRound(p, bye, r1, s);
      PlaysInRound(p, bye, r2, s);
      FacingUnique(n, r1, r2, s, n - 1);
    }
  }

  /** With an even number of distinct ids, every round pairs everybody: n / 2 pairings, each team once. */
  lemma RoundRobinEvenFull<T>(ids: seq<T>, bye: T, r: nat, x: T)
    requires Distinct(ids) && bye !in ids && |ids| % 2 == 0 && r < |RoundRobin(ids, bye)| && x in ids
    ensures |RoundRobin(ids, bye)[r]| == |ids| / 2
    ensures Occurrences(RoundRobin(ids, bye)[r], x) == 1
  {
    var p := Padded(ids, bye);
    assert p == ids;
    RoundRobinAt(ids, bye, r);
    var order := Rotations(p, r);
    forall k | 0 <= k < |p| ensures order[k] != bye {
      assert order[k] == p[Src(|p|, r, k)];
    }
    PairsUpToSize(order, |p| / 2, bye);
    var s :| 0 <= s < |ids| && ids[s] == x;
    PlaysInRound(p, bye, r, s);
  }

  /** Two teams give one round with one pairing. */
  lemma RoundRobinTwoTeams(x: string, y: string)
    requires x != Bye && y != Bye
    ensures RoundRobin([x, y], Bye) == [[Pairing(x, y)]]
  {
    var p := [x, y];
    assert Padded([x, y], Bye) == p;
    RotationsZero(p);
    assert PairsUpTo(p, 1, Bye) == [Pairing(x, y)];
  }

  /** The four-team schedule: (A,D),(B,C) / (A,C),(D,B) / (A,B),(C,D). */
  lemma RoundRobinFourTeams()
    ensures RoundRobin(["A", "B", "C", "D"], Bye) ==
      [[Pairing("A", "D"), Pairing("B", "C")],
       [Pairing("A", "C"), Pairing("D", "B")],
       [Pairing("A", "B"), Pairing("C", "D")]]
  {
    var p := ["A", "B", "C", "D"];
    assert Padded(p, Bye) == p;
    RotationsZero(p);
    var o1, o2 := ["A", "D", "B", "C"], ["A", "C", "D", "B"];
    assert Rotations(p, 1) == o1;
    assert Rotations(p, 2) == o2;
    assert RoundOf(p, Bye) == [Pairing("A", "D"), Pairing("B", "C")];
    assert RoundOf(o1, Bye) == [Pairing("A", "C"), Pairing("D", "B")];
    assert RoundOf(o2, Bye) == [Pairing("A", "B"), Pairing("C", "D")];
  }
}
