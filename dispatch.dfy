/**
 * The dispatcher's logic on values: which car takes a hall call, how a car's
 * state changes when it takes one, how the pending queue is drained, and how
 * every car advances on one tick. Both `ElevatorManager` classes are proved
 * to update their objects exactly as these functions say.
 */
module Dispatch {
  import opened Wrappers
  import opened ElevatorModel
  import RouteHelper

  /** |currentFloor - floor|, the key the dispatcher orders candidates by. */
  function Distance(c: CarState, floor: int): (d: nat)
    ensures d == c.currentFloor - floor || d == floor - c.currentFloor
  {
    if c.currentFloor >= floor then c.currentFloor - floor else floor - c.currentFloor
  }

  /** Car `c` may take call `r`: it is idle, or it moves the call's way and is
      still at or before the call's floor. */
  predicate IsCandidate(c: CarState, r: ElevatorRequest)
  {
    Idle(c) ||
    (c.direction == Some(r.direction) &&
      ((r.direction == Up && c.currentFloor <= r.floor) ||
       (r.direction == Down && c.currentFloor >= r.floor)))
  }

  /** Car `k` is the one a stable sort of the candidates among `cars[..n]` by
      distance puts first: a candidate, no farther than any other candidate,
      and strictly nearer than every candidate before it. */
  predicate IsNearest(cars: seq<CarState>, r: ElevatorRequest, n: int, k: int)
  {
    0 <= k < n <= |cars| && IsCandidate(cars[k], r) &&
    (forall j :: 0 <= j < n && IsCandidate(cars[j], r) ==> Distance(cars[k], r.floor) <= Distance(cars[j], r.floor)) &&
    (forall j :: 0 <= j < k && IsCandidate(cars[j], r) ==> Distance(cars[k], r.floor) < Distance(cars[j], r.floor))
  }

  /** The nearest candidate among the first `n` cars, scanning in list order
      and replacing the best so far only by a strictly nearer candidate. */
  function ChoosePrefix(cars: seq<CarState>, r: ElevatorRequest, n: nat): (o: Option<nat>)
    requires n <= |cars|
    ensures o.Some? ==> IsNearest(cars, r, n, o.value)
    ensures o.None? <==> forall j :: 0 <= j < n ==> !IsCandidate(cars[j], r)
  {
    if n == 0 then None
    else
      var best := ChoosePrefix(cars, r, n - 1);
      if IsCandidate(cars[n - 1], r) &&
         (best.None? || Distance(cars[n - 1], r.floor) < Distance(cars[best.value], r.floor))
      then Some(n - 1)
      else best
  }

  /** The car a call goes to, or None when no car is a candidate. */
  function ChooseCar(cars: seq<CarState>, r: ElevatorRequest): (o: Option<nat>)
    ensures o.Some? ==> IsNearest(cars, r, |cars|, o.value)
    ensures o.None? <==> forall j :: 0 <= j < |cars| ==> !IsCandidate(cars[j], r)
  {
    ChoosePrefix(cars, r, |cars|)
  }

  /** At most one car is the nearest candidate, so the choice is determined
      by `IsNearest` alone: `ChooseCar` returns car `k` exactly when `k` is the
      nearest candidate. */
  lemma ChooseCarIsNearest(cars: seq<CarState>, r: ElevatorRequest, k: nat)
    ensures ChooseCar(cars, r) == Some(k) <==> IsNearest(cars, r, |cars|, k)
  {
    if IsNearest(cars, r, |cars|, k) {
      var o := ChooseCar(cars, r);
      assert o.Some?;
      var k' := o.value;
      assert Distance(cars[k], r.floor) <= Distance(cars[k'], r.floor);
      assert Distance(cars[k'], r.floor) <= Distance(cars[k], r.floor);
    }
  }

  /** A car's state never shrinks or moves under assignment: same id, same
      floor, and the old targets stay, in order, at the front. */
  predicate Extends(c: CarState, c': CarState)
  {
    c'.id == c.id && c'.currentFloor == c.currentFloor && c.targetFloors <= c'.targetFloors
  }

  /** A car's targets hold no floor twice, and it has a direction exactly
      when it has targets. */
  predicate WellFormed(c: CarState)
  {
    RouteHelper.Distinct(c.targetFloors) && (c.direction.None? <==> c.targetFloors == [])
  }

  /** Every car of the fleet is well formed. */
  predicate FleetWellFormed(cars: seq<CarState>)
  {
    forall i :: 0 <= i < |cars| ==> WellFormed(cars[i])
  }

  /** Car `c` after taking a call on `floor`: the floor is queued at the back
      if absent, and a car with no direction turns toward it. */
  function AssignTo(c: CarState, floor: int): (c': CarState)
    ensures Extends(c, c')
    ensures floor in c'.targetFloors
    ensures forall f :: f in c'.targetFloors ==> f in c.targetFloors || f == floor
    ensures |c'.targetFloors| == |c.targetFloors| + (if floor in c.targetFloors then 0 else 1)
    ensures RouteHelper.Distinct(c.targetFloors) ==> RouteHelper.Distinct(c'.targetFloors)
    ensures c.direction.Some? ==> c'.direction == c.direction
    ensures c.direction.None? ==> (c'.direction == Some(Up) <==> floor > c.currentFloor) && c'.direction.Some?
    ensures WellFormed(c) ==> WellFormed(c')
  {
    var targets := if floor in c.targetFloors then c.targetFloors else c.targetFloors + [floor];
    var direction := if c.direction == None
                     then Some(if floor > c.currentFloor then Up else Down)
                     else c.direction;
    c.(targetFloors := targets, direction := direction)
  }

  /** One iteration of the assignment loop for call `r`: None when no car can
      take it, otherwise the fleet with only the chosen car changed. */
  function AssignOne(cars: seq<CarState>, r: ElevatorRequest): (o: Option<seq<CarState>>)
    ensures o.None? <==> ChooseCar(cars, r).None?
    ensures o.Some? ==>
      var k := ChooseCar(cars, r).value;
      o.value == cars[k := AssignTo(cars[k], r.floor)] &&
      (forall i :: 0 <= i < |cars| && i != k ==> o.value[i] == cars[i])
  {
    match ChooseCar(cars, r)
    case None => None
    case Some(k) => Some(cars[k := AssignTo(cars[k], r.floor)])
  }

  datatype Outcome = Outcome(cars: seq<CarState>, remaining: seq<ElevatorRequest>)

  /** The requests taken off the front of `pending`. */
  function Assigned(pending: seq<ElevatorRequest>, out: Outcome): seq<ElevatorRequest>
    requires |out.remaining| <= |pending|
  {
    pending[..|pending| - |out.remaining|]
  }

  /** The pending queue drained front to back: each call goes to its nearest
      candidate, and the first call no car can take stops the drain, staying
      queued with everything behind it. */
  function AssignAll(cars: seq<CarState>, pending: seq<ElevatorRequest>): Outcome
    decreases |pending|
  {
    if pending == [] then Outcome(cars, [])
    else
      match AssignOne(cars, pending[0])
      case None => Outcome(cars, pending)
      case Some(next) => AssignAll(next, pending[1..])
  }

  /** Draining keeps the fleet's size, and every car keeps its id, its floor
      and its old targets in front. */
  lemma {:induction false} AssignAllExtendsCars(cars: seq<CarState>, pending: seq<ElevatorRequest>)
    ensures |AssignAll(cars, pending).cars| == |cars|
    ensures forall i :: 0 <= i < |cars| ==> Extends(cars[i], AssignAll(cars, pending).cars[i])
    decreases |pending|
  {
    if pending != [] && ChooseCar(cars, pending[0]).Some? {
      var next := AssignOne(cars, pending[0]).value;
      var out := AssignAll(next, pending[1..]);
      assert AssignAll(cars, pending) == out;
      AssignAllExtendsCars(next, pending[1..]);
      forall i | 0 <= i < |cars| ensures Extends(cars[i], out.cars[i]) {
        ExtendsTransitive(cars[i], next[i], out.cars[i]);
      }
    }
  }

  lemma ExtendsTransitive(a: CarState, b: CarState, c: CarState)
    requires Extends(a, b) && Extends(b, c)
    ensures Extends(a, c)
  {
  }

  /** `r` is what is left of `p` after some calls were taken off its front. */
  predicate SuffixOf(r: seq<ElevatorRequest>, p: seq<ElevatorRequest>)
  {
    |r| <= |p| && r == p[|p| - |r|..]
  }

  lemma SuffixOfTail(r: seq<ElevatorRequest>, p: seq<ElevatorRequest>)
    requires p != [] && SuffixOf(r, p[1..])
    ensures SuffixOf(r, p)
  {
    assert p[1..][|p[1..]| - |r|..] == p[|p| - |r|..];
  }

  /** What stays queued after draining is a suffix of the queue. */
  lemma {:induction false} AssignAllLeavesSuffix(cars: seq<CarState>, pending: seq<ElevatorRequest>)
    ensures SuffixOf(AssignAll(cars, pending).remaining, pending)
    decreases |pending|
  {
    if pending != [] && ChooseCar(cars, pending[0]).Some? {
      var next := AssignOne(cars, pending[0]).value;
      assert AssignAll(cars, pending) == AssignAll(next, pending[1..]);
      AssignAllLeavesSuffix(next, pending[1..]);
      SuffixOfTail(AssignAll(next, pending[1..]).remaining, pending);
    }
  }

  /** If anything stays queued after draining, no car can take its head. */
  lemma {:induction false} AssignAllStopsAtBlocked(cars: seq<CarState>, pending: seq<ElevatorRequest>)
    ensures var out := AssignAll(cars, pending);
            out.remaining != [] ==> ChooseCar(out.cars, out.remaining[0]).None?
    decreases |pending|
  {
    if pending != [] && ChooseCar(cars, pending[0]).Some? {
      var next := AssignOne(cars, pending[0]).value;
      assert AssignAll(cars, pending) == AssignAll(next, pending[1..]);
      AssignAllStopsAtBlocked(next, pending[1..]);
    }
  }

  /** A call some car can take goes to the nearest candidate `k`, and the
      drain goes on with the rest of the queue. */
  lemma AssignHead(cars: seq<CarState>, pending: seq<ElevatorRequest>, k: nat)
    requires pending != [] && ChooseCar(cars, pending[0]) == Some(k)
    ensures AssignAll(cars, pending) == AssignAll(cars[k := AssignTo(cars[k], pending[0].floor)], pending[1..])
  {
  }

  /** Assigned and still-queued calls together are the queue as it was.
      `Assigned` is the prefix in front of what stays queued, so this is
      `AssignAllLeavesSuffix` restated as a split of the queue; that the calls
      of this prefix were given to cars is `AssignHead` and
      `AssignedCallsAreQueued`. */
  lemma AssignedThenRemaining(cars: seq<CarState>, pending: seq<ElevatorRequest>)
    ensures |AssignAll(cars, pending).remaining| <= |pending|
    ensures Assigned(pending, AssignAll(cars, pending)) + AssignAll(cars, pending).remaining == pending
  {
    AssignAllLeavesSuffix(cars, pending);
  }

  /** A call no car can take leaves fleet and queue as they are. */
  lemma HeadOfLineBlocking(cars: seq<CarState>, pending: seq<ElevatorRequest>)
    requires pending != [] && ChooseCar(cars, pending[0]).None?
    ensures AssignAll(cars, pending) == Outcome(cars, pending)
  {
  }

  /** Draining again right away changes nothing. */
  lemma AssignAllIdempotent(cars: seq<CarState>, pending: seq<ElevatorRequest>)
    ensures var out := AssignAll(cars, pending);
            AssignAll(out.cars, out.remaining) == out
  {
    AssignAllStopsAtBlocked(cars, pending);
    var out := AssignAll(cars, pending);
    if out.remaining != [] {
      HeadOfLineBlocking(out.cars, out.remaining);
    }
  }

  /** Some car of the fleet has `floor` among its targets. */
  predicate Queued(cars: seq<CarState>, floor: int)
  {
    exists i :: 0 <= i < |cars| && floor in cars[i].targetFloors
  }

  lemma PrefixKeeps(s: seq<int>, t: seq<int>, x: int)
    requires s <= t && x in s
    ensures x in t
  {
    var i :| 0 <= i < |s| && s[i] == x;
    assert t[i] == x;
  }

  /** Every call taken off `pending` ahead of `remaining` has its floor
      among the targets of some car of `cars`. */
  predicate AllQueued(cars: seq<CarState>, pending: seq<ElevatorRequest>, remaining: seq<ElevatorRequest>)
  {
    forall j :: 0 <= j < |pending| - |remaining| ==> Queued(cars, pending[j].floor)
  }

  /** Every call taken off the queue has its floor among some car's targets. */
  lemma {:induction false} AssignedCallsAreQueued(cars: seq<CarState>, pending: seq<ElevatorRequest>)
    ensures var out := AssignAll(cars, pending);
            AllQueued(out.cars, pending, out.remaining)
    decreases |pending|
  {
    var out := AssignAll(cars, pending);
    if pending != [] && ChooseCar(cars, pending[0]).Some? {
      var k := ChooseCar(cars, pending[0]).value;
      var next := AssignOne(cars, pending[0]).value;
      assert out == AssignAll(next, pending[1..]);
      AssignedCallsAreQueued(next, pending[1..]);
      AssignAllExtendsCars(next, pending[1..]);
      AssignAllLeavesSuffix(next, pending[1..]);
      PrefixKeeps(next[k].targetFloors, out.cars[k].targetFloors, pending[0].floor);
      QueuedStep(out.cars, pending, out.remaining, k);
    }
  }

  /** One drain step: the head call's floor is queued on car `k`, and the
      later assigned calls are queued already. */
  lemma QueuedStep(cars: seq<CarState>, pending: seq<ElevatorRequest>, remaining: seq<ElevatorRequest>, k: nat)
    requires pending != [] && |remaining| < |pending| && k < |cars|
    requires pending[0].floor in cars[k].targetFloors
    requires AllQueued(cars, pending[1..], remaining)
    ensures AllQueued(cars, pending, remaining)
  {
    forall j | 0 <= j < |pending| - |remaining| ensures Queued(cars, pending[j].floor) {
      if j > 0 {
        assert pending[j] == pending[1..][j - 1];
      }
    }
  }

  /** A call taken off the front of `pending`, where `remaining` stays
      queued, is on `floor`. */
  predicate AskedBefore(pending: seq<ElevatorRequest>, remaining: seq<ElevatorRequest>, floor: int)
  {
    exists j :: 0 <= j < |pending| - |remaining| && pending[j].floor == floor
  }

  lemma AskedBehindHead(pending: seq<ElevatorRequest>, remaining: seq<ElevatorRequest>, floor: int)
    requires pending != [] && AskedBefore(pending[1..], remaining, floor)
    ensures AskedBefore(pending, remaining, floor)
  {
    var j :| 0 <= j < |pending[1..]| - |remaining| && pending[1..][j].floor == floor;
    assert pending[j + 1].floor == floor;
  }

  /** Every floor a car of `after` has and the same car of `before` lacks
      was asked for by a call taken off `pending` ahead of `remaining`. */
  predicate OnlyAskedAdded(before: seq<CarState>, after: seq<CarState>,
                           pending: seq<ElevatorRequest>, remaining: seq<ElevatorRequest>)
  {
    |after| == |before| &&
    forall i, f :: 0 <= i < |before| && f in after[i].targetFloors && f !in before[i].targetFloors ==>
      AskedBefore(pending, remaining, f)
  }

  /** Assignment adds no floor to a car that no assigned call asked for. */
  lemma {:induction false} NewTargetsComeFromAssignedCalls(cars: seq<CarState>, pending: seq<ElevatorRequest>)
    ensures var out := AssignAll(cars, pending);
            OnlyAskedAdded(cars, out.cars, pending, out.remaining)
    decreases |pending|
  {
    var out := AssignAll(cars, pending);
    if pending != [] && ChooseCar(cars, pending[0]).Some? {
      var k := ChooseCar(cars, pending[0]).value;
      var next := AssignOne(cars, pending[0]).value;
      assert out == AssignAll(next, pending[1..]);
      NewTargetsComeFromAssignedCalls(next, pending[1..]);
      AssignAllLeavesSuffix(next, pending[1..]);
      NewTargetsStep(cars, next, out.cars, pending, out.remaining, k);
    } else {
      assert out.cars == cars;
    }
  }

  /** One drain step: car `k` took the head call and the rest of the drain
      added only floors of later calls. */
  lemma NewTargetsStep(cars: seq<CarState>, next: seq<CarState>, final: seq<CarState>,
                       pending: seq<ElevatorRequest>, remaining: seq<ElevatorRequest>, k: nat)
    requires pending != [] && |remaining| < |pending| && k < |cars| == |next|
    requires forall i :: 0 <= i < |cars| && i != k ==> next[i] == cars[i]
    requires forall f :: f in next[k].targetFloors ==> f in cars[k].targetFloors || f == pending[0].floor
    requires OnlyAskedAdded(next, final, pending[1..], remaining)
    ensures OnlyAskedAdded(cars, final, pending, remaining)
  {
    forall i, f | 0 <= i < |cars| && f in final[i].targetFloors && f !in cars[i].targetFloors
      ensures AskedBefore(pending, remaining, f)
    {
      if f in next[i].targetFloors {
        assert i == k && pending[0].floor == f;
      } else {
        AskedBehindHead(pending, remaining, f);
      }
    }
  }

  /** Assignment keeps every car well formed: no duplicate targets, and a
      direction exactly when there are targets. */
  lemma {:induction false} AssignAllKeepsWellFormed(cars: seq<CarState>, pending: seq<ElevatorRequest>)
    requires forall i :: 0 <= i < |cars| ==> WellFormed(cars[i])
    ensures var out := AssignAll(cars, pending);
            forall i :: 0 <= i < |out.cars| ==> WellFormed(out.cars[i])
    decreases |pending|
  {
    if pending != [] && ChooseCar(cars, pending[0]).Some? {
      var next := AssignOne(cars, pending[0]).value;
      assert AssignAll(cars, pending) == AssignAll(next, pending[1..]);
      AssignAllKeepsWellFormed(next, pending[1..]);
    }
  }

  /** Car `c` after one tick: without targets it loses its direction; at its
      head target it dequeues it without moving and turns toward the next
      target, if any; otherwise it moves one floor toward the head target. */
  function StepCar(c: CarState): (c': CarState)
    ensures c'.id == c.id
    ensures c'.direction.None? <==> c'.targetFloors == []
    ensures c.targetFloors == [] ==> c' == c.(direction := None)
    ensures c.targetFloors != [] && c.currentFloor == c.targetFloors[0] ==>
      c'.currentFloor == c.currentFloor && c'.targetFloors == c.targetFloors[1..] &&
      (c'.targetFloors != [] ==> (c'.direction == Some(Up) <==> c'.targetFloors[0] > c.currentFloor))
    ensures c.targetFloors != [] && c.currentFloor != c.targetFloors[0] ==>
      c'.targetFloors == c.targetFloors &&
      Distance(c', c.targetFloors[0]) == Distance(c, c.targetFloors[0]) - 1 &&
      Distance(c', c.currentFloor) == 1 &&
      (c'.direction == Some(Up) <==> c'.currentFloor > c.currentFloor)
  {
    if c.targetFloors == [] then c.(direction := None)
    else
      var target := c.targetFloors[0];
      if c.currentFloor == target then
        var rest := c.targetFloors[1..];
        var direction := if rest != [] then Some(if rest[0] > c.currentFloor then Up else Down) else None;
        c.(targetFloors := rest, direction := direction)
      else
        var direction := if target > c.currentFloor then Up else Down;
        c.(direction := Some(direction), currentFloor := c.currentFloor + if direction == Up then 1 else -1)
  }

  /** One tick for the whole fleet: each car advances on its own state only. */
  function StepAll(cars: seq<CarState>): (cars': seq<CarState>)
    ensures |cars'| == |cars|
    ensures forall i :: 0 <= i < |cars| ==> cars'[i] == StepCar(cars[i])
  {
    seq(|cars|, i requires 0 <= i < |cars| => StepCar(cars[i]))
  }

  /** A tick keeps a car well formed. */
  lemma StepKeepsWellFormed(c: CarState)
    requires RouteHelper.Distinct(c.targetFloors)
    ensures WellFormed(StepCar(c))
  {
  }

  /** A tick keeps the whole fleet well formed. */
  lemma StepAllKeepsWellFormed(cars: seq<CarState>)
    requires FleetWellFormed(cars)
    ensures FleetWellFormed(StepAll(cars))
  {
    forall i | 0 <= i < |cars| ensures WellFormed(StepAll(cars)[i]) {
      StepKeepsWellFormed(cars[i]);
    }
  }

  /** The car's floor and targets all lie in `[1, floors]`. */
  predicate InBuilding(c: CarState, floors: int)
  {
    1 <= c.currentFloor <= floors && forall t :: t in c.targetFloors ==> 1 <= t <= floors
  }

  /** A car whose targets are all floors of the building never leaves it. */
  lemma StepStaysInBuilding(c: CarState, floors: int)
    requires InBuilding(c, floors)
    ensures InBuilding(StepCar(c), floors)
  {
    if c.targetFloors != [] {
      assert c.targetFloors[0] in c.targetFloors;
      assert forall t :: t in c.targetFloors[1..] ==> t in c.targetFloors;
    }
  }

  /** Car `c` after `n` ticks. */
  function StepTimes(c: CarState, n: nat): CarState
    decreases n
  {
    if n == 0 then c else StepTimes(StepCar(c), n - 1)
  }

  /** Distance(c, target) ticks bring a car to its head target without
      changing its targets; one tick more dequeues that target. */
  lemma {:induction false} ArrivesAfterDistance(c: CarState)
    requires c.targetFloors != []
    ensures var head := c.targetFloors[0];
            var there := StepTimes(c, Distance(c, head));
            there.currentFloor == head && there.targetFloors == c.targetFloors &&
            StepTimes(c, Distance(c, head) + 1).currentFloor == head &&
            StepTimes(c, Distance(c, head) + 1).targetFloors == c.targetFloors[1..]
    decreases Distance(c, c.targetFloors[0])
  {
    var head := c.targetFloors[0];
    if c.currentFloor != head {
      var c1 := StepCar(c);
      ArrivesAfterDistance(c1);
      assert StepTimes(c, Distance(c, head)) == StepTimes(c1, Distance(c1, head));
      assert StepTimes(c, Distance(c, head) + 1) == StepTimes(c1, Distance(c1, head) + 1);
    } else {
      assert StepTimes(c, 1) == StepTimes(StepCar(c), 0);
    }
  }
}
