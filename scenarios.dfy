/**
 * Proved scenarios that follow the repository's tests: the route-ordering
 * examples of the helper's tests (stated for any floors in the same order),
 * the two test fleets draining sequences of calls, what appending and
 * head-of-line blocking do, and a dispatcher that assigns calls and then
 * ticks once or five times.
 */
module Scenarios {
  import opened Wrappers
  import opened ElevatorModel
  import RouteHelper
  import Dispatch
  import ServicesManager
  import ModelsManager

  /** With no direction the floor is appended; a floor already queued
      changes nothing. */
  lemma UnsortedInsertExamples()
    ensures RouteHelper.InsertedInOrder([2, 1], None, 3) == [2, 1, 3]
    ensures RouteHelper.InsertedInOrder([2, 1], None, 2) == [2, 1]
  {
  }

  /** Moving Up, a floor between two queued ones goes between them (as 5
      between 3 and 7). */
  lemma AscendingInsertBetween(low: int, floor: int, high: int)
    requires low < floor < high
    ensures RouteHelper.InsertedInOrder([low, high], Some(Up), floor) == [low, floor, high]
  {
    RouteHelper.SortedInsertSlotsIn([low, high], Up, floor);
    SlotBetween(Up, low, floor, high);
  }

  /** Moving Down, a floor between two queued ones goes between them (as 5
      between 7 and 3). */
  lemma DescendingInsertBetween(high: int, floor: int, low: int)
    requires high > floor > low
    ensures RouteHelper.InsertedInOrder([high, low], Some(Down), floor) == [high, floor, low]
  {
    RouteHelper.SortedInsertSlotsIn([high, low], Down, floor);
    SlotBetween(Down, high, floor, low);
  }

  /** Inserting into an ordered pair a floor strictly between them. */
  lemma SlotBetween(d: Direction, first: int, floor: int, last: int)
    requires first != floor && floor != last
    requires RouteHelper.InOrder(d, first, floor) && RouteHelper.InOrder(d, floor, last)
    requires RouteHelper.SortedFor(d, [first, last])
    ensures RouteHelper.InsertSorted(d, [first, last], floor) == [first, floor, last]
  {
    assert RouteHelper.InsertSorted(d, [last], floor) == [floor, last];
    assert [first, last][1..] == [last];
  }

  /** The head call goes to the nearest candidate `k`, which becomes `c'`. */
  lemma TakesHead(cars: seq<CarState>, calls: seq<ElevatorRequest>, k: nat, c': CarState)
    requires calls != [] && Dispatch.IsNearest(cars, calls[0], |cars|, k)
    requires Dispatch.AssignTo(cars[k], calls[0].floor) == c'
    ensures Dispatch.AssignAll(cars, calls) == Dispatch.AssignAll(cars[k := c'], calls[1..])
  {
    Dispatch.ChooseCarIsNearest(cars, calls[0], k);
    Dispatch.AssignHead(cars, calls, k);
  }

  function UpCall(floor: int): ElevatorRequest { ElevatorRequest(floor, Up) }

  function DownCall(floor: int): ElevatorRequest { ElevatorRequest(floor, Down) }

  /** The floors of `calls`, in queue order. */
  function FloorsOf(calls: seq<ElevatorRequest>): (floors: seq<int>)
    ensures |floors| == |calls|
    ensures forall i :: 0 <= i < |calls| ==> floors[i] == calls[i].floor
  {
    if calls == [] then [] else [calls[0].floor] + FloorsOf(calls[1..])
  }

  /** Four cars at floor 1, the first one holding `targets` and moving Up
      when it has any, the third one pointing `third` without targets. */
  function GroundFleet(targets: seq<int>, third: Option<Direction>): seq<CarState>
  {
    [CarState(1, 1, if targets == [] then None else Some(Up), targets), CarState(2, 1, None, []),
     CarState(3, 1, third, []), CarState(4, 1, None, [])]
  }

  /** The first car of `GroundFleet` is the nearest candidate for a call Up
      above floor 1, and queues it. */
  lemma {:induction false} GroundFleetTakes(targets: seq<int>, third: Option<Direction>, calls: seq<ElevatorRequest>)
    requires calls != [] && calls[0].direction == Up && calls[0].floor > 1 && calls[0].floor !in targets
    ensures Dispatch.AssignAll(GroundFleet(targets, third), calls) ==
            Dispatch.AssignAll(GroundFleet(targets + [calls[0].floor], third), calls[1..])
  {
    GroundNearest(targets, third, calls[0]);
    GroundQueues(targets, third, calls[0].floor);
    var cars := GroundFleet(targets, third);
    TakesHead(cars, calls, 0, Dispatch.AssignTo(cars[0], calls[0].floor));
  }

  lemma GroundNearest(targets: seq<int>, third: Option<Direction>, r: ElevatorRequest)
    requires r.direction == Up && r.floor > 1
    ensures Dispatch.IsNearest(GroundFleet(targets, third), r, 4, 0)
  {
    var cars := GroundFleet(targets, third);
    forall j | 0 <= j < 4 ensures Dispatch.Distance(cars[j], r.floor) == r.floor - 1 {
      assert cars[j].currentFloor == 1;
    }
    assert Dispatch.IsCandidate(cars[0], r);
  }

  lemma GroundQueues(targets: seq<int>, third: Option<Direction>, floor: int)
    requires floor > 1 && floor !in targets
    ensures var cars := GroundFleet(targets, third);
            cars[0 := Dispatch.AssignTo(cars[0], floor)] == GroundFleet(targets + [floor], third)
  {
    var cars := GroundFleet(targets, third);
    assert Dispatch.AssignTo(cars[0], floor) == CarState(1, 1, Some(Up), targets + [floor]);
  }

  /** The first car of `HighFleet` is the nearest candidate for a call Down
      at floors 5 to 8, and queues it. */
  lemma {:induction false} HighFleetTakes(targets: seq<int>, calls: seq<ElevatorRequest>)
    requires calls != [] && calls[0].direction == Down && 5 <= calls[0].floor <= 8 && calls[0].floor !in targets
    ensures Dispatch.AssignAll(HighFleet(targets), calls) == Dispatch.AssignAll(HighFleet(targets + [calls[0].floor]), calls[1..])
  {
    HighNearest(targets, calls[0]);
    HighQueues(targets, calls[0].floor);
    var cars := HighFleet(targets);
    TakesHead(cars, calls, 0, Dispatch.AssignTo(cars[0], calls[0].floor));
  }

  lemma HighNearest(targets: seq<int>, r: ElevatorRequest)
    requires r.direction == Down && 5 <= r.floor <= 8
    ensures Dispatch.IsNearest(HighFleet(targets), r, 4, 0)
  {
    var cars := HighFleet(targets);
    var f := r.floor;
    assert Dispatch.Distance(cars[0], f) == 8 - f && Dispatch.Distance(cars[1], f) == 9 - f;
    assert Dispatch.Distance(cars[2], f) == 10 - f && Dispatch.Distance(cars[3], f) == f - 1;
    assert Dispatch.IsCandidate(cars[0], r);
  }

  lemma HighQueues(targets: seq<int>, floor: int)
    requires 5 <= floor <= 8 && floor !in targets
    ensures var cars := HighFleet(targets);
            cars[0 := Dispatch.AssignTo(cars[0], floor)] == HighFleet(targets + [floor])
  {
    var cars := HighFleet(targets);
    assert Dispatch.AssignTo(cars[0], floor) == CarState(1, 8, Some(Down), targets + [floor]);
  }

  /** Moving the head of the calls onto the targets keeps the joined list. */
  lemma ShiftHead(targets: seq<int>, calls: seq<ElevatorRequest>)
    requires calls != [] && RouteHelper.Distinct(targets + FloorsOf(calls))
    ensures calls[0].floor !in targets
    ensures (targets + [calls[0].floor]) + FloorsOf(calls[1..]) == targets + FloorsOf(calls)
  {
    var all := targets + FloorsOf(calls);
    assert calls[0].floor == all[|targets|];
    forall i | 0 <= i < |targets| ensures targets[i] != calls[0].floor {
      assert targets[i] == all[i];
    }
  }

  /** Calls Up above floor 1 at floors not yet queued all go to the first
      car of a fleet standing at floor 1, which queues them in arrival order;
      the other cars stay idle. */
  lemma {:induction false} UpCallsGoToFirstCar(targets: seq<int>, third: Option<Direction>, calls: seq<ElevatorRequest>)
    requires forall i :: 0 <= i < |calls| ==> calls[i].direction == Up && calls[i].floor > 1
    requires RouteHelper.Distinct(targets + FloorsOf(calls))
    ensures Dispatch.AssignAll(GroundFleet(targets, third), calls) ==
            Dispatch.Outcome(GroundFleet(targets + FloorsOf(calls), third), [])
    decreases |calls|
  {
    if calls == [] {
      assert targets + FloorsOf(calls) == targets;
    } else {
      ShiftHead(targets, calls);
      GroundFleetTakes(targets, third, calls);
      UpCallsGoToFirstCar(targets + [calls[0].floor], third, calls[1..]);
    }
  }

  /** Calls Down at floors 5 to 8 not yet queued all go to the first of
      four cars standing at floors 8, 9, 10 (pointing Down) and 1, which
      queues them in arrival order (so for calls at 5, 6 and 7 it heads down
      to 5 first, passing 7 and 6). */
  lemma {:induction false} DownCallsQueuedInArrivalOrder(targets: seq<int>, calls: seq<ElevatorRequest>)
    requires forall i :: 0 <= i < |calls| ==> calls[i].direction == Down && 5 <= calls[i].floor <= 8
    requires RouteHelper.Distinct(targets + FloorsOf(calls))
    ensures Dispatch.AssignAll(HighFleet(targets), calls) == Dispatch.Outcome(HighFleet(targets + FloorsOf(calls)), [])
    decreases |calls|
  {
    if calls == [] {
      assert targets + FloorsOf(calls) == targets;
    } else {
      ShiftHead(targets, calls);
      HighFleetTakes(targets, calls);
      DownCallsQueuedInArrivalOrder(targets + [calls[0].floor], calls[1..]);
    }
  }

  /** Cars at floors 8, 9, 10 and 1, the first one holding `targets` and
      moving Down when it has any, the third one pointing Down. */
  function HighFleet(targets: seq<int>): seq<CarState>
  {
    [CarState(1, 8, if targets == [] then None else Some(Down), targets), CarState(2, 9, None, []),
     CarState(3, 10, Some(Down), []), CarState(4, 1, None, [])]
  }

  /** A car moving Up that takes a call below its last target queues it at
      the back: the dispatcher appends and does not reorder. */
  lemma CallBehindFarTargetIsAppended()
    ensures Dispatch.AssignAll([CarState(1, 1, Some(Up), [7])], [UpCall(5)]) ==
            Dispatch.Outcome([CarState(1, 1, Some(Up), [7, 5])], [])
  {
    var cars := [CarState(1, 1, Some(Up), [7])];
    Dispatch.ChooseCarIsNearest(cars, UpCall(5), 0);
    Dispatch.AssignHead(cars, [UpCall(5)], 0);
    assert Dispatch.AssignTo(cars[0], 5) == CarState(1, 1, Some(Up), [7, 5]);
    assert [UpCall(5)][1..] == [];
  }

  /** A call Down below the only car, which moves Up, has no candidate, so
      it stays queued and holds back the call Up at 5 behind it, which that
      car could take. */
  lemma BlockedCallHoldsBackTheQueue()
    ensures Dispatch.AssignAll([CarState(1, 3, Some(Up), [7])], [DownCall(2), UpCall(5)]) ==
            Dispatch.Outcome([CarState(1, 3, Some(Up), [7])], [DownCall(2), UpCall(5)])
    ensures Dispatch.ChooseCar([CarState(1, 3, Some(Up), [7])], UpCall(5)) == Some(0)
  {
    var cars := [CarState(1, 3, Some(Up), [7])];
    assert !Dispatch.IsCandidate(cars[0], DownCall(2));
    Dispatch.HeadOfLineBlocking(cars, [DownCall(2), UpCall(5)]);
    Dispatch.ChooseCarIsNearest(cars, UpCall(5), 0);
  }

  /** Calls Up at 5, 6 and 7 all go to the first car of the default fleet. */
  lemma DefaultFleetLoads()
    ensures Dispatch.AssignAll(GroundFleet([], None), [UpCall(5), UpCall(6), UpCall(7)]) ==
            Dispatch.Outcome(GroundFleet([5, 6, 7], None), [])
  {
    var calls := [UpCall(5), UpCall(6), UpCall(7)];
    assert [] + FloorsOf(calls) == [5, 6, 7];
    UpCallsGoToFirstCar([], None, calls);
  }

  /** The default dispatcher after receiving calls Up at 5, 6 and 7 and
      assigning them: the first car holds all three, the queue is empty. */
  method LoadedDispatcher() returns (manager: ServicesManager.ElevatorManager)
    ensures fresh(manager) && forall i :: 0 <= i < |manager.elevators| ==> fresh(manager.elevators[i])
    ensures manager.Valid() && manager.pending == []
    ensures manager.Cars() == GroundFleet([5, 6, 7], None)
  {
    manager := new ServicesManager.ElevatorManager();
    manager.ReceiveRequest(UpCall(5));
    manager.ReceiveRequest(UpCall(6));
    manager.ReceiveRequest(UpCall(7));
    assert manager.pending == [UpCall(5), UpCall(6), UpCall(7)];
    assert manager.Cars() == GroundFleet([], None);
    DefaultFleetLoads();
    manager.AssignRequests();
    assert Dispatch.Outcome(manager.Cars(), manager.pending) == Dispatch.Outcome(GroundFleet([5, 6, 7], None), []);
  }

  /** One tick of the loaded dispatcher moves the first car from floor 1 to
      2, its targets unchanged. */
  method OneTick() returns (first: CarState)
    ensures first == CarState(1, 2, Some(Up), [5, 6, 7])
  {
    var manager := LoadedDispatcher();
    manager.Step();
    var snapshot := manager.GetElevators();
    first := snapshot[0].State();
  }

  /** The loaded dispatcher ticks five times: the first car climbs to 5 in
      four ticks and dequeues it on the fifth, still going Up to 6 and then
      7; no call waits. */
  method FiveTicks() returns (first: CarState, waiting: seq<ElevatorRequest>)
    ensures first == CarState(1, 5, Some(Up), [6, 7])
    ensures waiting == []
  {
    var manager := LoadedDispatcher();
    var ticks := 0;
    while ticks < 4
      invariant 0 <= ticks <= 4
      invariant manager.Valid() && manager.pending == []
      invariant forall i :: 0 <= i < |manager.elevators| ==> fresh(manager.elevators[i])
      invariant manager.Cars()[0] == CarState(1, 1 + ticks, Some(Up), [5, 6, 7])
    {
      manager.Step();
      ticks := ticks + 1;
    }
    manager.Step();
    assert manager.Cars()[0] == CarState(1, 5, Some(Up), [6, 7]);
    var snapshot := manager.GetElevators();
    first := snapshot[0].State();
    waiting := manager.GetPendingRequests();
  }

  /** A single idle car at floor 1 takes a call Up at 5 and turns Up. */
  lemma SingleCallAssigned()
    ensures Dispatch.AssignAll([CarState(1, 1, None, [])], [UpCall(5)]) ==
            Dispatch.Outcome([CarState(1, 1, Some(Up), [5])], [])
  {
    var idle := [CarState(1, 1, None, [])];
    var loaded := [CarState(1, 1, Some(Up), [5])];
    Dispatch.ChooseCarIsNearest(idle, UpCall(5), 0);
    Dispatch.AssignHead(idle, [UpCall(5)], 0);
    assert idle[0].targetFloors + [5] == [5];
    assert Dispatch.AssignTo(idle[0], 5) == loaded[0];
    assert idle[0 := loaded[0]] == loaded;
    assert [UpCall(5)][1..] == [];
  }

  /** A one-car dispatcher that received a call Up at 5 and assigned it. */
  method LoadedSingleCar() returns (manager: ModelsManager.ElevatorManager)
    ensures fresh(manager) && forall i :: 0 <= i < |manager.elevators| ==> fresh(manager.elevators[i])
    ensures manager.Valid() && manager.pending == []
    ensures manager.Cars() == [CarState(1, 1, Some(Up), [5])]
  {
    manager := new ModelsManager.ElevatorManager(10, 1);
    manager.ReceiveRequest(UpCall(5));
    assert manager.pending == [UpCall(5)];
    assert manager.Cars() == [CarState(1, 1, None, [])];
    SingleCallAssigned();
    manager.AssignRequests();
    assert Dispatch.Outcome(manager.Cars(), manager.pending) == Dispatch.Outcome([CarState(1, 1, Some(Up), [5])], []);
  }

  /** After five ticks the car of `LoadedSingleCar` stands at 5 with nothing
      left to do and no direction. */
  method SingleCarServesCall() returns (car: CarState, waiting: seq<ElevatorRequest>)
    ensures car == CarState(1, 5, None, [])
    ensures waiting == []
  {
    var manager := LoadedSingleCar();
    var ticks := 0;
    while ticks < 4
      invariant 0 <= ticks <= 4
      invariant manager.Valid() && manager.pending == []
      invariant forall i :: 0 <= i < |manager.elevators| ==> fresh(manager.elevators[i])
      invariant manager.Cars()[0] == CarState(1, 1 + ticks, Some(Up), [5])
    {
      manager.Step();
      ticks := ticks + 1;
    }
    manager.Step();
    assert manager.Cars()[0] == CarState(1, 5, None, []);
    var snapshot := manager.GetElevators();
    car := snapshot[0].State();
    waiting := manager.GetPendingRequests();
  }
}
