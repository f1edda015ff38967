/**
 * The dispatcher of the web application: it owns the fleet and the queue of
 * pending hall calls, drains the queue into cars and moves the cars one floor
 * per tick. Each method is proved to change the cars and the queue exactly as
 * the functions of `Dispatch` say.
 */
module ServicesManager {
  import opened Wrappers
  import opened ElevatorModel
  import Dispatch

  class ElevatorManager {
    /** The number of floors, exposed read-only, like the service's `Floors`
        property. */
    const floors: int
    const elevatorCount: nat
    /** The fleet; the list itself is never replaced, only its cars change. */
    const elevators: seq<Elevator>
    /** The queue of calls not yet assigned, front first. */
    var pending: seq<ElevatorRequest>

    /** The fleet is the one the constructor built: ids 1 to elevatorCount in
        list order, so no car appears twice. */
    ghost predicate Valid()
    {
      |elevators| == elevatorCount &&
      forall i :: 0 <= i < |elevators| ==> elevators[i].id == i + 1
    }

    /** No car holds a target twice, and a car has a direction exactly when
        it has targets. */
    ghost predicate CarsWellFormed()
      reads elevators
    {
      Dispatch.FleetWellFormed(Cars())
    }

    /** The value of every car, in fleet order. */
    function Cars(): (cars: seq<CarState>)
      reads elevators
      ensures |cars| == |elevators|
      ensures forall i :: 0 <= i < |elevators| ==> cars[i] == elevators[i].State()
    {
      seq(|elevators|, i requires 0 <= i < |elevators| reads elevators => elevators[i].State())
    }

    /** `elevatorCount` new cars with ids 1..elevatorCount, all idle at floor 1,
        and an empty queue. */
    constructor (floors: int := 10, elevatorCount: nat := 4)
      ensures Valid()
      ensures this.floors == floors && this.elevatorCount == elevatorCount
      ensures forall i :: 0 <= i < |elevators| ==> fresh(elevators[i])
      ensures forall i :: 0 <= i < |elevators| ==> elevators[i].State() == CarState(i + 1, 1, None, [])
      ensures pending == []
      ensures CarsWellFormed()
    {
      var fleet: seq<Elevator> := [];
      var id := 1;
      while id <= elevatorCount
        invariant 1 <= id <= elevatorCount + 1
        invariant |fleet| == id - 1
        invariant forall j :: 0 <= j < |fleet| ==> fresh(fleet[j])
        invariant forall j :: 0 <= j < |fleet| ==> fleet[j].State() == CarState(j + 1, 1, None, [])
      {
        var car := new Elevator(id);
        fleet := fleet + [car];
        id := id + 1;
      }
      this.floors := floors;
      this.elevatorCount := elevatorCount;
      elevators := fleet;
      pending := [];
    }

    /** Queues a hall call at the back. */
    method ReceiveRequest(request: ElevatorRequest)
      modifies this
      ensures pending == old(pending) + [request]
      ensures Cars() == old(Cars())
    {
      pending := pending + [request];
    }

    /** The nearest candidate car for `request`, first in fleet order among
        equally near ones, or None when no car is a candidate. */
    method FindNearest(request: ElevatorRequest) returns (chosen: Option<nat>)
      ensures chosen == Dispatch.ChooseCar(Cars(), request)
    {
      chosen := None;
      var i := 0;
      while i < |elevators|
        invariant 0 <= i <= |elevators|
        invariant chosen == Dispatch.ChoosePrefix(Cars(), request, i)
      {
        var car := elevators[i].State();
        if Dispatch.IsCandidate(car, request) &&
           (chosen.None? ||
            Dispatch.Distance(car, request.floor) < Dispatch.Distance(elevators[chosen.value].State(), request.floor))
        {
          chosen := Some(i);
        }
        i := i + 1;
      }
    }

    /** Drains the queue front to back, giving each call to its nearest
        candidate car, and stops at the first call no car can take. */
    method AssignRequests()
      requires Valid()
      modifies this, elevators
      ensures Dispatch.Outcome(Cars(), pending) == Dispatch.AssignAll(old(Cars()), old(pending))
      ensures Dispatch.FleetWellFormed(old(Cars())) ==> Dispatch.FleetWellFormed(Cars())
    {
      ghost var goal := Dispatch.AssignAll(Cars(), pending);
      ghost var start, queued := Cars(), pending;
      while |pending| > 0
        invariant Dispatch.AssignAll(Cars(), pending) == goal
        decreases |pending|
      {
        var chosen := FindNearest(pending[0]);
        if chosen.Some? {
          ServeHead(chosen.value);
        } else {
          Dispatch.HeadOfLineBlocking(Cars(), pending);
          break;
        }
      }
      if Dispatch.FleetWellFormed(start) {
        Dispatch.AssignAllKeepsWellFormed(start, queued);
      }
    }

    /** The head call goes to its nearest candidate `k`, which takes it as
        `TakeCall` says, and leaves the queue; what the rest of the drain
        yields stays the same. */
    method ServeHead(k: nat)
      requires Valid() && pending != [] && Dispatch.ChooseCar(Cars(), pending[0]) == Some(k)
      modifies this, elevators[k]
      ensures Cars() == old(Cars())[k := Dispatch.AssignTo(old(Cars())[k], old(pending)[0].floor)]
      ensures pending == old(pending)[1..]
      ensures Dispatch.AssignAll(Cars(), pending) == Dispatch.AssignAll(old(Cars()), old(pending))
    {
      ghost var before := Cars();
      TakeCall(k, pending[0].floor);
      Dispatch.AssignHead(before, pending, k);
      pending := pending[1..];
    }

    /** The chosen car `k` takes a call on `floor`: the floor is queued unless
        already present, and a car with no direction turns toward it. */
    method TakeCall(k: nat, floor: int)
      requires Valid() && k < |elevators|
      modifies elevators[k]
      ensures Cars() == old(Cars())[k := Dispatch.AssignTo(old(Cars())[k], floor)]
    {
      var car := elevators[k];
      if floor !in car.targetFloors {
        car.targetFloors := car.targetFloors + [floor];
      }
      if car.direction == None {
        car.direction := Some(if floor > car.currentFloor then Up else Down);
      }
      assert forall j :: 0 <= j < |elevators| && j != k ==> elevators[j] != car;
    }

    /** Advances every car by one tick: a car without targets loses its
        direction, a car at its head target dequeues it, and any other car
        moves one floor toward its head target. */
    method Step()
      requires Valid()
      modifies elevators
      ensures Cars() == Dispatch.StepAll(old(Cars()))
      ensures pending == old(pending)
      ensures old(CarsWellFormed()) ==> CarsWellFormed()
    {
      ghost var before := Cars();
      var i := 0;
      while i < |elevators|
        invariant 0 <= i <= |elevators|
        invariant forall j :: 0 <= j < i ==> elevators[j].State() == Dispatch.StepCar(before[j])
        invariant forall j :: i <= j < |elevators| ==> elevators[j].State() == before[j]
      {
        Advance(i);
        i := i + 1;
      }
      assert Cars() == Dispatch.StepAll(before);
      if Dispatch.FleetWellFormed(before) {
        Dispatch.StepAllKeepsWellFormed(before);
      }
    }

    /** One tick for car `k`, the body of the tick loop. */
    method Advance(k: nat)
      requires Valid() && k < |elevators|
      modifies elevators[k]
      ensures Cars() == old(Cars())[k := Dispatch.StepCar(old(Cars())[k])]
    {
      var car := elevators[k];
      if |car.targetFloors| == 0 {
        car.direction := None;
      } else {
        var target := car.targetFloors[0];
        if car.currentFloor == target {
          car.targetFloors := car.targetFloors[1..];
          if |car.targetFloors| > 0 {
            var next := car.targetFloors[0];
            car.direction := Some(if next > car.currentFloor then Up else Down);
          } else {
            car.direction := None;
          }
        } else {
          car.direction := Some(if target > car.currentFloor then Up else Down);
          car.currentFloor := car.currentFloor + if car.direction == Some(Up) then 1 else -1;
        }
      }
      assert forall j :: 0 <= j < |elevators| && j != k ==> elevators[j] != car;
    }

    /** Snapshots of all cars, in id order: new objects with the cars' values. */
    method GetElevators() returns (snapshot: seq<Elevator>)
      requires Valid()
      ensures |snapshot| == |elevators|
      ensures forall i :: 0 <= i < |snapshot| ==> fresh(snapshot[i])
      ensures forall i :: 0 <= i < |snapshot| ==> snapshot[i].State() == elevators[i].State()
      ensures forall i :: 0 <= i < |snapshot| ==> snapshot[i].id == i + 1
    {
      snapshot := [];
      var i := 0;
      while i < |elevators|
        invariant 0 <= i <= |elevators|
        invariant |snapshot| == i
        invariant forall j :: 0 <= j < i ==> fresh(snapshot[j])
        invariant forall j :: 0 <= j < i ==> snapshot[j].State() == elevators[j].State()
      {
        var copy := new Elevator.Copy(elevators[i]);
        snapshot := snapshot + [copy];
        i := i + 1;
      }
    }

    /** The pending calls, front of the queue first. */
    method GetPendingRequests() returns (requests: seq<ElevatorRequest>)
      ensures requests == pending
    {
      requests := pending;
    }
  }
}
