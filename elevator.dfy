/**
 * The entities of the elevator system: the travel direction of a hall call,
 * the hall call itself, and the elevator car.
 *
 * A car is an object whose floor, direction and target queue are updated in
 * place by the dispatcher; `CarState` is its value, used by the
 * specification functions of the dispatcher and by snapshots.
 */
module ElevatorModel {
  import opened Wrappers

  /** The direction a hall call asks for, and the direction a car moves in. */
  datatype Direction = Up | Down

  /** A hall call: someone on `floor` wants to travel `direction`. */
  datatype ElevatorRequest = ElevatorRequest(floor: int, direction: Direction)

  /** The value of one car: its id, its floor, its direction (None when it has
      no direction) and its queue of target floors, head first. */
  datatype CarState = CarState(id: int, currentFloor: int, direction: Option<Direction>, targetFloors: seq<int>)

  /** A car with no targets, whatever its direction. */
  predicate Idle(c: CarState)
  {
    |c.targetFloors| == 0
  }

  class Elevator {
    /** Set once by a constructor; there is no setter. */
    const id: int
    var currentFloor: int
    var direction: Option<Direction>
    var targetFloors: seq<int>

    /** The car's current value. */
    function State(): (s: CarState)
      reads this
      ensures s.id == id && s.currentFloor == currentFloor
      ensures s.direction == direction && s.targetFloors == targetFloors
    {
      CarState(id, currentFloor, direction, targetFloors)
    }

    /** A car is idle exactly when its target queue is empty; the direction
        plays no part. */
    predicate IsIdle()
      reads this
      ensures IsIdle() <==> Idle(State())
    {
      targetFloors == []
    }

    /** A new car stands at floor 1 with no direction and no targets. */
    constructor (id: int)
      ensures this.id == id
      ensures State() == CarState(id, 1, None, [])
    {
      this.id := id;
      currentFloor := 1;
      direction := None;
      targetFloors := [];
    }

    /** A snapshot: a new car with the same value as `other`. Targets are a
        value, so updating the copy cannot change `other`. */
    constructor Copy(other: Elevator)
      ensures State() == other.State()
    {
      id := other.id;
      currentFloor := other.currentFloor;
      direction := other.direction;
      targetFloors := other.targetFloors;
    }
  }

  /** A snapshot taken with `Copy` and then given one more target: it has the
      original's id, floor and direction and the original's targets plus the
      floor. The original keeps its value because the method modifies only the
      fresh copy; that the targets are a value, not a shared queue, is what
      makes the copy's update leave `original.targetFloors` as it was. */
  method UpdateSnapshot(original: Elevator, floor: int) returns (copy: Elevator)
    ensures fresh(copy)
    ensures copy.id == original.id
    ensures copy.currentFloor == original.currentFloor && copy.direction == original.direction
    ensures copy.targetFloors == original.targetFloors + [floor]
    ensures original.State() == old(original.State())
  {
    copy := new Elevator.Copy(original);
    copy.targetFloors := copy.targetFloors + [floor];
  }
}
