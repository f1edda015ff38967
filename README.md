# Elevator dispatch, modelled in Dafny

TheElevator simulates a bank of elevators in a building. Hall calls arrive as
`ElevatorRequest`s (a floor and a direction, Up or Down). A singleton
`ElevatorManager` queues them. On every timer tick it does two things:

- `AssignRequests` drains the queue front to back. Each call goes to the
  nearest *candidate* car: a car that is idle, or one that moves the call's way
  and has not yet passed the call's floor.
- `Step` moves every car one floor toward the head of its target queue. A car
  that stands at its head target dequeues it instead of moving.

This project models that core:

- the `Elevator` entity (`elevator.dfy`);
- the route-ordering helper (`route_helper.dfy`);
- both copies of the dispatcher: the service in `Services/ElevatorManager.cs`
  (`services_manager.dfy`) and the logger-free copy in
  `Models/ElevatorManager.cs` (`models_manager.dfy`).

The dispatcher's logic is also stated on values, as the pure functions of the
`Dispatch` module (`dispatch.dfy`). Those functions are `ChooseCar`,
`AssignTo`, `AssignAll`, `StepCar` and `StepAll`. Each manager class keeps
its cars as `Elevator` objects, updated in place. Every method of the class is
proved to change those objects and the queue exactly as the functions say.
The properties of the dispatcher are proved as lemmas about the functions:

- the queue is only ever consumed from the front;
- draining stops at the first call no car can take;
- draining is idempotent;
- every assigned call's floor is queued on some car;
- no car gains a floor that no assigned call asked for;
- cars stay well formed and inside the building;
- a car reaches its head target after as many ticks as it is floors away.

`scenarios.dfy` holds proved scenarios that follow the repository's tests.

Where the repository's tests and its managers disagree, the model follows
the managers:

- `ElevatorSystem.Tests/ElevatorTest.cs:119-139` expects an identical call to
  be dropped when it is received, and `ElevatorSystem/Models/HallRequest.cs:7-8`
  gives a call a status and an assigned car. The managers do neither:
  `ReceiveRequest` queues every call, and a call carries only its floor and
  direction. The only duplicate the managers suppress is a floor already in the
  chosen car's targets (`ElevatorSystem/Services/ElevatorManager.cs:105-108`),
  and they append a new target at the back of the car's queue.
- `ElevatorRouteHelper` keeps stops sorted
  (`ElevatorSystem/Helper/ElevatorRouteHelper.cs:14-25`), but neither manager calls it.
  It is modelled on its own. `Scenarios.CallBehindFarTargetIsAppended` shows
  the dispatcher appending out of order.
- The tests in `ElevatorSystem.Tests/ElevatorTest.cs` call an API that the
  managers do not have: `ReceiveRequestAsync`, `SetElevatorState`,
  `GetAssignedRequests`, `OnloadingDelayInSeconds` and `HallRequest`. The
  scenarios reach the tests' fleet states through the real API where they
  can, and state the others as fleets of values.
- The Down test expects the first car's targets to be `[7, 6, 5]`. The code
  queues the calls in arrival order, `[5, 6, 7]`; see
  `Scenarios.DownCallsQueuedInArrivalOrder`.
- `Elevator.TargetFloors` is a `Queue<int>`, but the route helper and its tests
  use it as a `List<int>` (`Add`, `Sort`, `AddRange`). Both are modelled as a
  `seq<int>`, head first.
- `IsIdle` depends on the target queue only, so a car pointing Up or Down
  with no targets counts as idle. The managers' own methods never leave a car
  in that state: the constructor builds well-formed cars, and `AssignRequests`
  and `Step` keep every car well formed (a direction exactly when there are
  targets), by `Dispatch.AssignAllKeepsWellFormed` and
  `Dispatch.StepAllKeepsWellFormed`. The tests set that state up directly.
  The candidate test accepts every idle car whatever its direction, and the
  model keeps that.
- The route helper's tests call `InsertTargetFloorInDirectionOrder`; the
  helper's method is named `InsertFloorInDirectionOrder`, and the model uses
  that name.

## Model

| member | source | states |
|---|---|---|
| ElevatorModel.Elevator.IsIdle | ElevatorSystem/Models/Elevator.cs:11 | a car is idle exactly when its target queue is empty, whatever its direction |
| ElevatorModel.Elevator.constructor | ElevatorSystem/Models/Elevator.cs:5-16 | a new car has the given id, stands at floor 1, has no direction and no targets |
| ElevatorModel.Elevator.Copy | ElevatorSystem/Models/Elevator.cs:22-28 | the copy has the same id, floor, direction and targets as the original |
| ElevatorModel.UpdateSnapshot | ElevatorSystem/Models/Elevator.cs:27 | the snapshot has the original's id, floor and direction and its targets plus the new floor; the original keeps its value (the method modifies only the fresh copy, and targets are a value, not a shared queue) |
| RouteHelper.InsertSorted | ElevatorSystem/Helper/ElevatorRouteHelper.cs:16-25 | inserting into a list ordered for a direction keeps it ordered and adds exactly that one element |
| RouteHelper.SortFor | ElevatorSystem/Helper/ElevatorRouteHelper.cs:19-24 | sorting ascending (Up) or descending (Down) gives an ordered permutation of the list |
| RouteHelper.SortedPermutationUnique | ElevatorSystem/Helper/ElevatorRouteHelper.cs:19-24 | two lists ordered for the same direction with the same elements are equal, so the sort's result is determined |
| RouteHelper.InsertedInOrder | ElevatorSystem/Helper/ElevatorRouteHelper.cs:10-29 | a floor already present changes nothing; otherwise it is added exactly once, the list is ordered for Up or Down, appended when there is no direction, and stays duplicate-free |
| RouteHelper.SortedInsertSlotsIn | ElevatorSystem/Helper/ElevatorRouteHelper.cs:14-25 | on a list already ordered for the direction, append-then-sort is the same as inserting the floor into its slot |
| RouteHelper.InsertFloorInDirectionOrder | ElevatorSystem/Helper/ElevatorRouteHelper.cs:10-29 | the car's targets become `InsertedInOrder` of the old targets; floor and direction stay |
| RouteHelper.MaxOf | ElevatorSystem/Helper/ElevatorRouteHelper.cs:45 | the result is an element of the list and no element is larger |
| RouteHelper.MinOf | ElevatorSystem/Helper/ElevatorRouteHelper.cs:53 | the result is an element of the list and no element is smaller |
| RouteHelper.IsPassingFloor | ElevatorSystem/Helper/ElevatorRouteHelper.cs:35-58 | false without direction; moving Up, true exactly when the floor is above the car and at or below some target; moving Down, the mirror image |
| Dispatch.Distance | ElevatorSystem/Services/ElevatorManager.cs:104 | the sort key is the absolute difference of the car's floor and the call's floor |
| Dispatch.IsCandidate | ElevatorSystem/Services/ElevatorManager.cs:94-99 | the `Where` filter: a car is a candidate when it is idle, or moves the call's way and is at or before the call's floor (below it for Up, above it for Down); the same filter is ElevatorSystem/Models/ElevatorManager.cs:45-50. It is a predicate with no contract; its meaning is fixed by `ChooseCar`, which returns None exactly when no car satisfies it |
| Dispatch.ChoosePrefix | ElevatorSystem/Services/ElevatorManager.cs:94-104 | the scan over the first n cars yields the nearest candidate, first in fleet order among ties, and None exactly when none of them is a candidate |
| Dispatch.ChooseCar | ElevatorSystem/Services/ElevatorManager.cs:94-104 | the chosen car is a candidate, no farther than any candidate, strictly nearer than every earlier candidate; None exactly when no car is a candidate |
| Dispatch.ChooseCarIsNearest | ElevatorSystem/Services/ElevatorManager.cs:101-104 | ChooseCar picks car k if and only if k is the nearest candidate in that sense (the stable `OrderBy(...).First()`) |
| Dispatch.AssignTo | ElevatorSystem/Services/ElevatorManager.cs:105-113 | the floor ends up in the targets, added at the back only if absent; old targets, floor and id stay; a car without direction turns Up exactly when the floor is above it; well-formedness is kept |
| Dispatch.AssignOne | ElevatorSystem/Services/ElevatorManager.cs:91-118 | None exactly when no car is a candidate; otherwise only the chosen car changes, as AssignTo says |
| Dispatch.AssignAll | ElevatorSystem/Services/ElevatorManager.cs:89-123 | the `while`/`Peek`/`Dequeue` drain (ElevatorSystem/Models/ElevatorManager.cs:40-72 in the logger-free copy). It has no contract of its own; its properties are the `AssignAllExtendsCars`, `AssignAllLeavesSuffix`, `AssignAllStopsAtBlocked`, `AssignAllIdempotent`, `AssignAllKeepsWellFormed`, `AssignHead`, `HeadOfLineBlocking`, `AssignedCallsAreQueued` and `NewTargetsComeFromAssignedCalls` lemmas |
| Dispatch.AssignAllExtendsCars | ElevatorSystem/Services/ElevatorManager.cs:89-123 | draining keeps the number of cars, and every car keeps its id and floor and its old targets at the front |
| Dispatch.AssignAllLeavesSuffix | ElevatorSystem/Services/ElevatorManager.cs:89-123 | what stays queued is a suffix of the queue: calls only leave from the front |
| Dispatch.AssignAllStopsAtBlocked | ElevatorSystem/Services/ElevatorManager.cs:119-123 | if any call stays queued, no car is a candidate for the first of them |
| Dispatch.AssignHead | ElevatorSystem/Services/ElevatorManager.cs:101-115 | a head call with a nearest candidate k goes to k, and draining continues with the rest |
| Dispatch.AssignedThenRemaining | ElevatorSystem/Models/ElevatorManager.cs:40-72 | the assigned calls followed by the remaining calls are the original queue |
| Dispatch.HeadOfLineBlocking | ElevatorSystem/Services/ElevatorManager.cs:119-123 | a head call no car can take leaves fleet and queue unchanged, whatever is behind it |
| Dispatch.AssignAllIdempotent | ElevatorSystem/Services/ElevatorManager.cs:89-123 | draining again right after draining changes nothing |
| Dispatch.AssignedCallsAreQueued | ElevatorSystem/Services/ElevatorManager.cs:101-115 | the floor of every assigned call is among some car's targets afterwards |
| Dispatch.NewTargetsComeFromAssignedCalls | ElevatorSystem/Services/ElevatorManager.cs:105-108 | every floor a car gains during draining is the floor of an assigned call |
| Dispatch.AssignAllKeepsWellFormed | ElevatorSystem/Services/ElevatorManager.cs:105-113 | cars with duplicate-free targets and a direction exactly when they have targets keep both properties |
| Dispatch.StepCar | ElevatorSystem/Services/ElevatorManager.cs:138-173 | without targets the direction is cleared; at the head target it is dequeued without moving and the car turns toward the next one; otherwise the car moves one floor closer to the head target, its direction matching the move |
| Dispatch.StepAll | ElevatorSystem/Services/ElevatorManager.cs:136-174 | every car advances on its own state alone |
| Dispatch.StepKeepsWellFormed | ElevatorSystem/Services/ElevatorManager.cs:138-162 | a tick keeps targets duplicate-free and the direction set exactly when there are targets |
| Dispatch.StepAllKeepsWellFormed | ElevatorSystem/Services/ElevatorManager.cs:136-174 | a tick of the whole fleet keeps every car well formed |
| Dispatch.StepStaysInBuilding | ElevatorSystem/Services/ElevatorManager.cs:164-173 | a car whose floor and targets lie in the building stays in it |
| Dispatch.ArrivesAfterDistance | ElevatorSystem/Services/ElevatorManager.cs:144-173 | after as many ticks as the car is floors away it stands at its head target with its targets unchanged; one tick more dequeues it |
| ServicesManager.ElevatorManager.constructor | ElevatorSystem/Services/ElevatorManager.cs:59-67 | elevatorCount new cars with ids 1..elevatorCount, idle at floor 1 and well formed; default 10 floors and 4 cars; empty queue |
| ServicesManager.ElevatorManager.ReceiveRequest | ElevatorSystem/Services/ElevatorManager.cs:72-79 | the call joins the back of the queue; no car changes |
| ServicesManager.ElevatorManager.FindNearest | ElevatorSystem/Services/ElevatorManager.cs:94-104 | the loop returns ChooseCar of the fleet |
| ServicesManager.ElevatorManager.AssignRequests | ElevatorSystem/Services/ElevatorManager.cs:85-126 | cars and queue afterwards are AssignAll of cars and queue before; a well-formed fleet stays well formed |
| ServicesManager.ElevatorManager.ServeHead | ElevatorSystem/Services/ElevatorManager.cs:105-115 | car k becomes AssignTo of its old value with the head call's floor, no other car changes, the head call leaves the queue, and the rest of the drain yields what draining the old fleet and queue yields |
| ServicesManager.ElevatorManager.TakeCall | ElevatorSystem/Services/ElevatorManager.cs:105-113 | only car k changes, to AssignTo of its old value |
| ServicesManager.ElevatorManager.Step | ElevatorSystem/Services/ElevatorManager.cs:132-176 | the cars afterwards are StepAll of the cars before; the queue is unchanged; a well-formed fleet stays well formed |
| ServicesManager.ElevatorManager.Advance | ElevatorSystem/Services/ElevatorManager.cs:138-173 | only car k changes, to StepCar of its old value |
| ServicesManager.ElevatorManager.GetElevators | ElevatorSystem/Services/ElevatorManager.cs:181-188 | new car objects, one per car in fleet order, each with that car's value |
| ServicesManager.ElevatorManager.GetPendingRequests | ElevatorSystem/Services/ElevatorManager.cs:193-199 | the queued calls, front first |
| ModelsManager.ElevatorManager.constructor | ElevatorSystem/Models/ElevatorManager.cs:15-20 | elevatorCount new cars with ids 1..elevatorCount, idle at floor 1 and well formed; default 10 floors and 4 cars; empty queue |
| ModelsManager.ElevatorManager.ReceiveRequest | ElevatorSystem/Models/ElevatorManager.cs:25-31 | the call joins the back of the queue; no car changes |
| ModelsManager.ElevatorManager.FindNearest | ElevatorSystem/Models/ElevatorManager.cs:45-55 | the loop returns ChooseCar of the fleet |
| ModelsManager.ElevatorManager.AssignRequests | ElevatorSystem/Models/ElevatorManager.cs:36-74 | cars and queue afterwards are AssignAll of cars and queue before; a well-formed fleet stays well formed |
| ModelsManager.ElevatorManager.ServeHead | ElevatorSystem/Models/ElevatorManager.cs:56-65 | car k becomes AssignTo of its old value with the head call's floor, no other car changes, the head call leaves the queue, and the rest of the drain yields what draining the old fleet and queue yields |
| ModelsManager.ElevatorManager.TakeCall | ElevatorSystem/Models/ElevatorManager.cs:56-64 | only car k changes, to AssignTo of its old value |
| ModelsManager.ElevatorManager.Step | ElevatorSystem/Models/ElevatorManager.cs:80-116 | the cars afterwards are StepAll of the cars before; the queue is unchanged; a well-formed fleet stays well formed |
| ModelsManager.ElevatorManager.Advance | ElevatorSystem/Models/ElevatorManager.cs:86-113 | only car k changes, to StepCar of its old value |
| ModelsManager.ElevatorManager.GetElevators | ElevatorSystem/Models/ElevatorManager.cs:121-127 | new car objects, one per car in fleet order, each with that car's value |
| ModelsManager.ElevatorManager.GetPendingRequests | ElevatorSystem/Models/ElevatorManager.cs:132-138 | the queued calls, front first |
| Scenarios.UnsortedInsertExamples | ElevatorSystem/Helper/ElevatorRouteHelper.cs:12-27 | without direction 3 is appended to [2, 1]; inserting 2 into [2, 1] changes nothing |
| Scenarios.AscendingInsertBetween | ElevatorSystem.Tests/ElevatorRouteHelperTests.cs:21-30 | moving Up, a floor between two queued floors goes between them (5 into [3, 7]) |
| Scenarios.DescendingInsertBetween | ElevatorSystem.Tests/ElevatorRouteHelperTests.cs:32-41 | moving Down, a floor between two queued floors goes between them (5 into [7, 3]) |
| Scenarios.UpCallsGoToFirstCar | ElevatorSystem.Tests/ElevatorTest.cs:141-170 | with four cars at floor 1, calls Up above floor 1 all go to car 1 in arrival order; the other cars get nothing; nothing stays queued |
| Scenarios.DownCallsQueuedInArrivalOrder | ElevatorSystem.Tests/ElevatorTest.cs:172-201 | with cars at 8, 9, 10 and 1, calls Down at 5 to 8 all go to car 1 in arrival order (so [5, 6, 7], not the test's [7, 6, 5]); the other cars get nothing |
| Scenarios.CallBehindFarTargetIsAppended | ElevatorSystem/Services/ElevatorManager.cs:105-108 | a car going Up to 7 that takes a call at 5 queues it behind 7 |
| Scenarios.BlockedCallHoldsBackTheQueue | ElevatorSystem/Services/ElevatorManager.cs:119-123 | a call without candidate keeps a later call, that a car could take, in the queue |
| Scenarios.DefaultFleetLoads | ElevatorSystem.Tests/ElevatorTest.cs:141-170 | with the default fleet, four idle cars at floor 1, calls Up at 5, 6 and 7 all go to car 1 as [5, 6, 7], and nothing stays queued |
| Scenarios.LoadedDispatcher | ElevatorSystem/Services/ElevatorManager.cs:59-126 | the default dispatcher after receiving and assigning calls Up at 5, 6 and 7: car 1 holds [5, 6, 7] and moves Up, the queue is empty |
| Scenarios.OneTick | ElevatorSystem.Tests/ElevatorTest.cs:203-232 | one tick later car 1 is at floor 2 with targets [5, 6, 7] |
| Scenarios.FiveTicks | ElevatorSystem.Tests/ElevatorTest.cs:234-267 | five ticks later car 1 is at floor 5 with targets [6, 7], still moving Up; no call waits |
| Scenarios.SingleCallAssigned | ElevatorSystem/Models/ElevatorManager.cs:40-72 | a single idle car at floor 1 takes a call Up at 5 and turns Up |
| Scenarios.LoadedSingleCar | ElevatorSystem/Models/ElevatorManager.cs:15-74 | the one-car dispatcher after receiving and assigning that call holds [5] and moves Up |
| Scenarios.SingleCarServesCall | ElevatorSystem/Models/ElevatorManager.cs:80-116 | five ticks later that car is at 5 with no targets and no direction; no call waits |

## Left out

- Locking (`lock (_lock)`) and concurrency: the model runs every method alone,
  so the interleavings that the lock prevents never arise.
- Logging (`ILogger`, `Console.WriteLine`): it has no effect on state.
- The background tick service, the random hall-call generator, the
  controllers, the views and view models, `Program.cs` and dependency
  injection are not part of this model. The tick is a call to
  `AssignRequests` followed by `Step`, made by the caller.
- `HallRequest` with its status, and the test-only API used by
  `ElevatorTest.cs` (`ReceiveRequestAsync`, `SetElevatorState`,
  `GetAssignedRequests`, the onloading delay, duplicate suppression at
  intake): none of these exists in the modelled managers.
- 32-bit `int` arithmetic: floors and distances are unbounded integers, so the
  overflow of `Math.Abs(CurrentFloor - Floor)` and of `CurrentFloor += 1` near
  `int.MaxValue` is not modelled.
- A negative `elevatorCount`, for which `Enumerable.Range` throws: the count is
  a `nat`.
- `ElevatorRequest` is a mutable class in C# and the queue holds references to
  it. The model treats requests as values, so aliasing of a request that is
  changed after it was queued is not captured.
- `Floors` is exposed as the constant `floors`. Nothing in the managers
  checks floors against it. `Dispatch.StepStaysInBuilding` relates the two
  only for cars whose targets already lie in the building.
- `IsPassingFloor` is modelled, but neither manager calls it.
- `Elevator.TargetFloors` as a `Queue<int>` versus the helper's `List<int>`
  operations: both are one `seq<int>`.
- The tests' fleets with a car pointing Up or Down but holding no targets
  cannot be built through the managers' public methods. The scenarios
  state them as values (`Scenarios.GroundFleet` and `Scenarios.HighFleet`)
  and drain them with `Dispatch.AssignAll`, not with a manager object.
