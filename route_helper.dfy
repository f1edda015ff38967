/**
 * Route ordering for one car: inserting a floor into its target list in the
 * order its direction calls for, and deciding whether a floor lies ahead of
 * the car on its current run.
 */
module RouteHelper {
  import opened Wrappers
  import opened ElevatorModel

  /** `a` may stand before `b` in a list ordered for travel in direction `d`:
      ascending for Up, descending for Down. */
  predicate InOrder(d: Direction, a: int, b: int)
  {
    if d == Up then a <= b else a >= b
  }

  predicate SortedFor(d: Direction, s: seq<int>)
  {
    forall i, j :: 0 <= i < j < |s| ==> InOrder(d, s[i], s[j])
  }

  predicate Distinct(s: seq<int>)
  {
    forall i, j :: 0 <= i < j < |s| ==> s[i] != s[j]
  }

  /** Inserts `x` into a list already ordered for `d`. */
  function InsertSorted(d: Direction, s: seq<int>, x: int): (r: seq<int>)
    requires SortedFor(d, s)
    ensures SortedFor(d, r)
    ensures multiset(r) == multiset(s) + multiset{x}
  {
    if s == [] then [x]
    else if InOrder(d, x, s[0]) then [x] + s
    else
      var rest := InsertSorted(d, s[1..], x);
      assert s == [s[0]] + s[1..];
      HeadBeforeAll(d, s, x, rest);
      [s[0]] + rest
  }

  /** The head of an ordered list that `x` does not precede goes before every
      element of the list `rest` made of its tail and `x`. */
  lemma HeadBeforeAll(d: Direction, s: seq<int>, x: int, rest: seq<int>)
    requires s != [] && SortedFor(d, s) && !InOrder(d, x, s[0])
    requires multiset(rest) == multiset(s[1..]) + multiset{x}
    ensures forall j :: 0 <= j < |rest| ==> InOrder(d, s[0], rest[j])
  {
    forall j | 0 <= j < |rest| ensures InOrder(d, s[0], rest[j]) {
      assert rest[j] in multiset(rest);
      if rest[j] != x {
        assert rest[j] in s[1..];
      }
    }
  }

  /** Distinctness survives an insertion that keeps the multiset. */
  lemma DistinctByMultiset(s: seq<int>, x: int, r: seq<int>)
    requires Distinct(s) && x !in s
    requires multiset(r) == multiset(s) + multiset{x}
    ensures Distinct(r)
  {
    forall i, j | 0 <= i < j < |r| ensures r[i] != r[j] {
      var v := r[i];
      DistinctMultiplicity(s, v);
      assert multiset(s)[x] == 0;
      assert multiset(r)[v] <= 1;
      PairMultiplicity(r, i, j);
    }
  }

  lemma PairMultiplicity(r: seq<int>, i: int, j: int)
    requires 0 <= i < j < |r|
    ensures r[i] == r[j] ==> multiset(r)[r[i]] >= 2
  {
    var v := r[i];
    assert r == r[..i] + [v] + r[i + 1..j] + [r[j]] + r[j + 1..];
    assert multiset(r) == multiset(r[..i]) + multiset{v} + multiset(r[i + 1..j]) + multiset{r[j]} + multiset(r[j + 1..]);
  }

  lemma {:induction false} DistinctMultiplicity(s: seq<int>, v: int)
    requires Distinct(s)
    ensures multiset(s)[v] <= 1
  {
    if s != [] {
      var tail := s[1..];
      assert s == [s[0]] + tail;
      assert forall k :: 0 <= k < |tail| ==> tail[k] == s[k + 1];
      assert Distinct(tail);
      DistinctMultiplicity(tail, v);
      assert s[0] !in tail;
      assert multiset(tail)[s[0]] == 0;
    }
  }

  /** The list `s` sorted for direction `d` (what `List.Sort` produces: the
      result is a permutation of `s` in order, which for integers fixes it). */
  function SortFor(d: Direction, s: seq<int>): (r: seq<int>)
    ensures SortedFor(d, r)
    ensures multiset(r) == multiset(s)
  {
    if s == [] then []
    else
      var init, last := s[..|s| - 1], s[|s| - 1];
      assert s == init + [last];
      InsertSorted(d, SortFor(d, init), last)
  }

  /** Two lists ordered for the same direction that hold the same elements
      are equal, so `SortFor` is the one list `List.Sort` can produce. */
  lemma {:induction false} SortedPermutationUnique(d: Direction, a: seq<int>, b: seq<int>)
    requires SortedFor(d, a) && SortedFor(d, b)
    requires multiset(a) == multiset(b)
    ensures a == b
    decreases |a|
  {
    assert |a| == |multiset(a)| == |multiset(b)| == |b|;
    if a != [] {
      assert a[0] in multiset(b) && b[0] in multiset(a);
      HeadPrecedes(d, a, b[0]);
      HeadPrecedes(d, b, a[0]);
      assert a[0] == b[0];
      TailMultiset(a);
      TailMultiset(b);
      SortedTail(d, a);
      SortedTail(d, b);
      SortedPermutationUnique(d, a[1..], b[1..]);
    }
  }

  lemma TailMultiset(s: seq<int>)
    requires s != []
    ensures multiset(s[1..]) == multiset(s) - multiset{s[0]}
  {
    assert s == [s[0]] + s[1..];
  }

  lemma SortedTail(d: Direction, s: seq<int>)
    requires s != [] && SortedFor(d, s)
    ensures SortedFor(d, s[1..])
  {
    forall i, j | 0 <= i < j < |s| - 1 ensures InOrder(d, s[1..][i], s[1..][j]) {
      assert s[1..][i] == s[i + 1] && s[1..][j] == s[j + 1];
    }
  }

  /** The head of an ordered list may stand before each of its elements. */
  lemma HeadPrecedes(d: Direction, s: seq<int>, x: int)
    requires s != [] && SortedFor(d, s) && x in multiset(s)
    ensures InOrder(d, s[0], x)
  {
    var i :| 0 <= i < |s| && s[i] == x;
    if i > 0 {
      assert InOrder(d, s[0], s[i]);
    }
  }

  /** The target list after `InsertFloorInDirectionOrder`. */
  function InsertedInOrder(targets: seq<int>, direction: Option<Direction>, floor: int): (r: seq<int>)
    ensures floor in r
    ensures floor in targets ==> r == targets
    ensures floor !in targets ==> multiset(r) == multiset(targets) + multiset{floor} && |r| == |targets| + 1
    ensures floor !in targets && direction == Some(Up) ==> SortedFor(Up, r)
    ensures floor !in targets && direction == Some(Down) ==> SortedFor(Down, r)
    ensures floor !in targets && direction == None ==> r == targets + [floor]
    ensures Distinct(targets) ==> Distinct(r)
  {
    if floor in targets then targets
    else
      var appended := targets + [floor];
      assert multiset(appended) == multiset(targets) + multiset{floor};
      assert |multiset(appended)| == |appended|;
      assert floor in multiset(appended);
      match direction
      case Some(d) =>
        var r := SortFor(d, appended);
        assert |multiset(r)| == |r|;
        assert floor in multiset(r);
        assert Distinct(targets) ==> Distinct(r) by {
          if Distinct(targets) { DistinctByMultiset(targets, floor, r); }
        }
        r
      case None =>
        assert Distinct(targets) ==> Distinct(appended) by {
          if Distinct(targets) { DistinctByMultiset(targets, floor, appended); }
        }
        appended
  }

  /** On a list already in order for the car's direction, appending and
      sorting slots the new floor into its place. */
  lemma SortedInsertSlotsIn(targets: seq<int>, d: Direction, floor: int)
    requires SortedFor(d, targets) && floor !in targets
    ensures InsertedInOrder(targets, Some(d), floor) == InsertSorted(d, targets, floor)
  {
    SortedPermutationUnique(d, InsertedInOrder(targets, Some(d), floor), InsertSorted(d, targets, floor));
  }

  /** Adds `floor` to the car's targets unless it is already there; while the
      car moves Up the list is then sorted ascending, while it moves Down
      descending, and while it has no direction the floor is only appended. */
  method InsertFloorInDirectionOrder(elevator: Elevator, floor: int)
    modifies elevator
    ensures elevator.targetFloors == InsertedInOrder(old(elevator.targetFloors), old(elevator.direction), floor)
    ensures elevator.currentFloor == old(elevator.currentFloor)
    ensures elevator.direction == old(elevator.direction)
  {
    ghost var before := elevator.targetFloors;
    if floor !in elevator.targetFloors {
      elevator.targetFloors := elevator.targetFloors + [floor];
      if elevator.direction == Some(Up) {
        elevator.targetFloors := SortFor(Up, elevator.targetFloors);
      } else if elevator.direction == Some(Down) {
        elevator.targetFloors := SortFor(Down, elevator.targetFloors);
      }
    }
    assert elevator.targetFloors == InsertedInOrder(before, elevator.direction, floor);
  }

  function MaxOf(s: seq<int>): (m: int)
    requires s != []
    ensures m in s
    ensures forall x :: x in s ==> x <= m
  {
    if |s| == 1 then s[0]
    else
      var rest := MaxOf(s[1..]);
      assert s == [s[0]] + s[1..];
      if s[0] >= rest then s[0] else rest
  }

  function MinOf(s: seq<int>): (m: int)
    requires s != []
    ensures m in s
    ensures forall x :: x in s ==> m <= x
  {
    if |s| == 1 then s[0]
    else
      var rest := MinOf(s[1..]);
      assert s == [s[0]] + s[1..];
      if s[0] <= rest then s[0] else rest
  }

  /** Whether the car, on its current run, goes past or stops at
      `requestFloor`: strictly above its floor and no higher than its highest
      target when moving Up, strictly below and no lower than its lowest target
      when moving Down, and never when it has no direction. */
  function IsPassingFloor(elevator: Elevator, requestFloor: int): (b: bool)
    reads elevator
    ensures elevator.direction == None ==> !b
    ensures elevator.direction == Some(Up) ==>
      (b <==> elevator.currentFloor < requestFloor && exists t :: t in elevator.targetFloors && requestFloor <= t)
    ensures elevator.direction == Some(Down) ==>
      (b <==> requestFloor < elevator.currentFloor && exists t :: t in elevator.targetFloors && t <= requestFloor)
    ensures b ==> requestFloor != elevator.currentFloor && elevator.targetFloors != []
  {
    if elevator.direction == None then false
    else if elevator.direction == Some(Up) then
      var highest := if |elevator.targetFloors| > 0
                     then Max(elevator.currentFloor, MaxOf(elevator.targetFloors))
                     else elevator.currentFloor;
      requestFloor > elevator.currentFloor && requestFloor <= highest
    else
      var lowest := if |elevator.targetFloors| > 0
                    then Min(elevator.currentFloor, MinOf(elevator.targetFloors))
                    else elevator.currentFloor;
      requestFloor < elevator.currentFloor && requestFloor >= lowest
  }

  function Max(a: int, b: int): int { if a >= b then a else b }

  function Min(a: int, b: int): int { if a <= b then a else b }
}
