/**
 * The program of vector_test.cpp as clients of Vectors.Vec, with what it
 * prints returned as sequences, plus push/erase/clear scenarios on the same
 * vector.
 */
module VectorTest {
  import opened Vectors

  /**
   * A vector built by pushing `vs` one element at a time into an empty one
   * holds exactly `vs`: no element is lost or duplicated by a growth step.
   * Its capacity is the one the growth rule predicts, and the growth steps
   * copied exactly as many elements as CopiesAfterPushes counts.
   */
  method FromPushes<T(0)>(vs: seq<T>) returns (v: Vec<T>)
    requires |vs| <= (SIZE_MAX - 1) / 2
    ensures fresh(v) && (v.data != null ==> fresh(v.data))
    ensures v.Valid() && v.Elements() == vs
    ensures v.len == |vs| && v.cap == CapacityAfterPushes(|vs|)
    ensures v.copies == CopiesAfterPushes(|vs|)
  {
    v := new Vec();
    var i := 0;
    while i < |vs|
      invariant 0 <= i <= |vs|
      invariant fresh(v) && (v.data != null ==> fresh(v.data))
      invariant v.Valid() && v.Elements() == vs[..i]
      invariant v.cap == CapacityAfterPushes(i)
      invariant v.copies == CopiesAfterPushes(i)
    {
      ghost var grows := i + 1 > v.cap;
      assert CapacityAfterPushes(i + 1) == if grows then NewCapacity(v.cap, i + 1) else v.cap;
      assert CopiesAfterPushes(i + 1) == v.copies + if grows then i else 0;
      v.PushBack(vs[i]);
      assert vs[..i + 1] == vs[..i] + [vs[i]];
      i := i + 1;
    }
    assert vs[..i] == vs;
  }

  /**
   * helper(Vec<int> b): `b` is passed by value, so it is a copy of the
   * argument; every element of the copy is incremented and then printed.
   * Returns the printed values; `a` itself is not changed.
   */
  method Helper(a: Vec<int>) returns (printed: seq<int>)
    requires a.Valid()
    ensures |printed| == a.len
    ensures forall k :: 0 <= k < a.len ==> printed[k] == a.Elements()[k] + 1
  {
    var b := new Vec.Copy(a);
    var i := 0;
    while i < b.Size()
      invariant 0 <= i <= b.len && b.len == a.len
      invariant b.Valid() && fresh(b) && fresh(b.data)
      invariant forall k :: 0 <= k < i ==> b.Elements()[k] == a.Elements()[k] + 1
      invariant forall k :: i <= k < b.len ==> b.Elements()[k] == a.Elements()[k]
    {
      b.SetAt(i, b.At(i) + 1);
      i := i + 1;
    }
    printed := [];
    i := 0;
    while i != b.Size()
      invariant 0 <= i <= b.len
      invariant printed == b.Elements()[..i]
    {
      printed := printed + [b.At(i)];
      i := i + 1;
    }
  }

  /**
   * test1(): pushes 0 .. 9, hands the vector to helper, then prints the
   * vector itself. Returns what helper printed and what test1 printed.
   */
  method TestOne() returns (fromHelper: seq<int>, fromTest: seq<int>)
    ensures fromHelper == [1, 2, 3, 4, 5, 6, 7, 8, 9, 10]
    ensures fromTest == [0, 1, 2, 3, 4, 5, 6, 7, 8, 9]
  {
    var a := new Vec<int>();
    var i := 0;
    while i != 10
      invariant 0 <= i <= 10
      invariant fresh(a) && (a.data != null ==> fresh(a.data))
      invariant a.Valid() && a.Elements() == seq(i, k => k)
      invariant a.cap == CapacityAfterPushes(i)
    {
      a.PushBack(i);
      i := i + 1;
    }
    fromHelper := Helper(a);
    assert fromHelper == seq(10, k => k + 1);
    fromTest := a.Elements();
  }

  /**
   * Pushing 0 .. 9 gives size 10; erasing index 3 returns 3, removes the
   * value 3, gives size 9 and keeps the capacity; clearing gives size and
   * capacity 0.
   */
  method PushEraseClear()
    returns (sizeAfterPush: nat, erasedAt: nat, afterErase: seq<int>, sizeAfterErase: nat,
             capKept: bool, sizeAfterClear: nat, capAfterClear: nat)
    ensures sizeAfterPush == 10
    ensures erasedAt == 3
    ensures afterErase == [0, 1, 2, 4, 5, 6, 7, 8, 9] && sizeAfterErase == 9
    ensures capKept
    ensures sizeAfterClear == 0 && capAfterClear == 0
  {
    var a := FromPushes([0, 1, 2, 3, 4, 5, 6, 7, 8, 9]);
    sizeAfterPush := a.Size();
    var capBefore := a.cap;
    erasedAt := a.Erase(3);
    afterErase, sizeAfterErase := a.Elements(), a.Size();
    capKept := a.cap == capBefore;
    a.Clear();
    sizeAfterClear, capAfterClear := a.Size(), a.cap;
  }

  /** push_back(x) followed by erase of the last index gives back the old elements. */
  method PushThenEraseLast<T(0)>(a: Vec<T>, x: T)
    requires a.Valid()
    requires a.len + 1 > a.cap ==> a.cap < (SIZE_MAX - 1) / 2
    modifies a, a.data
    ensures a.Valid() && a.Elements() == old(a.Elements())
  {
    ghost var before := a.Elements();
    a.PushBack(x);
    var pos := a.Erase(a.len - 1);
    RemoveAtUndoesInsert(before, |before|, x);
    assert before[..|before|] + [x] + before[|before|..] == before + [x];
  }
}
