/**
 * Properties of the vector that span several operations, and worked
 * examples. Each is proved from the operations' contracts alone.
 */
module VectorScenarios {
  import Cursors
  import opened Vectors

  /** `push_back` followed by `pop_back` restores the contents. */
  method PushPopRestores(v: Vector, x: int)
    requires v.Valid() && v.size < MAX_SIZE
    modifies v, v.buf
    ensures v.Valid() && v.Elems() == old(v.Elems())
  {
    v.PushBack(x);
    v.PopBack();
  }

  /** `insert` of `count` copies followed by `erase` of the same range restores the contents. */
  method InsertEraseRestores(v: Vector, k: nat, count: SizeT, val: int)
    requires v.Valid() && k <= v.size && count <= Cursors.INT32_MAX
    requires InsertCapacity(v.capacity, v.size + count) <= MAX_SIZE
    modifies v, v.buf
    ensures v.Valid() && v.Elems() == old(v.Elems())
  {
    ghost var before := v.Elems();
    var it := v.InsertFill(Cursors.At(k), count, val);
    assert v.Elems()[..k] == before[..k];
    assert v.Elems()[k + count..] == before[k..];
    it := v.EraseRange(it, Cursors.Plus(it, count));
    assert v.Elems() == before[..k] + before[k..];
  }

  /** Checked access at `index == size` and beyond signals out-of-range; below it never does. */
  method AtExample() returns (last: Checked<int>, atSize: Checked<int>, beyond: Checked<int>)
    ensures last == Ok(3) && atSize == OutOfRange && beyond == OutOfRange
  {
    var v := new Vector.FromList([1, 2, 3]);
    last := v.CheckedAt(2);
    atSize := v.CheckedAt(3);
    beyond := v.CheckedAt(4);
  }

  /** On `[1,2,3]`, `insert(begin() + 1, 2, 9)` gives `[1,9,9,2,3]` and points at the first 9. */
  method InsertExample() returns (contents: seq<int>, it: Cursors.Cursor, first: int)
    ensures contents == [1, 9, 9, 2, 3]
    ensures it == Cursors.At(1) && first == 9
  {
    var v := new Vector.FromList([1, 2, 3]);
    it := v.InsertFill(Cursors.Plus(v.Begin(), 1), 2, 9);
    assert v.Elems() == [1] + [9, 9] + [2, 3];
    contents := v.buf[..v.size];
    first := Cursors.Deref(it, v.buf);
  }

  /** On `[1,2,3,4,5]`, `erase(begin() + 1, begin() + 3)` gives `[1,4,5]` and points at 4. */
  method EraseExample() returns (contents: seq<int>, it: Cursors.Cursor, next: int)
    ensures contents == [1, 4, 5]
    ensures it == Cursors.At(1) && next == 4
  {
    var v := new Vector.FromList([1, 2, 3, 4, 5]);
    it := v.EraseRange(Cursors.Plus(v.Begin(), 1), Cursors.Plus(v.Begin(), 3));
    assert v.Elems() == [1] + [4, 5];
    contents := v.buf[..v.size];
    next := Cursors.Deref(it, v.buf);
  }

  /**
   * On `[1,2,3]`, `v[1] = 9` gives `[1,9,3]`; `at(3) = 5` signals out-of-range
   * and changes nothing; `*begin() = 4` then gives `[4,9,3]`.
   */
  method WriteExample() returns (written: seq<int>, checked: Checked<()>, stored: seq<int>)
    ensures written == [1, 9, 3] && checked == OutOfRange && stored == [4, 9, 3]
  {
    var v := new Vector.FromList([1, 2, 3]);
    v.SetAt(1, 9);
    written := v.buf[..v.size];
    checked := v.CheckedSetAt(3, 5);
    Cursors.Store(v.Begin(), v.buf, 4);
    stored := v.buf[..v.size];
  }

  /**
   * `resize(5, 7)` on `[1,2]` gives `[1,2,7,7,7]`; `resize(1)` then gives `[1]`
   * and keeps the capacity.
   */
  method ResizeExample() returns (grown: seq<int>, shrunk: seq<int>, grownCapacity: nat, shrunkCapacity: nat)
    ensures grown == [1, 2, 7, 7, 7] && shrunk == [1]
    ensures grownCapacity == shrunkCapacity == 5
  {
    var v := new Vector.FromList([1, 2]);
    v.Resize(5, 7);
    assert v.Elems() == [1, 2] + [7, 7, 7];
    grown, grownCapacity := v.buf[..v.size], v.capacity;
    v.ResizeDefault(1);
    shrunk, shrunkCapacity := v.buf[..v.size], v.capacity;
  }

  /**
   * Growth by `push_back` from an empty vector: capacities 1, 2, 3, 4, 6
   * (one and a half times the old capacity, or the requested size).
   */
  method PushBackGrowthExample() returns (capacities: seq<nat>)
    ensures capacities == [1, 2, 3, 4, 6]
  {
    var v := new Vector();
    v.PushBack(10);
    var c1 := v.capacity;
    v.PushBack(20);
    var c2 := v.capacity;
    v.PushBack(30);
    var c3 := v.capacity;
    v.PushBack(40);
    var c4 := v.capacity;
    v.PushBack(50);
    capacities := [c1, c2, c3, c4, v.capacity];
  }

  /**
   * After `reserve(4)` on `[1,2]`, the move constructor hands the elements to
   * the new vector with capacity 2 (the old size) and leaves the source empty.
   */
  method MoveExample() returns (moved: seq<int>, movedCapacity: nat, sourceSize: nat, sourceCapacity: nat)
    ensures moved == [1, 2] && movedCapacity == 2
    ensures sourceSize == 0 && sourceCapacity == 0
  {
    var v := new Vector.FromList([1, 2]);
    v.Reserve(4);
    var w := new Vector.Move(v);
    moved, movedCapacity := w.buf[..w.size], w.capacity;
    sourceSize, sourceCapacity := v.size, v.capacity;
  }
}
