/**
 * The growable contiguous array `Vector<T>`, with `int` elements.
 *
 * A vector owns one buffer. Its first `size` slots hold the live elements and
 * `capacity` is the number of slots the vector accounts for. The two usually
 * agree with the buffer's length, but the move constructor takes over a
 * buffer while recording the source's size as the capacity, so the model
 * keeps `capacity` as its own field with `capacity <= buf.Length`.
 * Cursors into the vector are offsets from the start of its buffer:
 * `Begin()` is offset 0 and `End()` is offset `size`.
 */
module Vectors {
  import opened Cursors

  /** `max_size()`: the largest `size_t`. */
  const MAX_SIZE: nat := 0xFFFF_FFFF_FFFF_FFFF
  type SizeT = n: nat | n <= MAX_SIZE

  /** The outcome of the checked access `at`: a value, or `std::out_of_range`. */
  datatype Checked<T> = Ok(value: T) | OutOfRange

  /** `n` copies of `v`. */
  function Repeat(v: int, n: nat): (r: seq<int>)
    ensures |r| == n
    ensures forall i :: 0 <= i < n ==> r[i] == v
  {
    seq(n, _ => v)
  }

  /** A cursor pair `[beg, end)` over `src` whose `int` length does not wrap. */
  predicate ValidRange(src: array<int>, beg: Cursor, end: Cursor)
  {
    && beg.At? && end.At?
    && 0 <= beg.offset <= end.offset <= src.Length
    && end.offset - beg.offset <= INT32_MAX
  }

  // ----- Growth policies -----

  /**
   * `growTo`: the capacity `reallocate` asks for when `count` slots are needed.
   * It is at least `count`, at least 1.5 times the old capacity when that does
   * not overflow `size_t`, and never more than the larger of the two.
   */
  function GrowTo(cap: SizeT, count: SizeT): (r: SizeT)
    ensures count <= r
    ensures cap + cap / 2 <= MAX_SIZE ==> cap + cap / 2 <= r
    ensures r == count || (r == cap + cap / 2 && cap + cap / 2 <= MAX_SIZE)
  {
    var grown := if MAX_SIZE - cap / 2 < cap then 0 else cap + cap / 2;
    if grown < count then count else grown
  }

  /** One pass of the doubling loop in `insert`, as written: `_capacity *= 2`. */
  function DoubleAsWritten(cap: nat): nat
  {
    cap * 2
  }

  /** The capacity after `k` passes of the doubling loop as written. */
  function DoublingsAsWritten(cap: nat, k: nat): nat
  {
    if k == 0 then cap else DoubleAsWritten(DoublingsAsWritten(cap, k - 1))
  }

  /**
   * From capacity 0 the loop as written never reaches a positive requirement:
   * `insert` of at least one element into a vector without a buffer never ends.
   */
  lemma {:induction false} DoublingFromZeroNeverFits(need: nat, k: nat)
    requires 0 < need
    ensures DoublingsAsWritten(0, k) == 0 < need
  {
    if k > 0 {
      DoublingFromZeroNeverFits(need, k - 1);
    }
  }

  /** One pass of the doubling loop as intended: an empty buffer grows to one slot. */
  function GrowStep(cap: nat): (r: nat)
    ensures cap < r
    ensures 0 < cap ==> r == DoubleAsWritten(cap)
  {
    if cap == 0 then 1 else cap * 2
  }

  /**
   * The capacity the corrected doubling loop of `insert` ends with when `need`
   * slots are required: unchanged when they fit, otherwise the first doubling
   * that fits, which is below twice the requirement.
   */
  function InsertCapacity(cap: nat, need: nat): (r: nat)
    ensures cap <= r && need <= r
    ensures need <= cap ==> r == cap
    ensures cap < need ==> r < 2 * need
    decreases need - cap
  {
    if need <= cap then cap else InsertCapacity(GrowStep(cap), need)
  }

  /** The capacity the doubling loop of `insert` ends with, as written, from a nonzero capacity. */
  function AsWrittenLoop(cap: nat, need: nat): nat
    requires 0 < cap
    decreases need - cap
  {
    if need <= cap then cap else AsWrittenLoop(DoubleAsWritten(cap), need)
  }

  /** On every nonzero capacity the corrected loop ends where the loop as written does. */
  lemma {:induction false} InsertCapacityAsWritten(cap: nat, need: nat)
    requires 0 < cap
    ensures InsertCapacity(cap, need) == AsWrittenLoop(cap, need)
    decreases need - cap
  {
    if need > cap {
      InsertCapacityAsWritten(GrowStep(cap), need);
    }
  }

  /** `s` is `pre`, then `mid`, then `post`. */
  lemma Splice(s: seq<int>, pre: seq<int>, mid: seq<int>, post: seq<int>)
    requires |s| == |pre| + |mid| + |post|
    requires s[..|pre|] == pre
    requires forall m :: 0 <= m < |mid| ==> s[|pre| + m] == mid[m]
    requires s[|pre| + |mid|..] == post
    ensures s == pre + mid + post
  {
    var t := pre + mid + post;
    forall m | 0 <= m < |s|
      ensures s[m] == t[m]
    {
      if m < |pre| {
        assert s[m] == s[..|pre|][m];
      } else if m < |pre| + |mid| {
        assert s[|pre| + (m - |pre|)] == mid[m - |pre|];
      } else {
        assert s[m] == s[|pre| + |mid|..][m - |pre| - |mid|];
      }
    }
  }

  /**
   * The shift of `insert`: for `j` from `n - 1` down to `k`,
   * `data[j + count] := temp[j]`, where `data` is `temp` itself (no growth)
   * or the fresh buffer. Walking down keeps the in-place case correct.
   */
  method ShiftRight(temp: array<int>, data: array<int>, k: nat, n: nat, count: nat)
    requires k <= n <= temp.Length && n + count <= data.Length
    modifies data
    ensures data[..k] == old(data[..k])
    ensures data[k + count..n + count] == old(temp[k..n])
  {
    ghost var src := temp[..n];
    ghost var pre := data[..k];
    var j := n;
    while j > k
      invariant k <= j <= n
      invariant forall m :: 0 <= m < k ==> data[m] == pre[m]
      invariant forall m :: 0 <= m < j ==> temp[m] == src[m]
      invariant forall m :: j + count <= m < n + count ==> data[m] == src[m - count]
      decreases j
    {
      j := j - 1;
      data[j + count] := temp[j];
    }
    assert data[..k] == pre;
    assert data[k + count..n + count] == src[k..n];
  }

  /**
   * The shift of `erase`: `*first++ = *last++` until `last` reaches `end`;
   * the elements from `last` move down over `[first, last)`.
   */
  method ShiftLeft(a: array<int>, first: Cursor, last: Cursor, end: Cursor)
    requires first.At? && last.At? && end.At?
    requires 0 <= first.offset <= last.offset <= end.offset <= a.Length
    modifies a
    ensures a[..end.offset - (last.offset - first.offset)] == old(a[..first.offset]) + old(a[last.offset..end.offset])
  {
    ghost var src := a[..];
    var gap := last.offset - first.offset;
    var f: nat := first.offset;
    var l: nat := last.offset;
    while l != end.offset
      invariant first.offset <= f <= l <= end.offset && l - f == gap
      invariant a[..f] == src[..first.offset] + src[last.offset..l]
      invariant a[l..] == src[l..]
      decreases end.offset - l
    {
      ghost var kept := a[..f];
      assert a[l] == src[l] by {
        assert a[l..][0] == src[l..][0];
      }
      a[f] := a[l];
      assert a[..f + 1] == kept + [src[l]];
      assert a[l + 1..] == src[l + 1..];
      assert src[last.offset..l + 1] == src[last.offset..l] + [src[l]];
      f, l := f + 1, l + 1;
    }
    assert a[..end.offset - gap] == src[..first.offset] + src[last.offset..end.offset];
  }

  /**
   * The copy of `insert(pos, beg, end)`: `*itData-- = *(it - 1)` for `it`
   * from `end` down to `beg`, filling `data[k..k + (end - beg))`.
   */
  method CopyRangeBackward(src: array<int>, beg: Cursor, end: Cursor, data: array<int>, k: nat, n: nat)
    requires ValidRange(src, beg, end) && src != data
    requires k + (end.offset - beg.offset) <= n <= data.Length
    modifies data
    ensures data[..n] == old(data[..k]) + src[beg.offset..end.offset] + old(data[k + (end.offset - beg.offset)..n])
  {
    ghost var original := data[..];
    var count := end.offset - beg.offset;
    var e := end;
    var d := k + count;
    while e != beg
      invariant e.At? && beg.offset <= e.offset <= end.offset
      invariant d == k + (e.offset - beg.offset)
      invariant data[..d] == original[..d]
      invariant data[k + count..] == original[k + count..]
      invariant forall m :: d <= m < k + count ==> data[m] == src[beg.offset + (m - k)]
      decreases e.offset
    {
      d := d - 1;
      data[d] := Deref(Minus(e, 1), src);
      e := Prev(e);
    }
    assert data[..n][..k] == original[..k];
    assert data[..n][k + count..] == original[k + count..n];
    Splice(data[..n], original[..k], src[beg.offset..end.offset], original[k + count..n]);
  }

  /**
   * The backward fill loop of `insert(pos, count, val)`: writes `val` into
   * `data[k..k + count)`, last slot first.
   */
  method FillBackward(data: array<int>, k: nat, count: nat, val: int, n: nat)
    requires k + count <= n <= data.Length
    modifies data
    ensures data[..n] == old(data[..k]) + Repeat(val, count) + old(data[k + count..n])
  {
    ghost var original := data[..];
    var i := count;
    while i > 0
      invariant 0 <= i <= count
      invariant data[..k + i] == original[..k + i]
      invariant data[k + count..] == original[k + count..]
      invariant forall m :: k + i <= m < k + count ==> data[m] == val
    {
      i := i - 1;
      data[k + i] := val;
    }
    assert data[..n][..k] == original[..k];
    assert data[..n][k + count..] == original[k + count..n];
    Splice(data[..n], original[..k], Repeat(val, count), original[k + count..n]);
  }

  /**
   * The backward copy loop of `insert(pos, list)`: writes `lst` into
   * `data[k..k + |lst|)`, last element first.
   */
  method CopyListBackward(lst: seq<int>, data: array<int>, k: nat, n: nat)
    requires k + |lst| <= n <= data.Length
    modifies data
    ensures data[..n] == old(data[..k]) + lst + old(data[k + |lst|..n])
  {
    ghost var original := data[..];
    var i := |lst|;
    while i > 0
      invariant 0 <= i <= |lst|
      invariant data[..k + i] == original[..k + i]
      invariant data[k + |lst|..] == original[k + |lst|..]
      invariant forall m :: k + i <= m < k + |lst| ==> data[m] == lst[m - k]
    {
      i := i - 1;
      data[k + i] := lst[i];
    }
    assert data[..n][..k] == original[..k];
    assert data[..n][k + |lst|..] == original[k + |lst|..n];
    Splice(data[..n], original[..k], lst, original[k + |lst|..n]);
  }

  /** The first `k` slots of `src` copied into a fresh buffer. */
  method CopyPrefix(src: array<int>, data: array<int>, k: nat)
    requires src != data && k <= src.Length && k <= data.Length
    modifies data
    ensures data[..k] == src[..k]
  {
    for i := 0 to k
      invariant data[..i] == src[..i]
    {
      data[i] := src[i];
    }
  }

  class Vector {
    var buf: array<int>
    var size: nat
    var capacity: nat

    ghost predicate Valid()
      reads this
    {
      size <= capacity <= buf.Length && capacity <= MAX_SIZE
    }

    /** The live elements, in order. */
    ghost function Elems(): seq<int>
      reads this, buf
      requires Valid()
    {
      buf[..size]
    }

    // ----- Construction -----

    /** `Vector()`: size and capacity 0, no buffer. */
    constructor ()
      ensures Valid() && fresh(buf)
      ensures Elems() == [] && capacity == 0
    {
      buf := new int[0];
      size, capacity := 0, 0;
    }

    /** `Vector(n)`: `n` default-constructed elements, capacity `n`. */
    constructor Sized(n: SizeT)
      ensures Valid() && fresh(buf)
      ensures Elems() == Repeat(0, n) && capacity == n
    {
      var data := new int[n];
      for i := 0 to n
        invariant forall j :: 0 <= j < i ==> data[j] == 0
      {
        data[i] := 0;
      }
      buf, size, capacity := data, n, n;
    }

    /** `Vector(n, val)`: `n` copies of `val`, capacity `n`. */
    constructor Filled(n: SizeT, val: int)
      ensures Valid() && fresh(buf)
      ensures Elems() == Repeat(val, n) && capacity == n
    {
      var data := new int[n];
      for i := 0 to n
        invariant forall j :: 0 <= j < i ==> data[j] == val
      {
        data[i] := val;
      }
      buf, size, capacity := data, n, n;
    }

    /** `Vector(const Vector&)`: a fresh buffer of exactly `other.size` slots. */
    constructor Copy(other: Vector)
      requires other.Valid()
      ensures Valid() && fresh(buf)
      ensures Elems() == other.Elems() && capacity == other.size
    {
      var data := new int[other.size];
      for i := 0 to other.size
        invariant data[..i] == other.buf[..i]
      {
        data[i] := other.buf[i];
      }
      buf, size, capacity := data, other.size, other.size;
    }

    /** `Vector(initializer_list)`: the list's elements in list order. */
    constructor FromList(lst: seq<int>)
      requires |lst| <= MAX_SIZE
      ensures Valid() && fresh(buf)
      ensures Elems() == lst && capacity == |lst|
    {
      var data := new int[|lst|];
      for i := 0 to |lst|
        invariant data[..i] == lst[..i]
      {
        data[i] := lst[i];
      }
      buf, size, capacity := data, |lst|, |lst|;
    }

    /** `Vector(beg, end)`: the elements of the range, `end - beg` of them. */
    constructor FromRange(src: array<int>, beg: Cursor, end: Cursor)
      requires ValidRange(src, beg, end)
      ensures Valid() && fresh(buf)
      ensures Elems() == src[beg.offset..end.offset] && capacity == size
    {
      var n: nat := Diff(end, beg);
      var data := new int[n];
      var p := beg;
      var i := 0;
      while p != end
        invariant p.At? && beg.offset <= p.offset <= end.offset
        invariant i == p.offset - beg.offset
        invariant data[..i] == src[beg.offset..p.offset]
        decreases end.offset - p.offset
      {
        data[i] := Deref(p, src);
        p := Next(p);
        i := i + 1;
      }
      buf, size, capacity := data, n, n;
    }

    /**
     * `Vector(Vector&&)`: takes over the other's buffer and elements, records
     * the other's size as the capacity, and leaves the other empty.
     */
    constructor Move(other: Vector)
      requires other.Valid()
      modifies other
      ensures Valid() && buf == old(other.buf)
      ensures Elems() == old(other.Elems())
      ensures size == old(other.size) && capacity == old(other.size)
      ensures other.Valid() && fresh(other.buf)
      ensures other.size == 0 && other.capacity == 0 && other.Elems() == []
    {
      buf, size, capacity := other.buf, other.size, other.size;
      other.size, other.capacity := 0, 0;
      other.buf := new int[0];
    }

    // ----- Assignment -----

    /** `operator=(const Vector&)`: copies size, capacity and elements. */
    method CopyAssign(right: Vector)
      requires Valid() && right.Valid()
      modifies this
      ensures Valid()
      ensures size == old(right.size) && capacity == old(right.capacity)
      ensures Elems() == old(right.Elems())
      ensures right == this ==> buf == old(buf)
      ensures right != this ==> fresh(buf)
    {
      if right == this {
        return;
      }
      var data := new int[right.capacity];
      for i := 0 to right.size
        invariant data[..i] == right.buf[..i]
      {
        data[i] := right.buf[i];
      }
      buf, size, capacity := data, right.size, right.capacity;
    }

    /** `operator=(Vector&&)`: exactly `swap`. */
    method MoveAssign(right: Vector)
      requires Valid() && right.Valid()
      modifies this, right
      ensures Valid() && right.Valid()
      ensures buf == old(right.buf) && size == old(right.size) && capacity == old(right.capacity)
      ensures right.buf == old(buf) && right.size == old(size) && right.capacity == old(capacity)
      ensures Elems() == old(right.Elems()) && right.Elems() == old(Elems())
    {
      Swap(right);
    }

    /** `assign(n, val)`: move-assigns `Vector(n, val)`. */
    method AssignFill(n: SizeT, val: int)
      requires Valid()
      modifies this
      ensures Valid() && fresh(buf)
      ensures Elems() == Repeat(val, n) && capacity == n
    {
      var temp := new Vector.Filled(n, val);
      MoveAssign(temp);
    }

    /** `assign(beg, end)`: move-assigns `Vector(beg, end)`. */
    method AssignRange(src: array<int>, beg: Cursor, end: Cursor)
      requires Valid() && ValidRange(src, beg, end)
      modifies this
      ensures Valid() && fresh(buf)
      ensures Elems() == old(src[beg.offset..end.offset]) && capacity == size
    {
      var temp := new Vector.FromRange(src, beg, end);
      MoveAssign(temp);
    }

    /** `swap`: exchanges size, capacity and buffer. */
    method Swap(other: Vector)
      requires Valid() && other.Valid()
      modifies this, other
      ensures Valid() && other.Valid()
      ensures buf == old(other.buf) && size == old(other.size) && capacity == old(other.capacity)
      ensures other.buf == old(buf) && other.size == old(size) && other.capacity == old(capacity)
      ensures Elems() == old(other.Elems()) && other.Elems() == old(Elems())
    {
      var s := size;
      size := other.size;
      other.size := s;
      var c := capacity;
      capacity := other.capacity;
      other.capacity := c;
      var d := buf;
      buf := other.buf;
      other.buf := d;
    }

    // ----- Element access -----

    /** `at(index)`: the element, or out-of-range exactly when `index >= size`. */
    function CheckedAt(index: SizeT): (r: Checked<int>)
      reads this, buf
      requires Valid()
      ensures r.OutOfRange? <==> index >= |Elems()|
      ensures r.Ok? ==> r.value == Elems()[index]
    {
      if index >= size then OutOfRange else Ok(buf[index])
    }

    /** `operator[]`: unchecked; only live slots may be read. */
    function Get(index: SizeT): (r: int)
      reads this, buf
      requires Valid() && index < size
      ensures r == Elems()[index]
    {
      buf[index]
    }

    /** `operator[](index) = x`: the write through the returned reference. */
    method SetAt(index: SizeT, x: int)
      requires Valid() && index < size
      modifies buf
      ensures Valid() && capacity == old(capacity)
      ensures Elems() == old(Elems())[index := x]
    {
      buf[index] := x;
    }

    /**
     * `at(index) = x`: the checked write. Out-of-range exactly when
     * `index >= size`, and then nothing changes.
     */
    method CheckedSetAt(index: SizeT, x: int) returns (r: Checked<()>)
      requires Valid()
      modifies buf
      ensures Valid() && capacity == old(capacity)
      ensures r.OutOfRange? <==> index >= old(size)
      ensures r.OutOfRange? ==> Elems() == old(Elems())
      ensures r.Ok? ==> Elems() == old(Elems())[index := x]
    {
      if index >= size {
        return OutOfRange;
      }
      SetAt(index, x);
      r := Ok(());
    }

    /** `front() = x` */
    method SetFront(x: int)
      requires Valid() && 0 < size
      modifies buf
      ensures Valid() && capacity == old(capacity)
      ensures Elems() == old(Elems())[0 := x]
    {
      SetAt(0, x);
    }

    /** `back() = x` */
    method SetBack(x: int)
      requires Valid() && 0 < size
      modifies buf
      ensures Valid() && capacity == old(capacity)
      ensures Elems() == old(Elems())[size - 1 := x]
    {
      SetAt(size - 1, x);
    }

    /** `front()` */
    function Front(): (r: int)
      reads this, buf
      requires Valid() && 0 < size
      ensures r == Elems()[0]
    {
      buf[0]
    }

    /** `back()` */
    function Back(): (r: int)
      reads this, buf
      requires Valid() && 0 < size
      ensures r == Elems()[|Elems()| - 1]
    {
      buf[size - 1]
    }

    /** `begin()`: the cursor at the first slot. */
    function Begin(): (c: Cursor)
      ensures c.At? && c.offset == 0
    {
      Cursor.At(0)
    }

    /** `end()`: the cursor one past the last live element. */
    function End(): (c: Cursor)
      reads this
      requires Valid()
      ensures c.At? && c.offset == |Elems()|
    {
      Cursor.At(size)
    }

    /** `empty()` */
    function IsEmpty(): (r: bool)
      reads this, buf
      requires Valid()
      ensures r <==> Elems() == []
    {
      size == 0
    }

    /** `size()` */
    function Size(): (r: nat)
      reads this, buf
      requires Valid()
      ensures r == |Elems()|
    {
      size
    }

    /** `capacity()`: the slots accounted for, never below the number of live elements. */
    function Capacity(): (r: SizeT)
      reads this, buf
      requires Valid()
      ensures r == capacity
      ensures |Elems()| <= r
    {
      capacity
    }

    // ----- Capacity management -----

    /**
     * `reallocate(n)`: nothing happens when `n` slots are already accounted
     * for; otherwise the elements move, in order, to a fresh buffer of the
     * capacity `growTo` gives.
     */
    method Reallocate(newCapacity: SizeT)
      requires Valid()
      modifies this
      ensures Valid() && size == old(size) && Elems() == old(Elems())
      ensures newCapacity <= old(capacity) ==> buf == old(buf) && capacity == old(capacity)
      ensures old(capacity) < newCapacity ==> fresh(buf) && capacity == GrowTo(old(capacity), newCapacity)
    {
      var oldCap := capacity;
      if newCapacity <= oldCap {
        return;
      }
      var temp := buf;
      var grown := GrowTo(oldCap, newCapacity);
      var data := new int[grown];
      for i := 0 to size
        invariant data[..i] == temp[..i]
        modifies data
      {
        data[i] := temp[i];
      }
      buf, capacity := data, grown;
    }

    /** `reserve(n)`: `reallocate(n)`. */
    method Reserve(n: SizeT)
      requires Valid()
      modifies this
      ensures Valid() && size == old(size) && Elems() == old(Elems())
      ensures n <= old(capacity) ==> buf == old(buf) && capacity == old(capacity)
      ensures old(capacity) < n ==> fresh(buf) && capacity == GrowTo(old(capacity), n)
    {
      Reallocate(n);
    }

    /** `shrink_to_fit()`: the capacity becomes the size; the elements stay. */
    method ShrinkToFit()
      requires Valid()
      modifies this
      ensures Valid() && size == old(size) && Elems() == old(Elems())
      ensures capacity == size
      ensures old(size) == old(capacity) ==> buf == old(buf)
      ensures old(size) != old(capacity) ==> fresh(buf)
    {
      if size != capacity {
        var temp := buf;
        var data := new int[size];
        for i := 0 to size
          invariant data[..i] == temp[..i]
          modifies data
        {
          data[i] := temp[i];
        }
        buf, capacity := data, size;
      }
    }

    /** `clear()`: no live elements; buffer and capacity stay. */
    method Clear()
      requires Valid()
      modifies this
      ensures Valid() && buf == old(buf) && capacity == old(capacity)
      ensures Elems() == []
    {
      size := 0;
    }

    // ----- Insertion -----

    /**
     * The growth and shift that every form of `insert` starts with: double
     * the capacity until `count` more elements fit (into a fresh buffer that
     * receives the first `k` elements), then move the elements from `k` on
     * `count` places to the right, starting from the last one. The `count`
     * slots from `k` are left for the caller to fill.
     */
    method OpenGap(k: nat, count: nat)
      requires Valid() && k <= size
      requires InsertCapacity(capacity, size + count) <= MAX_SIZE
      modifies this, buf
      ensures Valid()
      ensures size == old(size) + count
      ensures capacity == InsertCapacity(old(capacity), old(size) + count)
      ensures buf == old(buf) || fresh(buf)
      ensures buf[..k] == old(Elems())[..k]
      ensures buf[k + count..size] == old(Elems())[k..]
    {
      var temp := buf;
      var oldSize := size;
      var newCap := capacity;
      while oldSize + count > newCap
        invariant capacity <= newCap
        invariant InsertCapacity(newCap, oldSize + count) == InsertCapacity(capacity, oldSize + count)
        decreases oldSize + count - newCap
      {
        newCap := GrowStep(newCap);
      }
      var data := temp;
      if newCap != capacity {
        data := new int[newCap];
        CopyPrefix(temp, data, k);
      }
      ShiftRight(temp, data, k, oldSize, count);
      buf, capacity, size := data, newCap, oldSize + count;
    }

    /** `insert(pos, count, val)`: `count` copies of `val` at `pos`. */
    method InsertFill(pos: Cursor, count: SizeT, val: int) returns (it: Cursor)
      requires Valid() && pos.At? && 0 <= pos.offset <= size
      requires InsertCapacity(capacity, size + count) <= MAX_SIZE
      modifies this, buf
      ensures Valid() && it == pos
      ensures Elems() == old(Elems())[..pos.offset] + Repeat(val, count) + old(Elems())[pos.offset..]
      ensures capacity == InsertCapacity(old(capacity), old(size) + count)
      ensures count == 0 ==> buf == old(buf) && size == old(size)
      ensures buf == old(buf) || fresh(buf)
    {
      if count == 0 {
        return pos;
      }
      var k := pos.offset;
      OpenGap(k, count);
      FillBackward(buf, k, count, val, size);
      it := Cursor.At(k);
    }

    /** `insert(pos, val)`: `insert(pos, 1, val)`. */
    method InsertOne(pos: Cursor, val: int) returns (it: Cursor)
      requires Valid() && pos.At? && 0 <= pos.offset <= size
      requires InsertCapacity(capacity, size + 1) <= MAX_SIZE
      modifies this, buf
      ensures Valid() && it == pos
      ensures Elems() == old(Elems())[..pos.offset] + [val] + old(Elems())[pos.offset..]
      ensures capacity == InsertCapacity(old(capacity), old(size) + 1)
      ensures buf == old(buf) || fresh(buf)
    {
      it := InsertFill(pos, 1, val);
    }

    /**
     * `insert(pos, beg, end)`: the range's elements, in order, at `pos`. The
     * range must not lie in this vector's own buffer.
     */
    method InsertRange(pos: Cursor, src: array<int>, beg: Cursor, end: Cursor) returns (it: Cursor)
      requires Valid() && pos.At? && 0 <= pos.offset <= size
      requires ValidRange(src, beg, end) && src != buf
      requires InsertCapacity(capacity, size + (end.offset - beg.offset)) <= MAX_SIZE
      modifies this, buf
      ensures Valid() && it == pos
      ensures Elems() == old(Elems())[..pos.offset] + src[beg.offset..end.offset] + old(Elems())[pos.offset..]
      ensures capacity == InsertCapacity(old(capacity), old(size) + (end.offset - beg.offset))
      ensures buf == old(buf) || fresh(buf)
    {
      var k := pos.offset;
      var count: nat := Diff(end, beg);
      OpenGap(k, count);
      CopyRangeBackward(src, beg, end, buf, k, size);
      it := Cursor.At(k);
    }

    /** `insert(pos, initializer_list)`: the list's elements, in order, at `pos`. */
    method InsertList(pos: Cursor, lst: seq<int>) returns (it: Cursor)
      requires Valid() && pos.At? && 0 <= pos.offset <= size
      requires InsertCapacity(capacity, size + |lst|) <= MAX_SIZE
      modifies this, buf
      ensures Valid() && it == pos
      ensures Elems() == old(Elems())[..pos.offset] + lst + old(Elems())[pos.offset..]
      ensures capacity == InsertCapacity(old(capacity), old(size) + |lst|)
      ensures buf == old(buf) || fresh(buf)
    {
      var k := pos.offset;
      OpenGap(k, |lst|);
      CopyListBackward(lst, buf, k, size);
      it := Cursor.At(k);
    }

    // ----- Removal -----

    /**
     * `erase(first, last)`: the elements from `last` on move left over the
     * gap; the size drops by `last - first`.
     */
    method EraseRange(first: Cursor, last: Cursor) returns (it: Cursor)
      requires Valid() && first.At? && last.At?
      requires 0 <= first.offset <= last.offset <= size
      requires last.offset - first.offset <= INT32_MAX
      modifies this, buf
      ensures Valid() && buf == old(buf) && capacity == old(capacity)
      ensures size == old(size) - (last.offset - first.offset)
      ensures Elems() == old(Elems())[..first.offset] + old(Elems())[last.offset..]
      ensures it == first
    {
      var res := first;
      var difference: nat := Diff(last, first);
      var end := End();
      assert end.offset == size;
      ShiftLeft(buf, first, last, end);
      size := size - difference;
      it := res;
    }

    /** `erase(pos)`: `erase(pos, pos + 1)`. */
    method EraseOne(pos: Cursor) returns (it: Cursor)
      requires Valid() && pos.At? && 0 <= pos.offset < size
      modifies this, buf
      ensures Valid() && buf == old(buf) && capacity == old(capacity)
      ensures size == old(size) - 1
      ensures Elems() == old(Elems())[..pos.offset] + old(Elems())[pos.offset + 1..]
      ensures it == pos
    {
      it := EraseRange(pos, Plus(pos, 1));
    }

    // ----- Growing and shrinking at the end -----

    /** `push_back(val)` (copy and move forms). */
    method PushBack(val: int)
      requires Valid() && size < MAX_SIZE
      modifies this, buf
      ensures Valid() && Elems() == old(Elems()) + [val]
      ensures old(size) < old(capacity) ==> buf == old(buf) && capacity == old(capacity)
      ensures old(size) == old(capacity) ==> fresh(buf) && capacity == GrowTo(old(capacity), old(size) + 1)
    {
      Reallocate(size + 1);
      buf[size] := val;
      size := size + 1;
    }

    /** `emplace_back(args...)`: the new last element is built from `val`. */
    method EmplaceBack(val: int)
      requires Valid() && size < MAX_SIZE
      modifies this, buf
      ensures Valid() && Elems() == old(Elems()) + [val]
      ensures old(size) < old(capacity) ==> buf == old(buf) && capacity == old(capacity)
      ensures old(size) == old(capacity) ==> fresh(buf) && capacity == GrowTo(old(capacity), old(size) + 1)
    {
      Reallocate(size + 1);
      buf[size] := val;
      size := size + 1;
    }

    /** `pop_back()`: drops the last element; nothing happens when empty. */
    method PopBack()
      requires Valid()
      modifies this
      ensures Valid() && buf == old(buf) && capacity == old(capacity)
      ensures old(size) == 0 ==> size == 0
      ensures 0 < old(size) ==> Elems() == old(Elems())[..old(size) - 1]
    {
      if size > 0 {
        size := size - 1;
      }
    }

    /**
     * `resize(count, value)`: keeps the first `count` elements, or appends
     * copies of `value` after growing through `reallocate(count)`.
     */
    method Resize(count: SizeT, value: int)
      requires Valid()
      modifies this, buf
      ensures Valid() && size == count
      ensures count <= old(size) ==> Elems() == old(Elems())[..count] && buf == old(buf) && capacity == old(capacity)
      ensures old(size) < count ==> Elems() == old(Elems()) + Repeat(value, count - old(size))
      ensures old(size) < count && count <= old(capacity) ==> buf == old(buf) && capacity == old(capacity)
      ensures old(size) < count && old(capacity) < count ==> fresh(buf) && capacity == GrowTo(old(capacity), count)
    {
      if size < count {
        ghost var before := Elems();
        Reallocate(count);
        for i := size to count
          invariant buf[..size] == before
          invariant forall m :: size <= m < i ==> buf[m] == value
          modifies buf
        {
          buf[i] := value;
        }
        size := count;
        assert Elems() == before + Repeat(value, count - |before|);
      } else {
        size := count;
      }
    }

    /** `resize(count)`: `resize(count, int())`. */
    method ResizeDefault(count: SizeT)
      requires Valid()
      modifies this, buf
      ensures Valid() && size == count
      ensures count <= old(size) ==> Elems() == old(Elems())[..count] && buf == old(buf) && capacity == old(capacity)
      ensures old(size) < count ==> Elems() == old(Elems()) + Repeat(0, count - old(size))
      ensures old(size) < count && count <= old(capacity) ==> buf == old(buf) && capacity == old(capacity)
      ensures old(size) < count && old(capacity) < count ==> fresh(buf) && capacity == GrowTo(old(capacity), count)
    {
      Resize(count, 0);
    }
  }

  // ----- Comparisons -----

  /** What `operator!=` decides: the sizes differ or some index holds different elements. */
  predicate Differ(a: seq<int>, b: seq<int>)
  {
    |a| != |b| || exists i :: 0 <= i < |a| && a[i] != b[i]
  }

  /**
   * What `operator<` decides: `a` is strictly shorter and each of its elements
   * is below the element of `b` at the same index.
   */
  predicate PairwiseLess(a: seq<int>, b: seq<int>)
  {
    |a| < |b| && forall i :: 0 <= i < |a| ==> a[i] < b[i]
  }

  /** `operator!=` */
  method NotEqual(lhs: Vector, rhs: Vector) returns (r: bool)
    requires lhs.Valid() && rhs.Valid()
    ensures r <==> Differ(lhs.Elems(), rhs.Elems())
  {
    if lhs.size != rhs.size {
      return true;
    }
    for i := 0 to lhs.size
      invariant forall j :: 0 <= j < i ==> lhs.buf[j] == rhs.buf[j]
    {
      if lhs.buf[i] != rhs.buf[i] {
        assert lhs.Elems()[i] != rhs.Elems()[i];
        return true;
      }
    }
    return false;
  }

  /** `operator<` */
  method Less(lhs: Vector, rhs: Vector) returns (r: bool)
    requires lhs.Valid() && rhs.Valid()
    ensures r <==> PairwiseLess(lhs.Elems(), rhs.Elems())
  {
    var lsize, rsize := lhs.size, rhs.size;
    var minSize := if lsize < rsize then lsize else rsize;
    for i := 0 to minSize
      invariant forall j :: 0 <= j < i ==> lhs.buf[j] < rhs.buf[j]
    {
      if lhs.buf[i] >= rhs.buf[i] {
        assert !(lhs.Elems()[i] < rhs.Elems()[i]);
        return false;
      }
    }
    return lsize < rsize;
  }

  /** `operator==`: `!(lhs != rhs)`. */
  method Equal(lhs: Vector, rhs: Vector) returns (r: bool)
    requires lhs.Valid() && rhs.Valid()
    ensures r <==> lhs.Elems() == rhs.Elems()
  {
    var ne := NotEqual(lhs, rhs);
    DifferIffUnequal(lhs.Elems(), rhs.Elems());
    r := !ne;
  }

  /** `operator>`: `rhs < lhs`. */
  method Greater(lhs: Vector, rhs: Vector) returns (r: bool)
    requires lhs.Valid() && rhs.Valid()
    ensures r <==> PairwiseLess(rhs.Elems(), lhs.Elems())
  {
    r := Less(rhs, lhs);
  }

  /** `operator<=`: `!(rhs < lhs)`. */
  method LessEq(lhs: Vector, rhs: Vector) returns (r: bool)
    requires lhs.Valid() && rhs.Valid()
    ensures r <==> !PairwiseLess(rhs.Elems(), lhs.Elems())
  {
    var gt := Less(rhs, lhs);
    r := !gt;
  }

  /** `operator>=`: `!(lhs < rhs)`. */
  method GreaterEq(lhs: Vector, rhs: Vector) returns (r: bool)
    requires lhs.Valid() && rhs.Valid()
    ensures r <==> !PairwiseLess(lhs.Elems(), rhs.Elems())
  {
    var lt := Less(lhs, rhs);
    r := !lt;
  }

  /** `!=` holds exactly between different sequences, so `==` is sequence equality. */
  lemma DifferIffUnequal(a: seq<int>, b: seq<int>)
    ensures Differ(a, b) <==> a != b
  {
    if a != b && |a| == |b| {
      var i :| 0 <= i < |a| && a[i] != b[i];
    }
  }

  /** `==` is reflexive and symmetric. */
  lemma EqualityReflexiveSymmetric(a: seq<int>, b: seq<int>)
    ensures !Differ(a, a)
    ensures Differ(a, b) == Differ(b, a)
  {
    DifferIffUnequal(a, a);
    DifferIffUnequal(a, b);
    DifferIffUnequal(b, a);
  }

  /** `<` is irreflexive and transitive, and never holds between equal vectors. */
  lemma PairwiseLessStrictOrder(a: seq<int>, b: seq<int>, c: seq<int>)
    ensures !PairwiseLess(a, a)
    ensures PairwiseLess(a, b) && PairwiseLess(b, c) ==> PairwiseLess(a, c)
    ensures PairwiseLess(a, b) ==> Differ(a, b) && !PairwiseLess(b, a)
  {
  }

  /**
   * `<` is not lexicographic: `[1] < [2]` is false; and incomparability is
   * not transitive, so it is not a strict weak ordering.
   */
  lemma PairwiseLessIsNotLexicographic()
    ensures !PairwiseLess([1], [2])
    ensures !PairwiseLess([0], [2]) && !PairwiseLess([2], [0])
    ensures !PairwiseLess([2], [1, 5]) && !PairwiseLess([1, 5], [2])
    ensures PairwiseLess([0], [1, 5])
  {
    assert !([2][0] < [1, 5][0]);
  }
}
