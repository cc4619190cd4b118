/**
 * The random-access cursor `RandomAccess<T>` that a vector hands out.
 *
 * A cursor is a raw position: either null or an element offset into some
 * contiguous buffer. It owns nothing. Copies are values, so the operators that
 * take a cursor by value (`+`, `-`, the difference and the comparisons) can
 * never change their argument; the ones that update the cursor in place
 * (`++`, `--`, `+=`) are functions from the old cursor to the new one.
 * Offsetting a null cursor is undefined in the source, so the arithmetic asks
 * for a non-null cursor; nothing is bounds-checked.
 */
module Cursors {

  /** The source's `int`: 32-bit two's complement. */
  const INT32_MIN: int := -0x8000_0000
  const INT32_MAX: int := 0x7FFF_FFFF
  type Int32 = x: int | INT32_MIN <= x <= INT32_MAX

  /** Conversion of a pointer distance to `int`: keeps the low 32 bits. */
  function ToInt32(x: int): (r: Int32)
    ensures INT32_MIN <= x <= INT32_MAX ==> r == x
    ensures (x - r) % 0x1_0000_0000 == 0
  {
    (x - INT32_MIN) % 0x1_0000_0000 + INT32_MIN
  }

  datatype Cursor = Null | At(offset: int)

  /** `empty()`: whether the position is null. */
  function Empty(p: Cursor): (e: bool)
    ensures e <==> p == Null
  {
    p.Null?
  }

  /** `*p`: the slot the cursor points at. */
  function Deref(p: Cursor, buf: array<int>): int
    reads buf
    requires p.At? && 0 <= p.offset < buf.Length
  {
    buf[p.offset]
  }

  /** `p[n]` with an unsigned `n`: the slot `n` places after the cursor. */
  function Index(p: Cursor, n: nat, buf: array<int>): int
    reads buf
    requires p.At? && 0 <= p.offset + n < buf.Length
  {
    buf[p.offset + n]
  }

  /** `++p` */
  function Next(p: Cursor): Cursor
    requires p.At?
  {
    At(p.offset + 1)
  }

  /** `--p` */
  function Prev(p: Cursor): Cursor
    requires p.At?
  {
    At(p.offset - 1)
  }

  /** `*p = x`: the write through the reference `*p` returns. */
  method Store(p: Cursor, buf: array<int>, x: int)
    requires p.At? && 0 <= p.offset < buf.Length
    modifies buf
    ensures buf[..] == old(buf[..])[p.offset := x]
    ensures Deref(p, buf) == x
  {
    buf[p.offset] := x;
  }

  /** `p[n] = x`: the write through the reference `p[n]` returns. */
  method StoreIndex(p: Cursor, n: nat, buf: array<int>, x: int)
    requires p.At? && 0 <= p.offset + n < buf.Length
    modifies buf
    ensures buf[..] == old(buf[..])[p.offset + n := x]
    ensures Index(p, n, buf) == x
  {
    buf[p.offset + n] := x;
  }

  /** `p++`: the value returned and the cursor afterwards. */
  function PostIncrement(p: Cursor): (Cursor, Cursor)
    requires p.At?
  {
    var returned := At(p.offset);
    (returned, Next(p))
  }

  /** `p--`: the value returned and the cursor afterwards. */
  function PostDecrement(p: Cursor): (Cursor, Cursor)
    requires p.At?
  {
    var returned := At(p.offset);
    (returned, Prev(p))
  }

  /** `p += n`: the cursor afterwards. */
  function PlusAssign(p: Cursor, n: Int32): Cursor
    requires p.At?
  {
    At(p.offset + n)
  }

  /** `p + n`: `+=` applied to a copy. */
  function Plus(p: Cursor, n: Int32): Cursor
    requires p.At?
  {
    var temp := p;
    PlusAssign(temp, n)
  }

  /** `p - n`: `+= -n` applied to a copy; negating INT32_MIN is undefined. */
  function Minus(p: Cursor, n: Int32): Cursor
    requires p.At? && n != INT32_MIN
  {
    var temp := p;
    PlusAssign(temp, -n)
  }

  /**
   * `p -= n` as written: the left operand is taken by value, so `+= -n`
   * moves only that copy and the caller's cursor after the call is the
   * cursor it had before.
   */
  function MinusAssignAsWritten(p: Cursor, n: Int32): (after: Cursor)
    requires p.At? && n != INT32_MIN
  {
    p
  }

  /** `p -= n` as intended: the caller's cursor moves back by `n`. */
  function MinusAssign(p: Cursor, n: Int32): (after: Cursor)
    requires p.At? && n != INT32_MIN
    ensures after == Minus(p, n)
    ensures PlusAssign(after, n) == p
  {
    PlusAssign(p, -n)
  }

  /** `p - q`: the signed element distance, truncated to `int`. */
  function Diff(p: Cursor, q: Cursor): Int32
    requires p.At? && q.At?
  {
    ToInt32(p.offset - q.offset)
  }

  /** `!=` compares positions. */
  function NotEqual(p: Cursor, q: Cursor): bool
  {
    p != q
  }

  /** `<` compares positions within one buffer. */
  function Less(p: Cursor, q: Cursor): bool
    requires p.At? && q.At?
  {
    p.offset < q.offset
  }

  function Equal(p: Cursor, q: Cursor): bool
  {
    !NotEqual(p, q)
  }

  function Greater(p: Cursor, q: Cursor): bool
    requires p.At? && q.At?
  {
    Less(q, p)
  }

  function LessEq(p: Cursor, q: Cursor): bool
    requires p.At? && q.At?
  {
    !Less(q, p)
  }

  function GreaterEq(p: Cursor, q: Cursor): bool
    requires p.At? && q.At?
  {
    !Less(p, q)
  }

  // ----- Properties -----

  /** Stepping forward then back, or back then forward, restores the position. */
  lemma NextPrevRoundTrip(p: Cursor)
    requires p.At?
    ensures Prev(Next(p)) == p && Next(Prev(p)) == p
  {
  }

  /** Post-increment and post-decrement return the old position and move by one. */
  lemma PostStepMovesByOne(p: Cursor)
    requires p.At?
    ensures PostIncrement(p).0 == p && Diff(PostIncrement(p).1, p) == 1
    ensures PostDecrement(p).0 == p && Diff(PostDecrement(p).1, p) == -1
  {
  }

  /** `(p + n) - p == n` for every `int` offset. */
  lemma PlusThenDiff(p: Cursor, n: Int32)
    requires p.At?
    ensures Diff(Plus(p, n), p) == n
  {
  }

  /** `p - n` is `p + (-n)`, and `-` undoes `+`. */
  lemma MinusIsPlusNegated(p: Cursor, n: Int32)
    requires p.At? && n != INT32_MIN
    ensures Minus(p, n) == Plus(p, -n)
    ensures Minus(Plus(p, n), n) == p
  {
  }

  /** `p[n]` reads the slot that `*(p + n)` reads. */
  lemma IndexIsDerefOfPlus(p: Cursor, n: Int32, buf: array<int>)
    requires p.At? && 0 <= n && 0 <= p.offset + n < buf.Length
    ensures Index(p, n, buf) == Deref(Plus(p, n), buf)
  {
  }

  /** The as-written `-=` leaves the caller's cursor where it was. */
  lemma MinusAssignAsWrittenDoesNotMove(p: Cursor, n: Int32)
    requires p.At? && n != INT32_MIN && n != 0
    ensures MinusAssignAsWritten(p, n) == p
    ensures MinusAssignAsWritten(p, n) != MinusAssign(p, n)
  {
  }

  /** Exactly one of `p < q`, `p == q`, `p > q`; `==` is the negation of `!=`. */
  lemma Trichotomy(p: Cursor, q: Cursor)
    requires p.At? && q.At?
    ensures Equal(p, q) == !NotEqual(p, q)
    ensures Less(p, q) || Equal(p, q) || Greater(p, q)
    ensures !(Less(p, q) && Equal(p, q))
    ensures !(Less(p, q) && Greater(p, q))
    ensures !(Equal(p, q) && Greater(p, q))
  {
  }

  /** `<=` and `>=` are the negations of `>` and `<`. */
  lemma NonStrictAreNegations(p: Cursor, q: Cursor)
    requires p.At? && q.At?
    ensures LessEq(p, q) == !Greater(p, q)
    ensures GreaterEq(p, q) == !Less(p, q)
    ensures LessEq(p, q) <==> p.offset <= q.offset
    ensures GreaterEq(p, q) <==> p.offset >= q.offset
  {
  }
}
