/** Bitwise masking and the growth policy of the ring buffer. */
module RingMath {
  import opened Arithmetic
  import opened Options

  // ----- masking with a power of two -----

  function Pow2(k: nat): (p: nat)
    ensures p >= 1
  {
    if k == 0 then 1 else 2 * Pow2(k - 1)
  }

  ghost predicate IsPow2(n: nat) {
    exists k: nat :: n == Pow2(k)
  }

  /** Go's `a & b` on non-negative ints. */
  function And(a: nat, b: nat): nat {
    if a == 0 || b == 0 then 0
    else (if a % 2 == 1 && b % 2 == 1 then 1 else 0) + 2 * And(a / 2, b / 2)
  }

  /** x % n. */
  function Rem(x: nat, n: nat): nat
    requires n > 0
  {
    x % n
  }

  lemma HalveRem(x: nat, p: nat)
    requires p >= 1
    ensures Rem(x, 2 * p) == 2 * Rem(x / 2, p) + x % 2
  {
    var q, r := x / 2 / p, x / 2 % p;
    assert q * (2 * p) == 2 * (q * p);
    ModUnique(x, 2 * p, q, 2 * r + x % 2);
  }

  lemma AndOdd(x: nat, m: nat)
    ensures And(x, 2 * m + 1) == x % 2 + 2 * And(x / 2, m)
  {
    assert (2 * m + 1) % 2 == 1 && (2 * m + 1) / 2 == m;
  }

  /** The comment at the head of the source: x % n == x & (n - 1) for a power of two n. */
  lemma {:induction false} AndMask(x: nat, k: nat)
    ensures And(x, Pow2(k) - 1) == Rem(x, Pow2(k))
  {
    hide Rem, And;
    if k == 0 {
      AndMaskOne(x);
    } else {
      var p := Pow2(k - 1);
      AndMask(x / 2, k - 1);
      HalveRem(x, p);
      AndOdd(x, p - 1);
    }
  }

  lemma AndMaskOne(x: nat)
    ensures And(x, 0) == Rem(x, 1)
  {
  }

  /** An index taken around the ring once at most. */
  function Wrap(n: nat, x: nat): nat {
    if x < n then x else x - n
  }

  lemma MaskWraps(n: nat, x: nat)
    requires IsPow2(n) && x < 2 * n
    ensures And(x, n - 1) == x % n == Wrap(n, x)
  {
    hide And;
    var k: nat :| n == Pow2(k);
    AndMask(x, k);
    ModUnique(x, n, if x < n then 0 else 1, Wrap(n, x));
  }

  lemma {:induction false} Pow2Half(n: nat)
    requires IsPow2(n) && n >= 2
    ensures IsPow2(2 * n) && n % 2 == 0 && IsPow2(n / 2)
  {
    var k: nat :| n == Pow2(k);
    assert 2 * n == Pow2(k + 1);
    assert n / 2 == Pow2(k - 1);
  }

  lemma {:induction false} Pow2Gap(k: nat, n: nat)
    requires Pow2(k) < Pow2(n)
    ensures 2 * Pow2(k) <= Pow2(n)
  {
    if k > 0 && n > 0 {
      Pow2Gap(k - 1, n - 1);
    }
  }

  // ----- the sequence laid around the ring -----

  /** Where the i-th element from the head is stored. */
  function Slot(n: nat, head: nat, i: nat): nat {
    Wrap(n, head + i)
  }

  predicate Filled<T>(b: seq<Option<T>>, head: nat, count: nat)
    requires head < |b| && count <= |b|
  {
    forall i: nat | i < count :: b[Slot(|b|, head, i)].Some?
  }

  function Unroll<T>(b: seq<Option<T>>, head: nat, count: nat): (s: seq<T>)
    requires head < |b| && count <= |b| && Filled(b, head, count)
    ensures |s| == count
  {
    seq(count, i requires 0 <= i < count => b[Slot(|b|, head, i)].value)
  }

  lemma UnrollAdd<T>(b: seq<Option<T>>, head: nat, count: nat, x: T)
    requires head < |b| && count < |b| && Filled(b, head, count)
    ensures var c := b[Slot(|b|, head, count) := Some(x)];
            Filled(c, head, count + 1) && Unroll(c, head, count + 1) == Unroll(b, head, count) + [x]
  {
  }

  lemma UnrollRemove<T>(b: seq<Option<T>>, head: nat, count: nat)
    requires head < |b| && 0 < count <= |b| && Filled(b, head, count)
    ensures var c, h := b[head := None], Wrap(|b|, head + 1);
            && Filled(c, h, count - 1)
            && b[head].Some? && [b[head].value] + Unroll(c, h, count - 1) == Unroll(b, head, count)
  {
    var c, h := b[head := None], Wrap(|b|, head + 1);
    assert Slot(|b|, head, 0) == head;
    forall i: nat | i < count - 1
      ensures Slot(|b|, h, i) == Slot(|b|, head, i + 1) && c[Slot(|b|, h, i)] == b[Slot(|b|, head, i + 1)]
    {
    }
  }

  lemma UnrollCopy<T>(b: seq<Option<T>>, head: nat, count: nat, c: seq<Option<T>>)
    requires head < |b| && count <= |b| && Filled(b, head, count)
    requires 0 < |c| && count <= |c| && forall i: nat | i < count :: c[i] == b[Slot(|b|, head, i)]
    ensures Filled(c, 0, count) && Unroll(c, 0, count) == Unroll(b, head, count)
  {
  }

  // ----- when the buffer is resized and what that costs -----

  const MIN_QUEUE_LEN: nat := 16

  /** Elements stored, slots allocated, and elements copied by all resizes so far. */
  datatype Shape = Shape(count: nat, capacity: nat, copied: nat)

  function Resized(s: Shape): Shape {
    s.(capacity := 2 * s.count, copied := s.copied + s.count)
  }

  function Added(s: Shape): Shape {
    var t := if s.count == s.capacity then Resized(s) else s;
    t.(count := t.count + 1)
  }

  function Removed(s: Shape): Shape
    requires s.count > 0
  {
    var t := s.(count := s.count - 1);
    if t.capacity > MIN_QUEUE_LEN && 4 * t.count == t.capacity then Resized(t) else t
  }

  ghost predicate Holds(s: Shape) {
    IsPow2(s.capacity) && MIN_QUEUE_LEN <= s.capacity && s.count <= s.capacity
  }

  ghost predicate Fits(s: Shape) {
    Holds(s) && (s.capacity == MIN_QUEUE_LEN || s.capacity < 4 * s.count)
  }

  /** Twice what is stored beyond half the capacity, or what is missing to half of it. */
  function Potential(s: Shape): int {
    if 2 * s.count >= s.capacity then 2 * s.count - s.capacity else s.capacity / 2 - s.count
  }

  lemma AddPays(s: Shape)
    requires Fits(s)
    ensures Fits(Added(s))
    ensures Added(s).copied + Potential(Added(s)) <= s.copied + Potential(s) + 2
  {
    Pow2Half(s.capacity);
  }

  lemma RemovePays(s: Shape)
    requires Fits(s) && s.count > 0
    ensures Fits(Removed(s))
    ensures Removed(s).copied + Potential(Removed(s)) <= s.copied + Potential(s) + 1
  {
    Pow2Half(s.capacity);
    var k: nat :| s.capacity == Pow2(k);
    assert Pow2(4) == 16;
    if s.capacity > MIN_QUEUE_LEN {
      Pow2Gap(4, k);
    }
  }

  datatype Op = AddOp | RemoveOp

  function Count(ops: seq<Op>, op: Op): nat {
    if ops == [] then 0 else Count(ops[..|ops| - 1], op) + if ops[|ops| - 1] == op then 1 else 0
  }

  /** Runs in which nothing is removed from an empty queue. */
  predicate Possible(ops: seq<Op>)
    decreases |ops|
  {
    ops != [] ==>
      && Possible(ops[..|ops| - 1])
      && (ops[|ops| - 1] == RemoveOp ==> Count(ops[..|ops| - 1], RemoveOp) < Count(ops[..|ops| - 1], AddOp))
  }

  function ShapeAfter(ops: seq<Op>): (s: Shape)
    requires Possible(ops)
    ensures s.count == Count(ops, AddOp) - Count(ops, RemoveOp)
  {
    if ops == [] then Shape(0, MIN_QUEUE_LEN, 0)
    else
      var before := ShapeAfter(ops[..|ops| - 1]);
      if ops[|ops| - 1] == AddOp then Added(before) else Removed(before)
  }

  /** Amortised cost: over any run the resizes copy at most 2 * adds + removes + 8 elements, and the
      capacity is the minimum or less than four times the count. */
  lemma {:induction false} ResizesAreCheap(ops: seq<Op>)
    requires Possible(ops)
    ensures Fits(ShapeAfter(ops))
    ensures ShapeAfter(ops).copied + Potential(ShapeAfter(ops)) <= 2 * Count(ops, AddOp) + Count(ops, RemoveOp) + 8
    ensures ShapeAfter(ops).copied <= 2 * Count(ops, AddOp) + Count(ops, RemoveOp) + 8
    ensures ShapeAfter(ops).capacity == 16 || 16 < ShapeAfter(ops).capacity < 4 * ShapeAfter(ops).count
  {
    if ops == [] {
      assert Pow2(4) == 16;
    } else {
      var before := ops[..|ops| - 1];
      ResizesAreCheap(before);
      if ops[|ops| - 1] == AddOp {
        AddPays(ShapeAfter(before));
      } else {
        RemovePays(ShapeAfter(before));
      }
    }
  }
}
