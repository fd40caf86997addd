/** The branch-free logarithm of bits.bpf.h and the rows that `print_log2_hist` prints.
    Words are natural numbers below 2^32 or 2^64, a right shift is a division. */
module Histogram {
  import opened BpfMap

  function Pow2(n: nat): (p: nat)
    ensures p > 0
  {
    if n == 0 then 1 else 2 * Pow2(n - 1)
  }

  lemma {:induction false} Pow2Sum(a: nat, b: nat)
    ensures Pow2(a + b) == Pow2(a) * Pow2(b)
  {
    if a > 0 {
      Pow2Sum(a - 1, b);
      assert a + b - 1 == a - 1 + b;
    }
  }

  lemma {:induction false} Pow2Monotonic(a: nat, b: nat)
    requires a < b
    ensures 2 * Pow2(a) <= Pow2(b)
  {
    if a < b - 1 { Pow2Monotonic(a, b - 1); }
  }

  lemma Pow2Small()
    ensures Pow2(0) == 1 && Pow2(1) == 2 && Pow2(2) == 4 && Pow2(3) == 8 && Pow2(4) == 16
  {
    assert Pow2(3) == 8;
  }

  /** The powers the code shifts by. */
  lemma Pow2Values()
    ensures Pow2(0) == 1 && Pow2(1) == 2 && Pow2(2) == 4 && Pow2(3) == 8 && Pow2(4) == 16 && Pow2(8) == 256
    ensures Pow2(16) == 0x1_0000 && Pow2(32) == U32 && Pow2(63) == U64 / 2 && Pow2(64) == U64
  {
    hide Pow2;
    Pow2Small();
    Pow2Sum(4, 4);
    Pow2Sum(8, 8);
    Pow2Sum(16, 16);
    Pow2Sum(32, 31);
    Pow2Sum(31, 1);
    Pow2Sum(32, 32);
  }

  // ----- log2 and log2l -----

  /** One line of `log2`: if `v` exceeds `limit`, shift it right by `bits`, which divides
      by `limit + 1`, and note the shift. */
  function Narrow(v: nat, limit: nat): nat {
    if v > limit then v / (limit + 1) else v
  }

  function Noted(v: nat, limit: nat, bits: nat): nat {
    if v > limit then bits else 0
  }

  /** `log2`, as a sum of what its steps note. */
  function Log2(v: nat): nat {
    var v1 := Narrow(v, 0xFFFF);
    var v2 := Narrow(v1, 0xFF);
    var v3 := Narrow(v2, 0xF);
    var v4 := Narrow(v3, 0x3);
    Noted(v, 0xFFFF, 16) + Noted(v1, 0xFF, 8) + Noted(v2, 0xF, 4) + Noted(v3, 0x3, 2) + v4 / 2
  }

  /** Bitwise or. */
  function Or(a: nat, b: nat): nat
    decreases a + b
  {
    if a == 0 then b
    else if b == 0 then a
    else (if a % 2 == 1 || b % 2 == 1 then 1 else 0) + 2 * Or(a / 2, b / 2)
  }

  /** Or is addition where the lower operand stays below the bits of the upper one. */
  lemma {:induction false} OrIsSum(m: nat, b: nat, k: nat)
    requires b < Pow2(k)
    ensures Or(m * Pow2(k), b) == m * Pow2(k) + b
    decreases k
  {
    if m != 0 && b != 0 {
      var a, p := m * Pow2(k), m * Pow2(k - 1);
      assert a == 2 * p;
      OrIsSum(m, b / 2, k - 1);
      OrDoubles(p, b);
    }
  }

  lemma OrDoubles(p: nat, b: nat)
    requires p > 0 && b > 0 && Or(p, b / 2) == p + b / 2
    ensures Or(2 * p, b) == 2 * p + b
  {
  }

  /** `log2l` splits a 64-bit word. */
  function Log2l(v: nat): nat {
    if v / U32 != 0 then Log2(v / U32) + 32 else Log2(v)
  }

  /** The assignments of `log2` in order; `m` says which multiple of the next bit `r` is. */
  method Log2Steps(v0: nat) returns (r: nat)
    requires v0 < U32
    ensures r == Log2(v0)
  {
    Pow2Values();
    hide Or, Pow2;
    var v, shift := v0, 0;
    r := if v > 0xFFFF then 16 else 0;
    v := if r == 16 then v / 0x1_0000 else v;
    ghost var m := r / 16;
    shift := if v > 0xFF then 8 else 0;
    OrBelow(m, 16, 4, shift);
    v, r, m := if shift == 8 then v / 0x100 else v, Or(r, shift), 2 * m + shift / 8;
    shift := if v > 0xF then 4 else 0;
    OrBelow(m, 8, 3, shift);
    v, r, m := if shift == 4 then v / 0x10 else v, Or(r, shift), 2 * m + shift / 4;
    shift := if v > 0x3 then 2 else 0;
    OrBelow(m, 4, 2, shift);
    v, r, m := if shift == 2 then v / 0x4 else v, Or(r, shift), 2 * m + shift / 2;
    OrBelow(m, 2, 1, v / 2);
    r := Or(r, v / 2);
  }

  lemma OrBelow(m: nat, p: nat, k: nat, b: nat)
    requires p == Pow2(k) && b < p
    ensures Or(m * p, b) == m * p + b
  {
    OrIsSum(m, b, k);
  }

  /** `r` is the position of the highest bit of `v`. */
  predicate Top(v: nat, r: nat) {
    Pow2(r) <= v < 2 * Pow2(r)
  }

  lemma TopScale(q: nat, m: nat, p: nat, bits: nat, r: nat)
    requires p == Pow2(bits) && m < p && Top(q, r)
    ensures Top(q * p + m, r + bits)
  {
    Pow2Sum(r, bits);
    hide Pow2;
    Scale(Pow2(r), q, p);
    Scale(q + 1, 2 * Pow2(r), p);
    assert (q + 1) * p == q * p + p;
    assert 2 * Pow2(r) * p == 2 * (Pow2(r) * p);
  }

  lemma Scale(a: nat, b: nat, p: nat)
    requires a <= b
    ensures a * p <= b * p
  {
  }

  lemma NarrowTop(v: nat, limit: nat, bits: nat, r: nat)
    requires limit + 1 == Pow2(bits) && Top(Narrow(v, limit), r)
    ensures Top(v, r + Noted(v, limit, bits))
  {
    hide Top, Pow2;
    if v > limit {
      var p := limit + 1;
      Divide(v, p);
      TopScale(v / p, v % p, p, bits, r);
    }
  }

  lemma Divide(v: nat, p: nat)
    requires p > 0
    ensures v == v / p * p + v % p && 0 <= v % p < p
  {
  }

  lemma Log2IsTop(v: nat)
    requires 0 < v < U32
    ensures Top(v, Log2(v)) && Log2(v) < 32
  {
    hide Top, Pow2, Narrow, Noted;
    var v1 := Narrow(v, 0xFFFF);
    var v2 := Narrow(v1, 0xFF);
    var v3 := Narrow(v2, 0xF);
    var v4 := Narrow(v3, 0x3);
    Ranges(v);
    Pow2Values();
    LastBit(v4);
    NarrowTop(v3, 0x3, 2, v4 / 2);
    NarrowTop(v2, 0xF, 4, v4 / 2 + Noted(v3, 0x3, 2));
    NarrowTop(v1, 0xFF, 8, v4 / 2 + Noted(v3, 0x3, 2) + Noted(v2, 0xF, 4));
    NarrowTop(v, 0xFFFF, 16, v4 / 2 + Noted(v3, 0x3, 2) + Noted(v2, 0xF, 4) + Noted(v1, 0xFF, 8));
    Log2Small(v);
  }

  lemma Log2Small(v: nat)
    requires 0 < v < U32
    ensures Log2(v) < 32
  {
    hide Narrow, Noted;
    var v1 := Narrow(v, 0xFFFF);
    var v2 := Narrow(v1, 0xFF);
    var v3 := Narrow(v2, 0xF);
    Ranges(v);
    NotedBounds(v, 0xFFFF, 16);
    NotedBounds(v1, 0xFF, 8);
    NotedBounds(v2, 0xF, 4);
    NotedBounds(v3, 0x3, 2);
  }

  lemma NotedBounds(v: nat, limit: nat, bits: nat)
    ensures Noted(v, limit, bits) <= bits
  {
  }

  lemma Ranges(v: nat)
    requires 0 < v < U32
    ensures 0 < Narrow(Narrow(Narrow(Narrow(v, 0xFFFF), 0xFF), 0xF), 0x3) < 4
  {
    var v1 := Narrow(v, 0xFFFF);
    assert 0 < v1 < 0x1_0000;
    var v2 := Narrow(v1, 0xFF);
    assert 0 < v2 < 0x100;
    var v3 := Narrow(v2, 0xF);
    assert 0 < v3 < 0x10;
  }

  lemma LastBit(v: nat)
    requires 0 < v < 4
    ensures Top(v, v / 2)
  {
  }

  /** For every 64-bit word: the slot is the position of its highest bit, 0 for 0. */
  lemma Log2lIsTop(v: nat)
    requires v < U64
    ensures v > 0 ==> Top(v, Log2l(v))
    ensures v == 0 ==> Log2l(v) == 0
    ensures Log2l(v) < 64
  {
    hide Log2, Top;
    Pow2Values();
    if v == 0 {
      Log2OfZero();
    } else if v / U32 != 0 {
      Log2IsTop(v / U32);
      TopScale(v / U32, v % U32, U32, 32, Log2(v / U32));
    } else {
      Log2IsTop(v);
    }
  }

  lemma Log2OfZero()
    ensures Log2(0) == 0
  {
  }

  // ----- The printed rows -----

  function RowLow(i: nat): nat
    requires i < 63
  {
    var low := Pow2(i + 1) / 2;
    if low == RowHigh(i) then low - 1 else low
  }

  function RowHigh(i: nat): nat
    requires i < 63
  {
    Pow2(i + 1) - 1
  }

  predicate InRow(v: nat, i: nat)
    requires i < 63
  {
    RowLow(i) <= v <= RowHigh(i)
  }

  lemma TopIsUnique(v: nat, i: nat, j: nat)
    requires Top(v, i) && Top(v, j)
    ensures i == j
  {
    if i < j { Pow2Monotonic(i, j); } else if j < i { Pow2Monotonic(j, i); }
  }

  lemma RowIffTop(v: nat, i: nat)
    requires i < 63
    ensures InRow(v, i) <==> if v == 0 then i == 0 else Top(v, i)
  {
    if i > 0 { Pow2Monotonic(0, i); }
  }

  /** A value lies in the range printed for its slot and in no other row. */
  lemma SlotIsRow(v: nat, i: nat)
    requires v < U64 && i < 63
    ensures InRow(v, i) <==> Log2l(v) == i
  {
    hide Log2l, InRow, Top;
    Log2lIsTop(v);
    RowIffTop(v, i);
    if v > 0 && Top(v, i) { TopIsUnique(v, i, Log2l(v)); }
  }

  lemma TopBelow(v: nat, r: nat, n: nat)
    requires Top(v, r)
    ensures v < Pow2(n) <==> r < n
  {
    if r < n { Pow2Monotonic(r, n); } else if n < r { Pow2Monotonic(n, r); }
  }

  /** Rows 0..n-1 cover exactly the values below 2^n, each once. */
  lemma RowsPartition(v: nat, n: nat)
    requires v < U64 && 0 < n <= 63
    ensures v < Pow2(n) <==> exists i | 0 <= i < n :: InRow(v, i)
    ensures forall i, j | 0 <= i < n && 0 <= j < n :: InRow(v, i) && InRow(v, j) ==> i == j
  {
    hide Log2l, InRow, Top;
    Log2lIsTop(v);
    if v > 0 { TopBelow(v, Log2l(v), n); }
    forall i | 0 <= i < n ensures InRow(v, i) <==> Log2l(v) == i { SlotIsRow(v, i); }
    if v < Pow2(n) { assert InRow(v, Log2l(v)); }
  }

  /** The slot a probe counts in, clamped to the last of `slots`. */
  function Slot(v: nat, slots: nat): (s: nat)
    requires slots > 0
    ensures s < slots
  {
    if Log2l(v) >= slots then slots - 1 else Log2l(v)
  }

  /** The printed row of a value's slot contains it exactly when it was not clamped; a value too
      large for all of them goes to the last. */
  lemma ClampedSlotIsRowIff(v: nat, slots: nat)
    requires v < U64 && 0 < slots <= 63
    ensures InRow(v, Slot(v, slots)) <==> v < Pow2(slots)
    ensures v >= Pow2(slots) ==> Slot(v, slots) == slots - 1
  {
    hide Log2l, InRow, Top;
    SlotIsRow(v, Slot(v, slots));
    Log2lIsTop(v);
    if v > 0 { TopBelow(v, Log2l(v), slots); }
  }
}
