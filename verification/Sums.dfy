/** Sums over the entries of a finite map, in no particular order. */
module Sums {

  ghost function SumBy<V>(m: map<nat, V>, f: V -> int): int {
    if m.Keys == {} then 0
    else
      var a :| a in m;
      f(m[a]) + SumBy(m - {a}, f)
  }

  lemma {:induction false} SumRemove<V>(m: map<nat, V>, f: V -> int, a: nat)
    requires a in m
    ensures SumBy(m, f) == f(m[a]) + SumBy(m - {a}, f)
  {
    var b :| b in m && SumBy(m, f) == f(m[b]) + SumBy(m - {b}, f);
    if a != b {
      SumRemove(m - {b}, f, a);
      SumRemove(m - {a}, f, b);
      assert m - {a} - {b} == m - {b} - {a};
    }
  }

  lemma SumInsert<V>(m: map<nat, V>, f: V -> int, a: nat, v: V)
    requires a !in m
    ensures SumBy(m[a := v], f) == f(v) + SumBy(m, f)
  {
    SumRemove(m[a := v], f, a);
    assert m[a := v] - {a} == m;
  }

  lemma {:induction false} SumZero<V>(m: map<nat, V>, f: V -> int)
    requires forall a | a in m :: f(m[a]) == 0
    ensures SumBy(m, f) == 0
  {
    if m.Keys != {} {
      var a :| a in m;
      SumRemove(m, f, a);
      SumZero(m - {a}, f);
    }
  }

  /** What changing one entry does to a sum. */
  lemma SumUpdate<V>(m: map<nat, V>, f: V -> int, a: nat, v: V)
    ensures SumBy(m[a := v], f) == SumBy(m, f) + f(v) - (if a in m then f(m[a]) else 0)
  {
    if a in m {
      SumRemove(m, f, a);
      SumRemove(m[a := v], f, a);
      assert m[a := v] - {a} == m - {a};
    } else {
      SumInsert(m, f, a, v);
    }
  }

  lemma SumDrop<V>(m: map<nat, V>, f: V -> int, a: nat)
    ensures SumBy(m - {a}, f) == SumBy(m, f) - (if a in m then f(m[a]) else 0)
  {
    if a in m { SumRemove(m, f, a); } else { assert m - {a} == m; }
  }

  lemma {:induction false} SumDifference<V>(m: map<nat, V>, f: V -> int, g: V -> int, h: V -> int)
    requires forall a | a in m :: f(m[a]) - g(m[a]) == h(m[a])
    ensures SumBy(m, f) - SumBy(m, g) == SumBy(m, h)
  {
    if m.Keys != {} {
      hide SumBy;
      var a :| a in m;
      SumRemove(m, f, a);
      SumRemove(m, g, a);
      SumRemove(m, h, a);
      SumDifference(m - {a}, f, g, h);
    }
  }

  lemma {:induction false} SumNonNegative<V>(m: map<nat, V>, f: V -> int)
    requires forall a | a in m :: f(m[a]) >= 0
    ensures SumBy(m, f) >= 0
  {
    if m.Keys != {} {
      hide SumBy;
      var a :| a in m;
      SumRemove(m, f, a);
      SumNonNegative(m - {a}, f);
    }
  }
}
