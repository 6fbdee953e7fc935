/** Shared datatypes and sums over finite maps. */
module Basics {

  datatype Option<+T> = None | Some(value: T)

  function Min(a: int, b: int): int { if a <= b then a else b }

  /** The sum of `f` over the values of `m`, independent of the order in which keys are taken. */
  ghost function Total<T>(m: map<nat, T>, f: T -> int): int
    decreases |m|
  {
    if m == map[] then 0 else
      var k :| k in m;
      assert (m - {k}).Keys == m.Keys - {k};
      f(m[k]) + Total(m - {k}, f)
  }

  lemma {:induction false} TotalRemove<T>(m: map<nat, T>, f: T -> int, k: nat)
    requires k in m
    ensures Total(m, f) == f(m[k]) + Total(m - {k}, f)
    decreases |m|
  {
    var c :| c in m && Total(m, f) == f(m[c]) + Total(m - {c}, f);
    if c != k {
      assert (m - {c}).Keys == m.Keys - {c} && (m - {k}).Keys == m.Keys - {k};
      TotalRemove(m - {c}, f, k);
      TotalRemove(m - {k}, f, c);
      assert m - {c} - {k} == m - {k} - {c};
    }
  }

  lemma TotalInsert<T>(m: map<nat, T>, f: T -> int, k: nat, v: T)
    requires k !in m
    ensures Total(m[k := v], f) == Total(m, f) + f(v)
  {
    TotalRemove(m[k := v], f, k);
    assert m[k := v] - {k} == m;
  }

  lemma {:induction false} TotalNonNegative<T>(m: map<nat, T>, f: T -> int)
    requires forall k :: k in m ==> f(m[k]) >= 0
    ensures Total(m, f) >= 0
    decreases |m|
  {
    if m != map[] {
      var k :| k in m;
      assert (m - {k}).Keys == m.Keys - {k};
      TotalRemove(m, f, k);
      TotalNonNegative(m - {k}, f);
    }
  }

  /** One summand never exceeds the whole sum when all summands are non-negative. */
  lemma TotalBounds<T>(m: map<nat, T>, f: T -> int, k: nat)
    requires k in m
    requires forall j :: j in m ==> f(m[j]) >= 0
    ensures f(m[k]) <= Total(m, f)
  {
    TotalRemove(m, f, k);
    TotalNonNegative(m - {k}, f);
  }
}
