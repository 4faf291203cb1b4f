/** Threads and sums over them. */
module Threads {
  /** A thread identifier; 0 names no thread. */
  type Tid = t: int | 0 < t witness 1

  ghost function Pick<X>(m: map<Tid, X>): (t: Tid)
    requires m != map[]
    ensures t in m
  {
    var t :| t in m; t
  }

  /** The sum of the weights of all threads. */
  ghost function Sum<X>(m: map<Tid, X>, f: X -> nat): nat
    decreases |m|
  {
    if m == map[] then 0 else
      var t := Pick(m);
      f(m[t]) + Sum(m - {t}, f)
  }

  lemma {:induction false} SumWithout<X>(m: map<Tid, X>, f: X -> nat, t: Tid)
    requires t in m
    ensures Sum(m, f) == f(m[t]) + Sum(m - {t}, f)
    decreases |m|
  {
    var u := Pick(m);
    if u != t {
      SumWithout(m - {u}, f, t);
      SumWithout(m - {t}, f, u);
      assert m - {u} - {t} == m - {t} - {u};
    }
  }

  /** The sum changes by the weight of the thread that changes. */
  lemma SumSet<X>(m: map<Tid, X>, f: X -> nat, t: Tid, x: X)
    ensures Sum(m[t := x], f) == f(x) + Sum(m - {t}, f)
    ensures t in m ==> Sum(m, f) == f(m[t]) + Sum(m - {t}, f)
    ensures t !in m ==> Sum(m, f) == Sum(m - {t}, f)
  {
    SumWithout(m[t := x], f, t);
    assert m[t := x] - {t} == m - {t};
    if t in m { SumWithout(m, f, t); } else { assert m - {t} == m; }
  }

  /** A sum is positive exactly if some thread has a weight. */
  lemma {:induction false} SumPositive<X>(m: map<Tid, X>, f: X -> nat)
    ensures Sum(m, f) > 0 <==> exists t :: t in m && f(m[t]) > 0
    decreases |m|
  {
    if m != map[] {
      var u := Pick(m);
      SumPositive(m - {u}, f);
      forall t | t in m && f(m[t]) > 0 ensures Sum(m, f) > 0 {
        SumWithout(m, f, t);
      }
      if Sum(m, f) > 0 && f(m[u]) == 0 {
        var t :| t in m - {u} && f((m - {u})[t]) > 0;
        assert t in m && f(m[t]) > 0;
      }
    }
  }

  lemma {:induction false} SumAtMost<X>(m: map<Tid, X>, f: X -> nat, g: X -> nat)
    requires forall t :: t in m ==> f(m[t]) <= g(m[t])
    ensures Sum(m, f) <= Sum(m, g)
    decreases |m|
  {
    if m != map[] {
      SumAtMost(m - {Pick(m)}, f, g);
    }
  }
}
