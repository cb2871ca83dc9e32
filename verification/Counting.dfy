/** Sets have as many members as an injective map onto them has keys. */
module Counting {
  ghost predicate Injective<X, Y>(m: map<X, Y>) {
    forall x, y | x in m && y in m && m[x] == m[y] :: x == y
  }

  lemma {:induction false} InjectionKeepsSize<X, Y>(m: map<X, Y>)
    requires Injective(m)
    ensures |m.Keys| == |m.Values|
  {
    if m.Keys == {} {
      assert m.Values == {};
    } else {
      var x :| x in m.Keys;
      var rest := m - {x};
      InjectionKeepsSize(rest);
      assert m.Keys == rest.Keys + {x};
      assert m.Values == rest.Values + {m[x]};
      assert m[x] !in rest.Values;
    }
  }

  lemma BijectionKeepsSize<X, Y>(m: map<X, Y>, values: set<Y>)
    requires Injective(m)
    requires forall y :: y in values <==> y in m.Values
    ensures |m.Keys| == |values|
  {
    InjectionKeepsSize(m);
    assert m.Values == values;
  }
}
