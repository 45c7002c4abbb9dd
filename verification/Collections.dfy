/** Finite sets and maps: intervals, cardinalities, enumerations without repetition, and maps changed key by key. */
module Collections {

  lemma AnyElement<T>(s: set<T>) returns (x: T)
    requires s != {}
    ensures x in s
  {
    assert !(forall y :: y !in s) || s == {};
    x :| x in s;
  }

  ghost function Interval(lo: int, hi: int): (s: set<int>)
    requires lo <= hi
    ensures forall d :: d in s <==> lo <= d < hi
    ensures |s| == hi - lo
    decreases hi - lo
  {
    if lo == hi then {} else Interval(lo, hi - 1) + {hi - 1}
  }

  lemma {:induction false} SubsetSize<T>(small: set<T>, big: set<T>)
    requires small <= big
    ensures |small| <= |big|
    ensures |small| == |big| ==> small == big
    decreases small
  {
    if small != {} {
      var x := AnyElement(small);
      SubsetSize(small - {x}, big - {x});
    }
  }

  /** `order` lists each element of `s` exactly once. */
  ghost predicate Enumerates(order: seq<int>, s: set<int>) {
    && (forall i, j :: 0 <= i < j < |order| ==> order[i] != order[j])
    && (forall x :: x in order <==> x in s)
  }

  lemma {:induction false} EnumerationExists(s: set<int>)
    ensures exists order :: Enumerates(order, s)
    decreases s
  {
    if s == {} {
      assert Enumerates([], s);
    } else {
      var x := AnyElement(s);
      EnumerationExists(s - {x});
      var rest :| Enumerates(rest, s - {x});
      EnumeratesCons(x, rest, s - {x});
      assert {x} + (s - {x}) == s;
    }
  }

  lemma EnumeratesCons(x: int, rest: seq<int>, s: set<int>)
    requires Enumerates(rest, s) && x !in s
    ensures Enumerates([x] + rest, {x} + s)
  {
    var order := [x] + rest;
    assert order[0] == x && forall i :: 0 < i < |order| ==> order[i] == rest[i - 1] && order[i] in rest;
    assert forall y :: y in rest ==> y in order;
  }

  lemma EnumeratesTail(order: seq<int>, s: set<int>)
    requires Enumerates(order, s) && order != []
    ensures order[0] in s && Enumerates(order[1..], s - {order[0]})
  {
    var first, rest := order[0], order[1..];
    assert forall i :: 0 <= i < |rest| ==> rest[i] == order[i + 1] && rest[i] != first && rest[i] in order;
    forall x | x in s && x != first ensures x in rest {
      var i :| 0 <= i < |order| && order[i] == x;
      assert rest[i - 1] == x;
    }
    assert first in order;
  }

  lemma {:induction false} EnumerationSize(order: seq<int>, s: set<int>)
    requires Enumerates(order, s)
    ensures |order| == |s|
  {
    if order == [] {
      if s != {} {
        var x := AnyElement(s);
        assert false;
      }
    } else {
      EnumeratesTail(order, s);
      EnumerationSize(order[1..], s - {order[0]});
    }
  }

  function MapValues<K, V>(f: V -> V, m: map<K, V>): map<K, V> {
    map k | k in m :: f(m[k])
  }

  /** `m` with `f` applied to the values of all keys outside `todo`. */
  function Partly<K, V>(f: V -> V, m: map<K, V>, todo: set<K>): map<K, V> {
    m + MapValues(f, m - todo)
  }

  /** Nothing is done while every key is still to do, and everything once no key is. */
  lemma PartlyEnds<K, V>(f: V -> V, m: map<K, V>)
    ensures Partly(f, m, m.Keys) == m && Partly(f, m, {}) == MapValues(f, m)
    ensures m - m.Keys == map[] && m - {} == m
  {
  }

  /** Doing one more key. */
  lemma PartlyStep<K, V>(f: V -> V, m: map<K, V>, todo: set<K>, k: K)
    requires k in todo && k in m
    ensures k in Partly(f, m, todo) && Partly(f, m, todo)[k] == m[k]
    ensures Partly(f, m, todo - {k}) == Partly(f, m, todo)[k := f(m[k])]
    ensures k !in m - todo && m - (todo - {k}) == (m - todo)[k := m[k]]
  {
  }

  /** A map has at most as many values as keys. */
  lemma {:induction false} ValuesSize(m: map<int, int>)
    ensures |m.Values| <= |m|
    decreases |m|
  {
    if m != map[] {
      assert m.Keys != {};
      var k := AnyElement(m.Keys);
      var rest := m - {k};
      assert rest.Keys == m.Keys - {k};
      ValuesSize(rest);
      assert m.Values == rest.Values + {m[k]};
    } else {
      assert m.Values == {};
    }
  }

  /** An injective map into `[0, e)` has at most `e` entries. */
  lemma {:induction false} InjectiveBelow(m: map<int, int>, e: nat)
    requires forall k :: k in m ==> 0 <= m[k] < e
    requires forall k, k' :: k in m && k' in m && k != k' ==> m[k] != m[k']
    ensures |m| <= e
    decreases e
  {
    if e == 0 {
      if m.Keys != {} {
        var k := AnyElement(m.Keys);
        assert false;
      }
    } else if k :| k in m && m[k] == e - 1 {
      var rest := m - {k};
      assert rest.Keys == m.Keys - {k};
      InjectiveBelow(rest, e - 1);
    } else {
      InjectiveBelow(m, e - 1);
    }
  }
}
