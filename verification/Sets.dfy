/** Facts about finite sets of naturals, used to count bitmap bits. */
module Sets {

  /** The numbers 0, 1, ..., n - 1. */
  ghost function Below(n: nat): (s: set<nat>)
    ensures forall x: nat :: x in s <==> x < n
    ensures |s| == n
  {
    if n == 0 then {} else Below(n - 1) + {n - 1}
  }

  lemma {:induction false} SubsetSize<T>(a: set<T>, b: set<T>)
    requires a <= b
    ensures |a| <= |b|
    ensures a != b ==> |a| < |b|
    decreases |a|
  {
    if a == {} {
    } else {
      var x :| x in a;
      SubsetSize(a - {x}, b - {x});
      assert a - {x} == b - {x} ==> a == (a - {x}) + {x} == (b - {x}) + {x} == b;
    }
  }

  lemma DisjointUnionSize<T>(a: set<T>, b: set<T>)
    requires a !! b
    ensures |a + b| == |a| + |b|
  {
    assert |a + b| == |a| + |b| - |a * b|;
  }

  /** A set of fewer than n numbers below n leaves one of them out. */
  lemma FreeElement(s: set<nat>, n: nat)
    requires s <= Below(n)
    requires |s| < n
    ensures exists x: nat :: x < n && x !in s
  {
    assert s != Below(n);
    var x :| x in Below(n) && x !in s;
  }

  /** First number at or after start that is not in bits: the answer of a bitmap Find for a clear bit. */
  function NextClear(bits: set<nat>, start: nat): (r: nat)
    ensures start <= r
    ensures r !in bits
    ensures forall x :: start <= x < r ==> x in bits
    decreases |bits - Below(start)|
  {
    if start in bits then
      assert start in bits - Below(start) && start !in bits - Below(start + 1);
      assert bits - Below(start + 1) < bits - Below(start);
      SubsetSize(bits - Below(start + 1), bits - Below(start));
      NextClear(bits, start + 1)
    else
      start
  }

  /** The least element of a non-empty set. */
  ghost function Min(s: set<nat>): (m: nat)
    requires s != {}
    ensures m in s
    ensures forall x :: x in s ==> m <= x
  {
    var x :| x in s;
    if s == {x} then x else
      var k := Min(s - {x});
      assert s == (s - {x}) + {x};
      if k < x then k else x
  }

  /** A map that takes different keys to different values has as many values as keys. */
  lemma InjectiveSize<K, V>(m: map<K, V>, values: set<V>)
    requires forall b :: b in values <==> exists k :: k in m && m[k] == b
    requires forall k, l :: k in m && l in m && k != l ==> m[k] != m[l]
    ensures |values| == |m.Keys|
  {
    InjectiveOn(m, m.Keys, values);
  }

  lemma {:induction false} InjectiveOn<K, V>(m: map<K, V>, keys: set<K>, values: set<V>)
    requires keys <= m.Keys && forall b :: b in values <==> exists k :: k in keys && m[k] == b
    requires forall k, l :: k in m && l in m && k != l ==> m[k] != m[l]
    ensures |values| == |keys|
    decreases |keys|
  {
    if keys == {} {
      assert values == {};
    } else {
      var k :| k in keys;
      assert m[k] in values;
      forall b ensures b in values - {m[k]} <==> exists l :: l in keys - {k} && m[l] == b {
        if b in values - {m[k]} {
          var l :| l in keys && m[l] == b;
          assert l in keys - {k};
        }
      }
      InjectiveOn(m, keys - {k}, values - {m[k]});
    }
  }
}
