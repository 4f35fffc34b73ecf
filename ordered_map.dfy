/** A JavaScript Map (or a plain object with string keys) as a sequence of
    key/value pairs in insertion order. Iteration order, `keys().next()` and
    `Object.entries` all follow this order. */
module OrderedMap {
  import opened JsStrings

  predicate DistinctKeys<K(==), V>(s: seq<(K, V)>) {
    forall i, j :: 0 <= i < j < |s| ==> s[i].0 != s[j].0
  }

  function Keys<K(==), V>(s: seq<(K, V)>): set<K> {
    set i | 0 <= i < |s| :: s[i].0
  }

  /** Map.prototype.get. */
  function Get<K(==), V>(s: seq<(K, V)>, k: K): (r: Option<V>)
    ensures r.None? <==> k !in Keys(s)
    ensures r.Some? ==> (k, r.value) in s
    ensures DistinctKeys(s) ==> forall i :: 0 <= i < |s| && s[i].0 == k ==> r == Some(s[i].1)
  {
    if s == [] then None
    else if s[0].0 == k then Some(s[0].1)
    else
      var r := Get(s[1..], k);
      assert Keys(s) == {s[0].0} + Keys(s[1..]) by {
        assert forall i :: 1 <= i < |s| ==> s[i] == s[1..][i - 1];
      }
      r
  }

  /** Map.prototype.set: an existing key keeps its place, a new key goes to the back. */
  function Put<K(==), V>(s: seq<(K, V)>, k: K, v: V): (r: seq<(K, V)>)
    ensures k !in Keys(s) ==> r == s + [(k, v)]
    ensures k in Keys(s) ==> |r| == |s| && forall i :: 0 <= i < |s| ==> r[i] == if s[i].0 == k then (k, v) else s[i]
    ensures Keys(r) == Keys(s) + {k}
    ensures DistinctKeys(s) ==> DistinctKeys(r)
  {
    if k in Keys(s) then
      var r := seq(|s|, i requires 0 <= i < |s| => if s[i].0 == k then (k, v) else s[i]);
      assert forall i :: 0 <= i < |s| ==> r[i].0 == s[i].0;
      assert Keys(r) == Keys(s);
      r
    else
      var r := s + [(k, v)];
      assert forall i :: 0 <= i < |s| ==> r[i] == s[i];
      assert r[|s|] == (k, v);
      assert Keys(r) == Keys(s) + {k} by {
        forall x | x in Keys(r) ensures x in Keys(s) + {k} {
          var i :| 0 <= i < |r| && r[i].0 == x;
          if i < |s| { assert s[i].0 == x; }
        }
      }
      r
  }

  /** The entries whose key is not in `ks`, in their original order. */
  function Without<K(==), V>(s: seq<(K, V)>, ks: set<K>): (r: seq<(K, V)>)
    ensures |r| <= |s|
    ensures forall i :: 0 <= i < |r| ==> r[i] in s && r[i].0 !in ks
    ensures forall i :: 0 <= i < |s| && s[i].0 !in ks ==> s[i] in r
    ensures DistinctKeys(s) ==> DistinctKeys(r)
  {
    DropFacts(s, ks);
    Drop(s, ks)
  }

  /** The filter behind Without, kept free of contracts so that equations about
      it are proved by unfolding alone. */
  function Drop<K(==), V>(s: seq<(K, V)>, ks: set<K>): seq<(K, V)> {
    if s == [] then [] else (if s[0].0 in ks then [] else [s[0]]) + Drop(s[1..], ks)
  }

  lemma {:induction false} DropFacts<K, V>(s: seq<(K, V)>, ks: set<K>)
    ensures var r := Drop(s, ks);
      && |r| <= |s|
      && (forall i :: 0 <= i < |r| ==> r[i] in s && r[i].0 !in ks)
      && (forall i :: 0 <= i < |s| && s[i].0 !in ks ==> s[i] in r)
      && (DistinctKeys(s) ==> DistinctKeys(r))
  {
    if s != [] {
      var rest := Drop(s[1..], ks);
      DropFacts(s[1..], ks);
      assert forall p :: p in s[1..] ==> p in s;
      assert forall i :: 1 <= i < |s| ==> s[i] == s[1..][i - 1];
      if s[0].0 !in ks {
        assert Drop(s, ks) == [s[0]] + rest;
        assert DistinctKeys(s) ==> forall i :: 0 <= i < |rest| ==> rest[i].0 != s[0].0 by {
          if DistinctKeys(s) {
            forall i | 0 <= i < |rest| ensures rest[i].0 != s[0].0 {
              var j :| 0 <= j < |s[1..]| && s[1..][j] == rest[i];
              assert s[j + 1] == rest[i];
            }
          }
        }
      } else {
        assert Drop(s, ks) == rest;
      }
    }
  }

  lemma {:induction false} DropAppend<K, V>(a: seq<(K, V)>, b: seq<(K, V)>, ks: set<K>)
    ensures Drop(a + b, ks) == Drop(a, ks) + Drop(b, ks)
  {
    var c := a + b;
    if a == [] {
      assert c == b;
    } else {
      assert c[0] == a[0] && c[1..] == a[1..] + b;
      DropAppend(a[1..], b, ks);
      var h := if a[0].0 in ks then [] else [a[0]];
      calc {
        Drop(c, ks);
        h + Drop(c[1..], ks);
        h + (Drop(a[1..], ks) + Drop(b, ks));
        (h + Drop(a[1..], ks)) + Drop(b, ks);
      }
    }
  }

  lemma {:induction false} DropTwice<K, V>(s: seq<(K, V)>, a: set<K>, b: set<K>)
    ensures Drop(Drop(s, a), b) == Drop(s, a + b)
  {
    if s != [] {
      DropTwice(s[1..], a, b);
      var d := Drop(s, a);
      if s[0].0 in a {
        assert d == Drop(s[1..], a);
      } else {
        assert d == [s[0]] + Drop(s[1..], a);
        assert d[0] == s[0] && d[1..] == Drop(s[1..], a);
      }
    }
  }

  /** Map.prototype.delete. */
  function Delete<K(==), V>(s: seq<(K, V)>, k: K): (r: seq<(K, V)>)
    ensures forall i :: 0 <= i < |r| ==> r[i] in s && r[i].0 != k
    ensures forall i :: 0 <= i < |s| && s[i].0 != k ==> s[i] in r
    ensures DistinctKeys(s) ==> DistinctKeys(r)
    ensures Keys(r) == Keys(s) - {k}
  {
    var r := Without(s, {k});
    KeysWithout(s, {k});
    r
  }

  lemma {:induction false} KeysWithout<K, V>(s: seq<(K, V)>, ks: set<K>)
    ensures Keys(Without(s, ks)) == Keys(s) - ks
  {
    var r := Without(s, ks);
    forall k | k in Keys(s) - ks ensures k in Keys(r) {
      var i :| 0 <= i < |s| && s[i].0 == k;
      assert s[i] in r;
      var j :| 0 <= j < |r| && r[j] == s[i];
    }
    forall k | k in Keys(r) ensures k in Keys(s) - ks {
      var j :| 0 <= j < |r| && r[j].0 == k;
      assert r[j] in s;
      var i :| 0 <= i < |s| && s[i] == r[j];
    }
  }

  lemma {:induction false} WithoutNothing<K, V>(s: seq<(K, V)>)
    ensures Without(s, {}) == s
  {
    if s != [] {
      WithoutNothing(s[1..]);
    }
  }

  lemma WithoutTwice<K, V>(s: seq<(K, V)>, a: set<K>, b: set<K>)
    ensures Without(Without(s, a), b) == Without(s, a + b)
  {
    DropTwice(s, a, b);
  }

  lemma {:induction false} DistinctKeysCount<K, V>(s: seq<(K, V)>)
    requires DistinctKeys(s)
    ensures |Keys(s)| == |s|
  {
    if s != [] {
      var rest := s[1..];
      DistinctKeysCount(rest);
      assert Keys(s) == {s[0].0} + Keys(rest) by {
        assert forall i :: 1 <= i < |s| ==> s[i] == rest[i - 1];
      }
      assert s[0].0 !in Keys(rest) by {
        forall i | 0 <= i < |rest| ensures rest[i].0 != s[0].0 {
          assert rest[i] == s[i + 1];
        }
      }
    }
  }

  /** Deleting keys from a map with distinct keys removes one entry per present key. */
  lemma WithoutCount<K, V>(s: seq<(K, V)>, ks: set<K>)
    requires DistinctKeys(s)
    ensures |Without(s, ks)| == |s| - |ks * Keys(s)|
  {
    var r := Without(s, ks);
    KeysWithout(s, ks);
    DistinctKeysCount(s);
    DistinctKeysCount(r);
    assert Keys(s) == Keys(r) + (ks * Keys(s));
    assert Keys(r) !! (ks * Keys(s));
  }

  /** Deleting keys that are not there changes nothing. */
  lemma {:induction false} WithoutAbsent<K, V>(s: seq<(K, V)>, ks: set<K>)
    requires ks !! Keys(s)
    ensures Without(s, ks) == s
  {
    if s != [] {
      assert s[0].0 in Keys(s);
      assert Keys(s[1..]) <= Keys(s) by {
        forall k | k in Keys(s[1..]) ensures k in Keys(s) {
          var i :| 0 <= i < |s[1..]| && s[1..][i].0 == k;
          assert s[i + 1].0 == k;
        }
      }
      WithoutAbsent(s[1..], ks);
      assert [s[0]] + s[1..] == s;
    }
  }

  lemma DistinctTail<K, V>(s: seq<(K, V)>)
    requires DistinctKeys(s) && s != []
    ensures DistinctKeys(s[1..]) && s[0].0 !in Keys(s[1..])
  {
    var t := s[1..];
    assert forall i :: 0 <= i < |t| ==> t[i] == s[i + 1];
  }

  /** `map.keys().next().value` followed by `map.delete` drops the front entry. */
  lemma DeleteFront<K, V>(s: seq<(K, V)>)
    requires DistinctKeys(s) && s != []
    ensures Delete(s, s[0].0) == s[1..]
  {
    DistinctTail(s);
    WithoutAbsent(s[1..], {s[0].0});
  }

  lemma WithoutAppend<K, V>(a: seq<(K, V)>, b: seq<(K, V)>, ks: set<K>)
    ensures Without(a + b, ks) == Without(a, ks) + Without(b, ks)
  {
    DropAppend(a, b, ks);
  }

  /** Map.prototype.delete of a present key shrinks the map by one. */
  lemma DeleteLength<K, V>(s: seq<(K, V)>, k: K)
    ensures DistinctKeys(s) && k in Keys(s) ==> |Delete(s, k)| == |s| - 1
  {
    if DistinctKeys(s) && k in Keys(s) {
      WithoutCount(s, {k});
      assert {k} * Keys(s) == {k};
    }
  }

  /** The keys of a one-longer prefix. */
  lemma KeysPrefixStep<K, V>(s: seq<(K, V)>, i: nat)
    requires i < |s|
    ensures Keys(s[..i + 1]) == Keys(s[..i]) + {s[i].0}
  {
    var a, b := s[..i + 1], s[..i];
    assert forall j :: 0 <= j < i ==> a[j] == b[j];
    assert a[i] == s[i];
    forall k | k in Keys(a) ensures k in Keys(b) + {s[i].0} {
      var j :| 0 <= j < |a| && a[j].0 == k;
      if j < i { assert b[j].0 == k; }
    }
  }

  /** One more key deleted from what is left. */
  lemma DeleteStep<K, V>(s: seq<(K, V)>, done: set<K>, k: K)
    ensures Delete(Without(s, done), k) == Without(s, done + {k})
  {
    WithoutTwice(s, done, {k});
  }

  lemma KeysCons<K, V>(x: (K, V), t: seq<(K, V)>)
    ensures Keys([x] + t) == {x.0} + Keys(t)
  {
    var c := [x] + t;
    assert forall i :: 0 <= i < |t| ==> c[i + 1] == t[i];
    forall k | k in Keys(c) ensures k in {x.0} + Keys(t) {
      var i :| 0 <= i < |c| && c[i].0 == k;
      if i > 0 {
        assert t[i - 1].0 == k;
      }
    }
    forall k | k in Keys(t) ensures k in Keys(c) {
      var i :| 0 <= i < |t| && t[i].0 == k;
      assert c[i + 1].0 == k;
    }
    assert c[0].0 == x.0;
  }

  lemma ConsDistinct<K, V>(x: (K, V), t: seq<(K, V)>)
    requires DistinctKeys(t) && x.0 !in Keys(t)
    ensures DistinctKeys([x] + t)
  {
    var c := [x] + t;
    forall i, j | 0 <= i < j < |c| ensures c[i].0 != c[j].0 {
      assert c[j] == t[j - 1];
      if i > 0 {
        assert c[i] == t[i - 1];
      }
    }
  }

  /** Two orderings of the same entries have the same keys. */
  lemma KeysSameElements<K, V>(s: seq<(K, V)>, t: seq<(K, V)>)
    requires multiset(s) == multiset(t)
    ensures Keys(s) == Keys(t)
  {
    forall k | k in Keys(s) ensures k in Keys(t) {
      var i :| 0 <= i < |s| && s[i].0 == k;
      assert s[i] in multiset(t);
      var j :| 0 <= j < |t| && t[j] == s[i];
    }
    forall k | k in Keys(t) ensures k in Keys(s) {
      var i :| 0 <= i < |t| && t[i].0 == k;
      assert t[i] in multiset(s);
      var j :| 0 <= j < |s| && s[j] == t[i];
    }
  }
}
