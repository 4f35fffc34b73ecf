/** The "keep only the N most recent entries" step shared by the timedtext URL
    cache (cap 200, ordered by createdAt, background.js) and the per-site
    override map (cap 100, ordered by updatedAt, content.js). Both sources sort
    `Array.from(entries)` with the comparator `(a, b) => stamp(b) - stamp(a)`,
    which Array.prototype.sort applies stably, and then delete every key from
    position `cap` on. */
module NewestFirst {
  import opened OrderedMap

  predicate NewestFirstOrder<K, V>(s: seq<(K, V)>, stamp: V -> int) {
    forall i, j :: 0 <= i < j < |s| ==> stamp(s[i].1) >= stamp(s[j].1)
  }

  /** One insertion step of a stable descending sort: `x` came before every element of `t`. */
  function InsertByStamp<K, V>(x: (K, V), t: seq<(K, V)>, stamp: V -> int): (r: seq<(K, V)>)
    ensures |r| == |t| + 1
    ensures multiset(r) == multiset([x] + t)
  {
    if t == [] || stamp(x.1) >= stamp(t[0].1) then [x] + t
    else
      assert [t[0]] + t[1..] == t;
      [t[0]] + InsertByStamp(x, t[1..], stamp)
  }

  /** No element of `s` is newer than `b`. */
  predicate AllAtMost<K, V>(s: seq<(K, V)>, stamp: V -> int, b: int) {
    forall i :: 0 <= i < |s| ==> stamp(s[i].1) <= b
  }

  lemma SameElementsAtMost<K, V>(s: seq<(K, V)>, t: seq<(K, V)>, stamp: V -> int, b: int)
    requires multiset(s) == multiset(t) && AllAtMost(t, stamp, b)
    ensures AllAtMost(s, stamp, b)
  {
    forall i | 0 <= i < |s| ensures stamp(s[i].1) <= b {
      assert s[i] in multiset(t);
      var j :| 0 <= j < |t| && t[j] == s[i];
    }
  }

  lemma ConsOrder<K, V>(y: (K, V), r: seq<(K, V)>, stamp: V -> int)
    requires NewestFirstOrder(r, stamp) && AllAtMost(r, stamp, stamp(y.1))
    ensures NewestFirstOrder([y] + r, stamp)
  {
    var c := [y] + r;
    forall i, j | 0 <= i < j < |c| ensures stamp(c[i].1) >= stamp(c[j].1) {
      assert c[j] == r[j - 1];
      if i > 0 {
        assert c[i] == r[i - 1];
      }
    }
  }

  lemma {:induction false} InsertKeepsOrder<K, V>(x: (K, V), t: seq<(K, V)>, stamp: V -> int)
    requires NewestFirstOrder(t, stamp)
    ensures NewestFirstOrder(InsertByStamp(x, t, stamp), stamp)
  {
    if t == [] || stamp(x.1) >= stamp(t[0].1) {
      ConsOrder(x, t, stamp);
    } else {
      var tail := t[1..];
      assert forall i :: 0 <= i < |tail| ==> tail[i] == t[i + 1];
      var rest := InsertByStamp(x, tail, stamp);
      InsertKeepsOrder(x, tail, stamp);
      var c := [x] + tail;
      assert AllAtMost(c, stamp, stamp(t[0].1)) by {
        forall i | 0 <= i < |c| ensures stamp(c[i].1) <= stamp(t[0].1) {
          if i > 0 {
            assert c[i] == t[i];
          }
        }
      }
      SameElementsAtMost(rest, c, stamp, stamp(t[0].1));
      ConsOrder(t[0], rest, stamp);
    }
  }

  lemma {:induction false} InsertKeepsDistinct<K, V>(x: (K, V), t: seq<(K, V)>, stamp: V -> int)
    requires DistinctKeys(t) && x.0 !in Keys(t)
    ensures DistinctKeys(InsertByStamp(x, t, stamp))
  {
    if t == [] || stamp(x.1) >= stamp(t[0].1) {
      ConsDistinct(x, t);
    } else {
      var tail := t[1..];
      DistinctTail(t);
      KeysCons(t[0], tail);
      assert [t[0]] + tail == t;
      InsertKeepsDistinct(x, tail, stamp);
      var rest := InsertByStamp(x, tail, stamp);
      KeysSameElements(rest, [x] + tail);
      KeysCons(x, tail);
      ConsDistinct(t[0], rest);
    }
  }

  /** Array.prototype.sort with the newest-first comparator (stable). */
  function SortNewestFirst<K, V>(s: seq<(K, V)>, stamp: V -> int): (r: seq<(K, V)>)
    ensures |r| == |s|
    ensures multiset(r) == multiset(s)
  {
    if s == [] then []
    else
      assert [s[0]] + s[1..] == s;
      InsertByStamp(s[0], SortNewestFirst(s[1..], stamp), stamp)
  }

  lemma {:induction false} SortIsNewestFirst<K, V>(s: seq<(K, V)>, stamp: V -> int)
    ensures NewestFirstOrder(SortNewestFirst(s, stamp), stamp)
  {
    if s != [] {
      SortIsNewestFirst(s[1..], stamp);
      InsertKeepsOrder(s[0], SortNewestFirst(s[1..], stamp), stamp);
    }
  }

  lemma {:induction false} SortKeepsDistinct<K, V>(s: seq<(K, V)>, stamp: V -> int)
    requires DistinctKeys(s)
    ensures DistinctKeys(SortNewestFirst(s, stamp))
  {
    if s != [] {
      var tail := s[1..];
      assert forall i :: 0 <= i < |tail| ==> tail[i] == s[i + 1];
      SortKeepsDistinct(tail, stamp);
      var rest := SortNewestFirst(tail, stamp);
      forall i | 0 <= i < |rest| ensures rest[i].0 != s[0].0 {
        assert rest[i] in multiset(tail);
        var j :| 0 <= j < |tail| && tail[j] == rest[i];
      }
      InsertKeepsDistinct(s[0], rest, stamp);
    }
  }

  /** The keys `entries.sort(...).slice(cap)` selects for deletion. */
  function DroppedKeys<K, V>(s: seq<(K, V)>, stamp: V -> int, cap: nat): (d: set<K>)
    ensures d <= Keys(s)
  {
    var sorted := SortNewestFirst(s, stamp);
    var d := if |sorted| <= cap then {} else Keys(sorted[cap..]);
    assert d <= Keys(s) by {
      forall k | k in d ensures k in Keys(s) {
        var i :| 0 <= i < |sorted[cap..]| && sorted[cap..][i].0 == k;
        assert sorted[cap + i] in multiset(s);
        var j :| 0 <= j < |s| && s[j] == sorted[cap + i];
      }
    }
    d
  }

  /** Exactly |s| - cap keys are selected when the map is over its cap. */
  lemma DroppedCount<K, V>(s: seq<(K, V)>, stamp: V -> int, cap: nat)
    requires DistinctKeys(s) && |s| > cap
    ensures |DroppedKeys(s, stamp, cap)| == |s| - cap
  {
    var sorted := SortNewestFirst(s, stamp);
    SortKeepsDistinct(s, stamp);
    var tail := sorted[cap..];
    assert DistinctKeys(tail) by {
      assert forall i :: 0 <= i < |tail| ==> tail[i] == sorted[cap + i];
    }
    DistinctKeysCount(tail);
  }

  /** In the sorted order, every selected key sits at or after `cap` and every other key before it. */
  lemma DroppedPosition<K, V>(s: seq<(K, V)>, stamp: V -> int, cap: nat, p: (K, V), a: nat)
    requires DistinctKeys(s)
    requires a < |s| && SortNewestFirst(s, stamp)[a] == p
    ensures p.0 in DroppedKeys(s, stamp, cap) <==> a >= cap
  {
    var sorted := SortNewestFirst(s, stamp);
    SortKeepsDistinct(s, stamp);
    if |sorted| > cap {
      if p.0 in Keys(sorted[cap..]) {
        var b :| 0 <= b < |sorted[cap..]| && sorted[cap..][b].0 == p.0;
        assert sorted[cap + b].0 == sorted[a].0;
      }
      if a >= cap {
        assert sorted[cap..][a - cap] == p;
      }
    }
  }

  /** What is left once the selected keys are deleted: exactly min(|s|, cap)
      entries, and the map itself when it was within its cap. */
  lemma PruneKeepsCount<K, V>(s: seq<(K, V)>, stamp: V -> int, cap: nat)
    requires DistinctKeys(s)
    ensures |Without(s, DroppedKeys(s, stamp, cap))| == (if |s| <= cap then |s| else cap)
    ensures |s| <= cap ==> Without(s, DroppedKeys(s, stamp, cap)) == s
  {
    var d := DroppedKeys(s, stamp, cap);
    if |s| <= cap {
      WithoutNothing(s);
    } else {
      DroppedCount(s, stamp, cap);
      WithoutCount(s, d);
      assert d * Keys(s) == d;
    }
  }

  /** A surviving entry is never older than a deleted one. */
  lemma PruneKeepsNewest<K, V>(s: seq<(K, V)>, stamp: V -> int, cap: nat, p: (K, V), q: (K, V))
    requires DistinctKeys(s)
    requires p in s && p.0 !in DroppedKeys(s, stamp, cap)
    requires q in s && q.0 in DroppedKeys(s, stamp, cap)
    ensures stamp(p.1) >= stamp(q.1)
  {
    var sorted := SortNewestFirst(s, stamp);
    SortIsNewestFirst(s, stamp);
    assert p in multiset(sorted);
    var a :| 0 <= a < |sorted| && sorted[a] == p;
    DroppedPosition(s, stamp, cap, p, a);
    assert q in multiset(sorted);
    var b :| 0 <= b < |sorted| && sorted[b] == q;
    DroppedPosition(s, stamp, cap, q, b);
  }
}
