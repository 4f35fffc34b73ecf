/** The background worker's cache of signed YouTube timedtext URLs
    (background.js). Entries are keyed by `${tabId}:${videoId}`, expire after
    ten minutes and are capped at the 200 newest. `Date.now()` is a parameter. */
module TimedTextCache {
  import opened JsStrings
  import opened OrderedMap
  import opened NewestFirst

  const TtlMs: int := 10 * 60 * 1000
  const MaxEntries: nat := 200

  datatype Cached = Cached(url: string, createdAt: int)

  /** `(value?.createdAt || 0)`, the sort key of the hard cap. */
  function CreatedAt(c: Cached): int { c.createdAt }

  /** ytTimedTextKey. */
  function Key(tabId: nat, videoId: string): string {
    NatToString(tabId) + ":" + videoId
  }

  function TabPrefix(tabId: nat): string {
    NatToString(tabId) + ":"
  }

  predicate StartsWith(s: string, p: string) {
    |p| <= |s| && s[..|p|] == p
  }

  /** A key starts with `${t}:` exactly when it was made for tab t, whatever the video id. */
  lemma PrefixMatchesTab(t: nat, videoId: string, u: nat)
    ensures StartsWith(Key(t, videoId), TabPrefix(u)) <==> t == u
  {
    var a, b := NatToString(t), NatToString(u);
    var key := Key(t, videoId);
    assert key[..|a|] == a && key[|a|] == ':';
    if StartsWith(key, TabPrefix(u)) {
      assert key[..|b| + 1] == b + ":";
      assert key[|b|] == ':';
      if |a| == |b| {
        assert a == key[..|a|] == b;
        NatToStringInjective(t, u);
      }
    }
  }

  /** The first loop of pruneYouTubeTimedTextCache drops these. */
  predicate Expired(c: Cached, now: int) {
    c.createdAt == 0 || now - c.createdAt > TtlMs
  }

  function ExpiredKeys(s: seq<(string, Cached)>, now: int): set<string> {
    set i | 0 <= i < |s| && Expired(s[i].1, now) :: s[i].0
  }

  lemma ExpiredKeysStep(s: seq<(string, Cached)>, i: nat, now: int)
    requires i < |s|
    ensures ExpiredKeys(s[..i + 1], now) == ExpiredKeys(s[..i], now) + (if Expired(s[i].1, now) then {s[i].0} else {})
  {
    var a, b := s[..i + 1], s[..i];
    assert forall j :: 0 <= j < i ==> a[j] == b[j];
    assert a[i] == s[i];
    forall k | k in ExpiredKeys(a, now)
      ensures k in ExpiredKeys(b, now) + (if Expired(s[i].1, now) then {s[i].0} else {})
    {
      var j :| 0 <= j < |a| && Expired(a[j].1, now) && a[j].0 == k;
      if j < i { assert b[j].0 == k && Expired(b[j].1, now); }
    }
  }

  /** pruneYouTubeTimedTextCache, as a specification. */
  function Pruned(s: seq<(string, Cached)>, now: int): seq<(string, Cached)> {
    var live := Without(s, ExpiredKeys(s, now));
    if |live| > MaxEntries then Without(live, DroppedKeys(live, CreatedAt, MaxEntries)) else live
  }

  /** The TTL step keeps exactly the entries that have not expired, in order. */
  lemma DropExpiredExact(s: seq<(string, Cached)>, now: int)
    requires DistinctKeys(s)
    ensures var live := Without(s, ExpiredKeys(s, now));
      && (forall i :: 0 <= i < |live| ==> !Expired(live[i].1, now))
      && (forall i :: 0 <= i < |s| && !Expired(s[i].1, now) ==> s[i] in live)
  {
    var live := Without(s, ExpiredKeys(s, now));
    forall i | 0 <= i < |live| ensures !Expired(live[i].1, now) {
      var j :| 0 <= j < |s| && s[j] == live[i];
    }
    assert forall i :: 0 <= i < |s| && !Expired(s[i].1, now) ==> s[i].0 !in ExpiredKeys(s, now);
  }

  /** After a prune: at most 200 entries, each of them live and from the old map. */
  lemma PruneBounds(s: seq<(string, Cached)>, now: int)
    requires DistinctKeys(s)
    ensures var r := Pruned(s, now);
      && DistinctKeys(r)
      && |r| <= MaxEntries
      && forall i :: 0 <= i < |r| ==> !Expired(r[i].1, now) && r[i] in s
  {
    var live := Without(s, ExpiredKeys(s, now));
    DropExpiredExact(s, now);
    if |live| > MaxEntries {
      PruneKeepsCount(live, CreatedAt, MaxEntries);
    }
  }

  /** A live entry is pruned only when 200 entries at least as new as it are kept. */
  lemma PruneKeepsLive(s: seq<(string, Cached)>, now: int, p: (string, Cached))
    requires DistinctKeys(s) && p in s && !Expired(p.1, now)
    requires p !in Pruned(s, now)
    ensures |Pruned(s, now)| == MaxEntries
    ensures forall j :: 0 <= j < |Pruned(s, now)| ==> Pruned(s, now)[j].1.createdAt >= p.1.createdAt
  {
    var live := Without(s, ExpiredKeys(s, now));
    DropExpiredExact(s, now);
    var i :| 0 <= i < |s| && s[i] == p;
    assert p in live;
    var r := Pruned(s, now);
    if |live| > MaxEntries {
      var d := DroppedKeys(live, CreatedAt, MaxEntries);
      PruneKeepsCount(live, CreatedAt, MaxEntries);
      var m :| 0 <= m < |live| && live[m] == p;
      assert p.0 in d;
      forall j | 0 <= j < |r| ensures r[j].1.createdAt >= p.1.createdAt {
        PruneKeepsNewest(live, CreatedAt, MaxEntries, r[j], p);
      }
    }
  }

  /** A second prune at the same instant changes nothing. */
  lemma PruneIdempotent(s: seq<(string, Cached)>, now: int)
    requires DistinctKeys(s)
    ensures Pruned(Pruned(s, now), now) == Pruned(s, now)
  {
    var r := Pruned(s, now);
    PruneBounds(s, now);
    assert ExpiredKeys(r, now) == {};
    WithoutAbsent(r, {});
  }

  /** Last write wins: right after a write, a lookup of the same key finds the
      new URL, provided every other entry was written earlier. The proviso is
      needed: the size cap drops the oldest entries by createdAt, and with
      more than 200 entries stamped in the same millisecond the new one may
      be among those dropped. */
  lemma RecordThenLookup(s: seq<(string, Cached)>, key: string, url: string, now: int)
    requires DistinctKeys(s) && now > 0
    requires forall i :: 0 <= i < |s| ==> s[i].1.createdAt < now
    ensures Get(Pruned(Put(s, key, Cached(url, now)), now), key) == Some(Cached(url, now))
  {
    var t := Put(s, key, Cached(url, now));
    var c := (key, Cached(url, now));
    assert c in t by {
      if key in Keys(s) {
        var i :| 0 <= i < |s| && s[i].0 == key;
        assert t[i] == c;
      } else {
        assert t[|s|] == c;
      }
    }
    assert forall p :: p in t && p != c ==> p.1.createdAt < now by {
      forall p | p in t && p != c ensures p.1.createdAt < now {
        var j :| 0 <= j < |t| && t[j] == p;
        if p.0 != key {
          assert p in s;
        }
      }
    }
    PruneBounds(t, now);
    var r := Pruned(t, now);
    if c !in r {
      PruneKeepsLive(t, now, c);
    }
    var k :| 0 <= k < |r| && r[k] == c;
  }

  datatype LookupReply = LookupReply(success: bool, url: Option<string>)

  class UrlCache {
    var entries: seq<(string, Cached)>

    ghost predicate Valid()
      reads this
    {
      DistinctKeys(entries)
    }

    constructor ()
      ensures Valid() && entries == []
    {
      entries := [];
    }

    /** pruneYouTubeTimedTextCache. */
    method Prune(now: int)
      requires Valid()
      modifies this
      ensures Valid()
      ensures entries == Pruned(old(entries), now)
    {
      DropExpired(now);
      EnforceCap();
    }

    /** The TTL loop of pruneYouTubeTimedTextCache. */
    method DropExpired(now: int)
      requires Valid()
      modifies this
      ensures Valid()
      ensures entries == Without(old(entries), ExpiredKeys(old(entries), now))
    {
      var snapshot := entries;
      var i := 0;
      assert ExpiredKeys(snapshot[..0], now) == {};
      WithoutNothing(snapshot);
      while i < |snapshot|
        invariant 0 <= i <= |snapshot|
        invariant entries == Without(snapshot, ExpiredKeys(snapshot[..i], now))
      {
        var (key, value) := snapshot[i];
        DropExpiredStep(snapshot, i, now);
        if Expired(value, now) {
          entries := Delete(entries, key);
        }
        i := i + 1;
      }
      assert snapshot[..i] == snapshot;
    }

    /** The hard cap of pruneYouTubeTimedTextCache: delete the keys past the 200 newest. */
    method EnforceCap()
      requires Valid()
      modifies this
      ensures Valid()
      ensures entries == if |old(entries)| > MaxEntries
        then Without(old(entries), DroppedKeys(old(entries), CreatedAt, MaxEntries))
        else old(entries)
    {
      if |entries| <= MaxEntries {
        return;
      }
      var sorted := SortNewestFirst(entries, CreatedAt);
      var doomed := sorted[MaxEntries..];
      var live := entries;
      assert Keys(doomed[..0]) == {};
      WithoutNothing(live);
      var j := 0;
      while j < |doomed|
        invariant 0 <= j <= |doomed|
        invariant entries == Without(live, Keys(doomed[..j]))
      {
        ghost var done := Keys(doomed[..j]);
        KeysPrefixStep(doomed, j);
        DeleteStep(live, done, doomed[j].0);
        entries := Delete(entries, doomed[j].0);
        assert entries == Without(live, Keys(doomed[..j + 1]));
        j := j + 1;
      }
      assert doomed[..j] == doomed;
    }

    /** The webRequest listener: cache the URL of a page's timedtext request. */
    method Record(tabId: int, videoId: string, url: string, now: int)
      requires Valid()
      modifies this
      ensures Valid()
      ensures tabId < 0 || videoId == "" ==> entries == old(entries)
      ensures tabId >= 0 && videoId != "" ==>
        entries == Pruned(Put(old(entries), Key(tabId, videoId), Cached(url, now)), now)
    {
      if tabId < 0 || videoId == "" {
        return;
      }
      entries := Put(entries, Key(tabId, videoId), Cached(url, now));
      Prune(now);
    }

    /** GET_YOUTUBE_TIMEDTEXT_URL: prunes, then looks the key up. A missing
        sender tab is id 0, which the handler rejects as falsy. */
    method Lookup(tabId: nat, videoId: string, now: int) returns (r: LookupReply)
      requires Valid()
      modifies this
      ensures Valid()
      ensures tabId == 0 || videoId == "" ==> r == LookupReply(false, None) && entries == old(entries)
      ensures tabId != 0 && videoId != "" ==>
        entries == Pruned(old(entries), now) &&
        var hit := Get(entries, Key(tabId, videoId));
        r == LookupReply(true, if hit.Some? && hit.value.url != "" then Some(hit.value.url) else None)
    {
      if tabId == 0 || videoId == "" {
        return LookupReply(false, None);
      }
      Prune(now);
      var cached := Get(entries, Key(tabId, videoId));
      r := LookupReply(true, if cached.Some? && cached.value.url != "" then Some(cached.value.url) else None);
    }

    /** The tab-removed and tab-loading listeners: delete every key with the `${tabId}:` prefix. */
    method InvalidateTab(tabId: nat)
      requires Valid()
      modifies this
      ensures Valid()
      ensures entries == Without(old(entries), TabKeys(old(entries), tabId))
    {
      var snapshot := entries;
      var i := 0;
      assert TabKeys(snapshot[..0], tabId) == {};
      WithoutNothing(snapshot);
      while i < |snapshot|
        invariant 0 <= i <= |snapshot|
        invariant entries == Without(snapshot, TabKeys(snapshot[..i], tabId))
      {
        var key := snapshot[i].0;
        InvalidateStep(snapshot, i, tabId);
        if StartsWith(key, TabPrefix(tabId)) {
          entries := Delete(entries, key);
        }
        i := i + 1;
      }
      assert snapshot[..i] == snapshot;
    }
  }

  function TabKeys(s: seq<(string, Cached)>, tabId: nat): set<string> {
    set i | 0 <= i < |s| && StartsWith(s[i].0, TabPrefix(tabId)) :: s[i].0
  }

  lemma TabKeysStep(s: seq<(string, Cached)>, i: nat, tabId: nat)
    requires i < |s|
    ensures TabKeys(s[..i + 1], tabId) ==
      TabKeys(s[..i], tabId) + (if StartsWith(s[i].0, TabPrefix(tabId)) then {s[i].0} else {})
  {
    var a, b := s[..i + 1], s[..i];
    assert forall j :: 0 <= j < i ==> a[j] == b[j];
    assert a[i] == s[i];
    forall k | k in TabKeys(a, tabId)
      ensures k in TabKeys(b, tabId) + (if StartsWith(s[i].0, TabPrefix(tabId)) then {s[i].0} else {})
    {
      var j :| 0 <= j < |a| && StartsWith(a[j].0, TabPrefix(tabId)) && a[j].0 == k;
      if j < i { assert b[j].0 == k; }
    }
  }

  /** Invalidating a tab removes the keys of that tab and only those. */
  lemma InvalidateExact(s: seq<(string, Cached)>, tabId: nat, t: nat, videoId: string)
    requires Key(t, videoId) in Keys(s)
    ensures Key(t, videoId) in Keys(Without(s, TabKeys(s, tabId))) <==> t != tabId
  {
    PrefixMatchesTab(t, videoId, tabId);
    KeysWithout(s, TabKeys(s, tabId));
    var k := Key(t, videoId);
    if t == tabId {
      var i :| 0 <= i < |s| && s[i].0 == k;
      assert k in TabKeys(s, tabId);
    }
  }

  lemma InvalidateStep(s: seq<(string, Cached)>, i: nat, tabId: nat)
    requires i < |s|
    ensures var done := Without(s, TabKeys(s[..i], tabId));
      Without(s, TabKeys(s[..i + 1], tabId)) == if StartsWith(s[i].0, TabPrefix(tabId)) then Delete(done, s[i].0) else done
  {
    var before, after := TabKeys(s[..i], tabId), TabKeys(s[..i + 1], tabId);
    TabKeysStep(s, i, tabId);
    if StartsWith(s[i].0, TabPrefix(tabId)) {
      DeleteStep(s, before, s[i].0);
      assert after == before + {s[i].0};
    } else {
      assert after == before;
    }
  }

  lemma DropExpiredStep(s: seq<(string, Cached)>, i: nat, now: int)
    requires i < |s|
    ensures var done := Without(s, ExpiredKeys(s[..i], now));
      Without(s, ExpiredKeys(s[..i + 1], now)) == if Expired(s[i].1, now) then Delete(done, s[i].0) else done
  {
    var before, after := ExpiredKeys(s[..i], now), ExpiredKeys(s[..i + 1], now);
    ExpiredKeysStep(s, i, now);
    if Expired(s[i].1, now) {
      DeleteStep(s, before, s[i].0);
      assert after == before + {s[i].0};
    } else {
      assert after == before;
    }
  }
}
