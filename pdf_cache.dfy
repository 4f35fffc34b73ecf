/** The background worker's chunked PDF artifact cache (background.js).
    `pdfCache` is a Map from request id to a downloaded PDF; its insertion
    order is its recency order, because a read deletes and re-sets the entry.
    The download itself (fetch) is not modelled: the bytes, the id and the
    clock reading are parameters. */
module PdfArtifactCache {
  import opened JsStrings
  import opened OrderedMap

  newtype byte = x: int | 0 <= x < 256

  const ChunkSize: nat := 4 * 1024 * 1024
  const MaxEntries: nat := 5
  const MaxTotalBytes: nat := 256 * 1024 * 1024

  function Min(a: int, b: int): int { if a < b then a else b }

  /** Math.ceil(totalSize / PDF_CHUNK_SIZE). */
  function TotalChunks(size: nat): (n: nat)
    ensures n * ChunkSize >= size
    ensures n == 0 || (n - 1) * ChunkSize < size
  {
    (size + ChunkSize - 1) / ChunkSize
  }

  datatype Entry = Entry(bytes: seq<byte>, totalSize: nat, totalChunks: nat, chunkSize: nat,
                         createdAt: int, lastAccessed: int, url: string)

  /** What downloadPDF stores for a fresh download. */
  function NewEntry(bytes: seq<byte>, url: string, now: int): Entry {
    Entry(bytes, |bytes|, TotalChunks(|bytes|), ChunkSize, now, now, url)
  }

  predicate WellFormed(e: Entry) {
    e.totalSize == |e.bytes| && e.chunkSize == ChunkSize && e.totalChunks == TotalChunks(e.totalSize)
  }

  datatype InitReply = Init(requestId: string, totalChunks: nat, totalSize: nat, chunkSize: nat)
  datatype ChunkReply = ChunkOk(chunkIndex: int, data: seq<byte>) | ChunkErr(error: string)
  datatype ReleaseReply = Released | ReleaseErr(error: string)

  /** getPDFChunk's range arithmetic: chunk `index` is the bytes from
      index * 4 MiB up to the next page boundary or the end, and an index
      outside [0, totalChunks) has no chunk. */
  function ChunkAt(bytes: seq<byte>, index: int): (r: Option<seq<byte>>)
    ensures r.Some? <==> 0 <= index < TotalChunks(|bytes|)
    ensures r.Some? ==> |r.value| == Min(ChunkSize, |bytes| - index * ChunkSize)
    ensures r.Some? ==> forall k :: 0 <= k < |r.value| ==> r.value[k] == bytes[index * ChunkSize + k]
  {
    var start := index * ChunkSize;
    var end := Min(start + ChunkSize, |bytes|);
    if start < 0 || start >= |bytes| || end <= start then None
    else Some(bytes[start..end])
  }

  /** Every chunk a reader can ask for, in order. */
  function Chunks(b: seq<byte>): (cs: seq<seq<byte>>)
    ensures |cs| == TotalChunks(|b|)
    ensures forall i :: 0 <= i < |cs| ==> ChunkAt(b, i) == Some(cs[i])
  {
    seq(TotalChunks(|b|), i requires 0 <= i < TotalChunks(|b|) => ChunkAt(b, i).value)
  }

  function Concat(cs: seq<seq<byte>>): seq<byte> {
    if cs == [] then [] else Concat(cs[..|cs| - 1]) + cs[|cs| - 1]
  }

  /** Chunk k - 1 of a size starts inside it, one chunk before chunk k. */
  lemma ChunkBounds(size: nat, k: nat)
    requires 0 < k <= TotalChunks(size)
    ensures 0 <= (k - 1) * ChunkSize < size && (k - 1) * ChunkSize + ChunkSize == k * ChunkSize
  {
    var n := TotalChunks(size);
    assert (k - 1) * ChunkSize <= (n - 1) * ChunkSize by {
      MulMono(k - 1, n - 1, ChunkSize);
    }
  }

  lemma MulMono(a: nat, b: nat, c: nat)
    requires a <= b
    ensures a * c <= b * c
  {
  }

  lemma {:induction false} ConcatChunksPrefix(b: seq<byte>, k: nat)
    requires k <= TotalChunks(|b|)
    ensures Concat(Chunks(b)[..k]) == b[..Min(k * ChunkSize, |b|)]
  {
    if k > 0 {
      ConcatChunksPrefix(b, k - 1);
      var all := Chunks(b);
      assert all[..k][..k - 1] == all[..k - 1];
      ChunkBounds(|b|, k);
      var lo, hi := (k - 1) * ChunkSize, Min(k * ChunkSize, |b|);
      assert all[k - 1] == b[lo..hi];
      assert b[..lo] + b[lo..hi] == b[..hi];
    }
  }

  /** Concatenating chunks 0 .. totalChunks-1 gives back exactly the stored bytes. */
  lemma ChunksReassemble(b: seq<byte>)
    ensures Concat(Chunks(b)) == b
  {
    ConcatChunksPrefix(b, TotalChunks(|b|));
    assert Chunks(b)[..TotalChunks(|b|)] == Chunks(b);
    assert b[..|b|] == b;
  }

  /** getPdfCacheTotalBytes, as a specification. */
  function TotalBytes(s: seq<(string, Entry)>): nat {
    if s == [] then 0 else s[0].1.totalSize + TotalBytes(s[1..])
  }

  lemma {:induction false} TotalBytesAppend(a: seq<(string, Entry)>, b: seq<(string, Entry)>)
    ensures TotalBytes(a + b) == TotalBytes(a) + TotalBytes(b)
  {
    if a != [] {
      TotalBytesAppend(a[1..], b);
      assert (a + b)[0] == a[0] && (a + b)[1..] == a[1..] + b;
    } else {
      assert a + b == b;
    }
  }

  lemma {:induction false} TotalBytesDelete(s: seq<(string, Entry)>, k: string)
    requires DistinctKeys(s) && k in Keys(s)
    ensures TotalBytes(Delete(s, k)) + Get(s, k).value.totalSize == TotalBytes(s)
  {
    DistinctTail(s);
    if s[0].0 == k {
      DeleteFront(s);
    } else {
      assert Keys(s) == {s[0].0} + Keys(s[1..]) by {
        forall x | x in Keys(s) ensures x in {s[0].0} + Keys(s[1..]) {
          var i :| 0 <= i < |s| && s[i].0 == x;
          if i > 0 { assert s[1..][i - 1] == s[i]; }
        }
      }
      TotalBytesDelete(s[1..], k);
    }
  }

  /** The loop condition of evictPdfCacheIfNeeded. */
  predicate OverBudget(s: seq<(string, Entry)>) {
    |s| > MaxEntries || (|s| > 1 && TotalBytes(s) > MaxTotalBytes)
  }

  /** evictPdfCacheIfNeeded, as a specification: drop the front (least
      recently used) entry while over budget, stopping at a falsy key. */
  function Evict(s: seq<(string, Entry)>): (r: seq<(string, Entry)>)
    ensures |r| <= |s| && r == s[|s| - |r|..]
    decreases |s|
  {
    if OverBudget(s) && s[0].0 != "" then Evict(s[1..]) else s
  }

  /** Eviction drops no entry it need not: the last entry dropped was at the
      front of a cache still over budget, under a non-empty key, and what is
      left is within budget or starts with an empty key. */
  lemma {:induction false} EvictMinimal(s: seq<(string, Entry)>)
    ensures var r := Evict(s);
      && (|r| < |s| ==> OverBudget(s[|s| - |r| - 1..]) && s[|s| - |r| - 1].0 != "")
      && (OverBudget(r) ==> r[0].0 == "")
    decreases |s|
  {
    if OverBudget(s) && s[0].0 != "" {
      EvictMinimal(s[1..]);
      var r := Evict(s[1..]);
      if |r| < |s[1..]| {
        assert s[1..][|s[1..]| - |r| - 1..] == s[|s| - |r| - 1..];
      } else {
        assert s[0..] == s;
      }
    }
  }

  /** Eviction never empties a non-empty cache, so the newest entry always survives. */
  lemma {:induction false} EvictKeepsNewest(s: seq<(string, Entry)>)
    requires s != []
    ensures Evict(s) != [] && Evict(s)[|Evict(s)| - 1] == s[|s| - 1]
  {
    if OverBudget(s) && s[0].0 != "" {
      EvictKeepsNewest(s[1..]);
    }
  }

  predicate KeysNonEmpty(s: seq<(string, Entry)>) {
    forall i :: 0 <= i < |s| ==> s[i].0 != ""
  }

  /** With non-empty ids (UUIDs or timestamp strings), eviction always brings
      the cache within its budget. */
  lemma {:induction false} EvictWithinBudget(s: seq<(string, Entry)>)
    requires KeysNonEmpty(s)
    ensures !OverBudget(Evict(s))
  {
    if OverBudget(s) {
      assert s[0].0 != "";
      assert forall i :: 0 <= i < |s[1..]| ==> s[1..][i] == s[i + 1];
      EvictWithinBudget(s[1..]);
    }
  }

  /** After a download with a fresh id: at most 5 entries, at most 256 MiB
      while more than one entry remains, and the new entry is the newest one kept. */
  lemma InsertBounds(s: seq<(string, Entry)>, id: string, e: Entry)
    requires KeysNonEmpty(s) && id != "" && id !in Keys(s)
    ensures var r := Evict(Put(s, id, e));
      && |r| <= MaxEntries
      && (|r| > 1 ==> TotalBytes(r) <= MaxTotalBytes)
      && r != [] && r[|r| - 1] == (id, e)
  {
    var t := Put(s, id, e);
    assert t == s + [(id, e)];
    assert KeysNonEmpty(t) by {
      assert forall i :: 0 <= i < |s| ==> t[i] == s[i];
    }
    EvictWithinBudget(t);
    EvictKeepsNewest(t);
  }

  /** touchPdfCacheEntry, as a specification: the entry moves to the back with
      a fresh lastAccessed; an absent id changes nothing. */
  function Touched(s: seq<(string, Entry)>, id: string, now: int): (r: seq<(string, Entry)>)
    ensures Keys(r) == Keys(s)
    ensures DistinctKeys(s) ==> DistinctKeys(r)
    ensures id in Keys(s) ==> r != [] && r[|r| - 1] == (id, Get(s, id).value.(lastAccessed := now))
    ensures id !in Keys(s) ==> r == s
    ensures DistinctKeys(s) ==> |r| == |s|
  {
    match Get(s, id)
    case None => s
    case Some(e) =>
      var d := Delete(s, id);
      DeleteLength(s, id);
      Put(d, id, e.(lastAccessed := now))
  }

  /** Touching leaves every other entry, and their relative order, as it was. */
  lemma TouchKeepsOthers(s: seq<(string, Entry)>, id: string, now: int)
    ensures Delete(Touched(s, id, now), id) == Delete(s, id)
  {
    if id in Keys(s) {
      var e := Get(s, id).value.(lastAccessed := now);
      var d := Delete(s, id);
      var last := [(id, e)];
      assert Touched(s, id, now) == d + last;
      WithoutAppend(d, last, {id});
      assert Without(last, {id}) == [] by {
        assert last[1..] == [];
        assert Drop(last, {id}) == [] + Drop(last[1..], {id});
      }
      WithoutTwice(s, {id}, {id});
      assert {id} + {id} == {id};
      assert Without(d + last, {id}) == Without(d, {id}) + [];
    }
  }

  /** Touching changes neither the total size nor any entry but the touched one's lastAccessed. */
  lemma TouchKeepsBytes(s: seq<(string, Entry)>, id: string, now: int)
    requires DistinctKeys(s)
    ensures TotalBytes(Touched(s, id, now)) == TotalBytes(s)
  {
    if id in Keys(s) {
      var e := Get(s, id).value.(lastAccessed := now);
      var d := Delete(s, id);
      assert Touched(s, id, now) == d + [(id, e)];
      TotalBytesAppend(d, [(id, e)]);
      TotalBytesDelete(s, id);
      assert TotalBytes([(id, e)]) == e.totalSize;
    }
  }

  class PdfCache {
    var entries: seq<(string, Entry)>

    ghost predicate Valid()
      reads this
    {
      DistinctKeys(entries) && forall i :: 0 <= i < |entries| ==> WellFormed(entries[i].1)
    }

    constructor ()
      ensures Valid() && entries == []
    {
      entries := [];
    }

    /** touchPdfCacheEntry. */
    method Touch(id: string, now: int) returns (e: Option<Entry>)
      requires Valid()
      modifies this
      ensures Valid()
      ensures entries == Touched(old(entries), id, now)
      ensures e.None? <==> id !in Keys(old(entries))
      ensures e.Some? ==> e.value == Get(old(entries), id).value.(lastAccessed := now) && WellFormed(e.value)
    {
      var found := Get(entries, id);
      if found.None? {
        return None;
      }
      var entry := found.value.(lastAccessed := now);
      ghost var was := entries;
      entries := Delete(entries, id);
      entries := Put(entries, id, entry);
      e := Some(entry);
      assert (id, found.value) in was;
      forall i | 0 <= i < |entries| ensures WellFormed(entries[i].1) {
        if entries[i].0 != id {
          assert entries[i] in Delete(was, id);
        }
      }
    }

    /** getPdfCacheTotalBytes. */
    method TotalBytesNow() returns (total: nat)
      ensures total == TotalBytes(entries)
    {
      total := 0;
      var i := 0;
      while i < |entries|
        invariant 0 <= i <= |entries|
        invariant total == TotalBytes(entries[..i])
      {
        assert entries[..i + 1] == entries[..i] + [entries[i]];
        TotalBytesAppend(entries[..i], [entries[i]]);
        total := total + entries[i].1.totalSize;
        i := i + 1;
      }
      assert entries[..i] == entries;
    }

    /** evictPdfCacheIfNeeded. */
    method EvictIfNeeded()
      requires Valid()
      modifies this
      ensures Valid()
      ensures entries == Evict(old(entries))
    {
      var total := TotalBytesNow();
      while |entries| > MaxEntries || (|entries| > 1 && total > MaxTotalBytes)
        invariant Valid()
        invariant Evict(entries) == Evict(old(entries))
        invariant total == TotalBytes(entries)
        decreases |entries|
      {
        var oldest := entries[0].0;
        if oldest == "" {
          break;
        }
        DeleteFront(entries);
        entries := Delete(entries, oldest);
        total := TotalBytesNow();
      }
    }

    /** The cache update of downloadPDF. */
    method Insert(id: string, bytes: seq<byte>, url: string, now: int) returns (init: InitReply)
      requires Valid()
      modifies this
      ensures Valid()
      ensures entries == Evict(Put(old(entries), id, NewEntry(bytes, url, now)))
      ensures init == Init(id, TotalChunks(|bytes|), |bytes|, ChunkSize)
    {
      var totalSize := |bytes|;
      var totalChunks := TotalChunks(totalSize);
      var entry := Entry(bytes, totalSize, totalChunks, ChunkSize, now, now, url);
      ghost var was := entries;
      entries := Put(entries, id, entry);
      forall i | 0 <= i < |entries| ensures WellFormed(entries[i].1) {
        if entries[i].0 != id {
          assert entries[i] in was;
        }
      }
      EvictIfNeeded();
      init := Init(id, totalChunks, totalSize, ChunkSize);
    }

    /** getPDFChunk: refreshes recency first, even when the range is invalid. */
    method GetChunk(id: string, index: int, now: int) returns (r: ChunkReply)
      requires Valid()
      modifies this
      ensures Valid()
      ensures entries == Touched(old(entries), id, now)
      ensures id !in Keys(old(entries)) ==> r == ChunkErr("PDF cache entry not found")
      ensures id in Keys(old(entries)) ==>
        var chunk := ChunkAt(Get(old(entries), id).value.bytes, index);
        r == if chunk.Some? then ChunkOk(index, chunk.value) else ChunkErr("Invalid chunk range")
    {
      var entry := Touch(id, now);
      if entry.None? {
        return ChunkErr("PDF cache entry not found");
      }
      var e := entry.value;
      var start := index * e.chunkSize;
      var end := Min(start + e.chunkSize, e.totalSize);
      if start < 0 || start >= e.totalSize || end <= start {
        return ChunkErr("Invalid chunk range");
      }
      r := ChunkOk(index, e.bytes[start..end]);
    }

    /** releasePDF. */
    method Release(id: string) returns (r: ReleaseReply)
      requires Valid()
      modifies this
      ensures Valid()
      ensures id == "" ==> r == ReleaseErr("Missing requestId") && entries == old(entries)
      ensures id != "" ==> r == Released && entries == Delete(old(entries), id)
    {
      if id == "" {
        return ReleaseErr("Missing requestId");
      }
      ghost var was := entries;
      entries := Delete(entries, id);
      forall i | 0 <= i < |entries| ensures WellFormed(entries[i].1) {
        assert entries[i] in was;
      }
      r := Released;
    }
  }
}
