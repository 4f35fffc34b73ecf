/** The content script's cache of extracted PDF text (content.js,
    getCachedPdfText and setCachedPdfText): at most three texts keyed by URL,
    map order is recency order, the least recently stored or read text goes
    first, and a text over 1,000,000 characters is never stored.
    `Date.now()` is a parameter. */
module PdfTextCache {
  import opened JsStrings
  import opened OrderedMap

  const MaxEntries: nat := 3
  const MaxChars: nat := 1000000

  datatype CachedText = CachedText(text: string, createdAt: int)

  /** `delete(key)` then `set(key, value)`: the entry moves to the back. */
  function MoveToBack(s: seq<(string, CachedText)>, key: string): (r: seq<(string, CachedText)>)
    ensures Keys(r) == Keys(s)
    ensures DistinctKeys(s) ==> DistinctKeys(r) && |r| == |s|
    ensures key in Keys(s) ==> r[|r| - 1] == (key, Get(s, key).value)
  {
    match Get(s, key)
    case None => s
    case Some(c) =>
      DeleteLength(s, key);
      Put(Delete(s, key), key, c)
  }

  /** The trimming loop of setCachedPdfText: the front entry goes while
      there are more than three (and its key is not empty). */
  function TrimFront(s: seq<(string, CachedText)>): (r: seq<(string, CachedText)>)
    ensures |r| <= |s| && r == s[|s| - |r|..]
  {
    if |s| > MaxEntries && s[0].0 != "" then TrimFront(s[1..]) else s
  }

  /** With no empty key, the trim keeps exactly the newest min(|s|, 3) entries. */
  lemma {:induction false} TrimFrontKeepsNewest(s: seq<(string, CachedText)>)
    requires forall i :: 0 <= i < |s| ==> s[i].0 != ""
    ensures |TrimFront(s)| == if |s| <= MaxEntries then |s| else MaxEntries
  {
    if |s| > MaxEntries {
      TrimFrontKeepsNewest(s[1..]);
    }
  }

  /** Keys are distinct and non-empty and every stored text is non-empty. */
  predicate Stored(s: seq<(string, CachedText)>) {
    && DistinctKeys(s)
    && forall i :: 0 <= i < |s| ==> s[i].0 != "" && s[i].1.text != ""
  }

  lemma StoredSuffix(s: seq<(string, CachedText)>, k: nat)
    requires Stored(s) && k <= |s|
    ensures Stored(s[k..])
  {
    assert forall i :: 0 <= i < |s| - k ==> s[k..][i] == s[k + i];
  }

  class TextCache {
    var entries: seq<(string, CachedText)>

    /** At most three stored texts. */
    ghost predicate Valid()
      reads this
    {
      Stored(entries) && |entries| <= MaxEntries
    }

    constructor ()
      ensures Valid() && entries == []
    {
      entries := [];
    }

    /** getCachedPdfText: a hit becomes the most recent entry. */
    method Lookup(url: string) returns (r: Option<string>)
      requires Valid()
      modifies this
      ensures Valid()
      ensures entries == MoveToBack(old(entries), url)
      ensures r.None? <==> url !in Keys(old(entries))
      ensures r.Some? ==> r.value == Get(old(entries), url).value.text
    {
      var cached := Get(entries, url);
      if cached.None? {
        return None;
      }
      var s := entries;
      entries := Delete(entries, url);
      entries := Put(entries, url, cached.value);
      assert entries == MoveToBack(s, url);
      MovedStored(s, url);
      r := if cached.value.text == "" then None else Some(cached.value.text);
    }

    /** setCachedPdfText: an empty URL or text, or a text over the limit,
        changes nothing; otherwise the text becomes the most recent entry and
        the oldest entries go until three are left. */
    method Store(url: string, text: string, now: int)
      requires Valid()
      modifies this
      ensures Valid()
      ensures url == "" || text == "" || |text| > MaxChars ==> entries == old(entries)
      ensures !(url == "" || text == "" || |text| > MaxChars) ==>
        entries == TrimFront(Delete(old(entries), url) + [(url, CachedText(text, now))])
    {
      if url == "" || text == "" {
        return;
      }
      if |text| > MaxChars {
        return;
      }
      var t := StoredPut(entries, url, CachedText(text, now));
      entries := t;
      while |entries| > MaxEntries
        invariant DistinctKeys(entries)
        invariant TrimFront(entries) == TrimFront(t)
        decreases |entries|
      {
        var oldest := entries[0].0;
        if oldest == "" {
          break;
        }
        DeleteFront(entries);
        DistinctTail(entries);
        entries := Delete(entries, oldest);
      }
      TrimStored(t);
    }
  }

  /** `delete(url)` then `set(url, value)` on stored entries. */
  method StoredPut(s: seq<(string, CachedText)>, url: string, c: CachedText) returns (t: seq<(string, CachedText)>)
    requires Stored(s) && url != "" && c.text != ""
    ensures t == Delete(s, url) + [(url, c)]
    ensures Stored(t)
  {
    var d := Delete(s, url);
    t := Put(d, url, c);
  }

  /** The trim keeps stored entries stored and leaves at most three. */
  lemma TrimStored(t: seq<(string, CachedText)>)
    requires Stored(t)
    ensures Stored(TrimFront(t)) && |TrimFront(t)| <= MaxEntries
  {
    TrimFrontKeepsNewest(t);
    StoredSuffix(t, |t| - |TrimFront(t)|);
  }

  /** A move to the back keeps stored entries stored. */
  lemma MovedStored(s: seq<(string, CachedText)>, key: string)
    requires Stored(s)
    ensures Stored(MoveToBack(s, key)) && |MoveToBack(s, key)| == |s|
  {
    var r := MoveToBack(s, key);
    forall i | 0 <= i < |r| ensures r[i].0 != "" && r[i].1.text != "" {
      assert r[i] in s;
    }
  }

  /** A text just stored is found by the next lookup: the newest entry
      survives the trim. */
  lemma StoreThenLookup(s: seq<(string, CachedText)>, url: string, text: string, now: int)
    requires Stored(s) && url != "" && text != "" && |text| <= MaxChars
    ensures var r := TrimFront(Delete(s, url) + [(url, CachedText(text, now))]);
      Get(r, url) == Some(CachedText(text, now))
  {
    var t := Delete(s, url) + [(url, CachedText(text, now))];
    assert Stored(t) by {
      var d := Delete(s, url);
      assert t == Put(d, url, CachedText(text, now));
    }
    TrimStored(t);
    TrimFrontKeepsNewest(t);
    var r := TrimFront(t);
    assert r[|r| - 1] == t[|t| - 1];
  }
}
