/** The content script's helpers for per-site settings (content.js): the
    sidebar width clamp, the IPv4 test, the site key of a host name, the
    canonical position key, and the cap on the per-site overrides map. */
module SiteKeys {
  import opened JsStrings
  import opened OrderedMap
  import opened NewestFirst

  const WidthMinPx: int := 300
  const WidthMaxPx: int := 800
  const DefaultWidthPx: int := 430
  const SiteKeyPlus: nat := 2
  const MaxOverrides: nat := 100

  /** A JavaScript number as Number.isFinite sees it: a finite value (the
      model keeps whole pixels) or anything else (NaN, an infinity, a
      non-number). */
  datatype Number = Finite(value: int) | NotFinite

  /** clampSidebarWidth(widthPx, fallbackPx = 430). */
  function ClampSidebarWidth(width: Number, fallback: int): (r: int)
    ensures width.NotFinite? ==> r == fallback
    ensures width.Finite? ==> WidthMinPx <= r <= WidthMaxPx
    ensures width.Finite? && WidthMinPx <= width.value <= WidthMaxPx ==> r == width.value
    ensures width.Finite? && width.value < WidthMinPx ==> r == WidthMinPx
    ensures width.Finite? && width.value > WidthMaxPx ==> r == WidthMaxPx
  {
    if width.NotFinite? then fallback
    else
      var atLeast := if width.value < WidthMinPx then WidthMinPx else width.value;
      if atLeast > WidthMaxPx then WidthMaxPx else atLeast
  }

  /** `/^(?:0|[1-9]\d{0,2})$/`: zero, or one to three digits without a leading zero. */
  predicate OctetSyntax(p: string) {
    && 1 <= |p| <= 3
    && (forall i :: 0 <= i < |p| ==> IsDigit(p[i]))
    && (|p| == 1 || p[0] != '0')
  }

  /** isIPv4: four dot-separated parts, each in that syntax and at most 255. */
  predicate IsIPv4(h: string) {
    var parts := Split(h, '.');
    |parts| == 4 && forall i :: 0 <= i < 4 ==> OctetSyntax(parts[i]) && DecimalValue(parts[i]) <= 255
  }

  /** isIPv6: any colon. */
  predicate IsIPv6(h: string) {
    ':' in h
  }

  /** The dotted-quad rendering of four numbers. */
  function Dotted(a: nat, b: nat, c: nat, d: nat): string {
    Join([NatToString(a), NatToString(b), NatToString(c), NatToString(d)], ".")
  }

  /** Every dotted quad of numbers up to 255 passes isIPv4. */
  lemma DottedIsIPv4(a: nat, b: nat, c: nat, d: nat)
    requires a <= 255 && b <= 255 && c <= 255 && d <= 255
    ensures IsIPv4(Dotted(a, b, c, d))
  {
    var parts := [NatToString(a), NatToString(b), NatToString(c), NatToString(d)];
    SplitJoin(parts, '.');
    forall i | 0 <= i < 4 ensures OctetSyntax(parts[i]) && DecimalValue(parts[i]) <= 255 {
      var n := [a, b, c, d][i];
      assert parts[i] == NatToString(n);
      NatToStringShape(n);
      DecimalValueOfNatToString(n);
    }
  }

  /** And nothing else passes it: an accepted host is the dotted quad of its
      four part values. */
  lemma IPv4IsDotted(h: string)
    requires IsIPv4(h)
    ensures var p := Split(h, '.');
      && DecimalValue(p[0]) <= 255 && DecimalValue(p[1]) <= 255
      && DecimalValue(p[2]) <= 255 && DecimalValue(p[3]) <= 255
      && h == Dotted(DecimalValue(p[0]), DecimalValue(p[1]), DecimalValue(p[2]), DecimalValue(p[3]))
  {
    var p := Split(h, '.');
    JoinSplit(h, '.');
    NatToStringOfDecimalValue(p[0]);
    NatToStringOfDecimalValue(p[1]);
    NatToStringOfDecimalValue(p[2]);
    NatToStringOfDecimalValue(p[3]);
    assert p == [p[0], p[1], p[2], p[3]];
  }

  /** MULTI_PART_PUBLIC_SUFFIXES, each written as its two labels. */
  const SuffixLabels: seq<(string, string)> := [
    ("co", "uk"), ("org", "uk"), ("ac", "uk"), ("gov", "uk"), ("net", "uk"),
    ("com", "au"), ("net", "au"), ("org", "au"), ("edu", "au"), ("gov", "au"),
    ("co", "jp"), ("ne", "jp"), ("or", "jp"), ("ac", "jp"), ("go", "jp"),
    ("com", "cn"), ("net", "cn"), ("org", "cn"), ("gov", "cn"), ("com", "hk"), ("com", "tw"), ("com", "sg")
  ]

  const MultiPartSuffixes: set<string> :=
    set i | 0 <= i < |SuffixLabels| :: SuffixLabels[i].0 + "." + SuffixLabels[i].1

  predicate EndsWith(s: string, suffix: string) {
    |suffix| <= |s| && s[|s| - |suffix|..] == suffix
  }

  /** `hostname.trim().replace(/\.$/, '').toLowerCase()`: one trailing dot goes. */
  function NormalizeHost(h: string): string {
    var t := Trim(h);
    ToLower(if t != [] && t[|t| - 1] == '.' then t[..|t| - 1] else t)
  }

  /** `.filter(Boolean)` on strings: the empty ones go. */
  function NonEmpty(parts: seq<string>): (r: seq<string>)
    ensures forall i :: 0 <= i < |r| ==> r[i] != "" && r[i] in parts
  {
    if parts == [] then []
    else (if parts[0] == "" then [] else [parts[0]]) + NonEmpty(parts[1..])
  }

  /** The labels of a normalized host: `normalized.split('.').filter(Boolean)`. */
  function Labels(n: string): (r: seq<string>)
    ensures forall i :: 0 <= i < |r| ==> r[i] != "" && '.' !in r[i]
  {
    NonEmpty(Split(n, '.'))
  }

  /** `Math.max(1, Number(plus) || SITE_KEY_PLUS)` for an integer `plus`: zero is falsy. */
  function PlusLabels(plus: int): (n: nat)
    ensures n >= 1
    ensures plus >= 1 ==> n == plus
    ensures plus == 0 ==> n == SiteKeyPlus
    ensures plus < 0 ==> n == 1
  {
    if plus == 0 then SiteKeyPlus else if plus < 1 then 1 else plus
  }

  /** The labels of the public suffix: two when the last two labels form a
      listed suffix, else three when the last three do, else one. */
  function SuffixLength(parts: seq<string>): nat
    requires |parts| >= 3
  {
    if Join(parts[|parts| - 2..], ".") in MultiPartSuffixes then 2
    else if Join(parts[|parts| - 3..], ".") in MultiPartSuffixes then 3
    else 1
  }

  /** The hosts getSiteKeyFromHostname returns as they are, once normalized. */
  predicate KeptWhole(n: string) {
    n == "localhost" || EndsWith(n, ".localhost") || IsIPv4(n) || IsIPv6(n) || |Labels(n)| <= 2
  }

  /** The number of trailing labels a site key keeps. */
  function KeptLabels(n: string, plus: int): nat
    requires !KeptWhole(n)
  {
    SuffixLength(Labels(n)) + PlusLabels(plus)
  }

  /** getSiteKeyFromHostname(hostname, plus); a missing host name is "". */
  function SiteKey(hostname: string, plus: int): (r: Option<string>)
    ensures r.None? <==> NormalizeHost(hostname) == ""
    ensures r.Some? && KeptWhole(NormalizeHost(hostname)) ==> r.value == NormalizeHost(hostname)
  {
    var n := NormalizeHost(hostname);
    if hostname == "" || n == "" then None
    else if n == "localhost" || EndsWith(n, ".localhost") then Some(n)
    else if IsIPv4(n) || IsIPv6(n) then Some(n)
    else
      var parts := Labels(n);
      if |parts| <= 2 then Some(n)
      else
        var required := SuffixLength(parts) + PlusLabels(plus);
        if |parts| <= required then Some(n)
        else Some(Join(parts[|parts| - required..], "."))
  }

  /** Any other host with more labels than its suffix plus `plus` is cut to
      exactly its last suffix-plus-`plus` labels, in order; one with no more
      is kept whole. */
  lemma SiteKeyLabels(hostname: string, plus: int)
    requires NormalizeHost(hostname) != "" && !KeptWhole(NormalizeHost(hostname))
    ensures var n, r := NormalizeHost(hostname), SiteKey(hostname, plus).value;
      var parts, k := Labels(n), KeptLabels(n, plus);
      && (k < |parts| ==> Split(r, '.') == parts[|parts| - k..] && |Split(r, '.')| == k)
      && (k >= |parts| ==> r == n)
  {
    var n := NormalizeHost(hostname);
    var parts := Labels(n);
    var k := KeptLabels(n, plus);
    if k < |parts| {
      var tail := parts[|parts| - k..];
      assert forall i :: 0 <= i < |tail| ==> tail[i] == parts[|parts| - k + i];
      SplitJoin(tail, '.');
    }
  }

  /** No listed suffix has three labels, so the three-label test never
      decides the suffix length. */
  lemma NoThreeLabelSuffix(parts: seq<string>)
    requires |parts| >= 3 && forall i :: 0 <= i < |parts| ==> '.' !in parts[i]
    ensures SuffixLength(parts) <= 2
  {
    var last3 := parts[|parts| - 3..];
    assert forall i :: 0 <= i < 3 ==> last3[i] == parts[|parts| - 3 + i];
    SplitJoin(last3, '.');
    forall s | s in MultiPartSuffixes ensures |Split(s, '.')| == 2 {
      TwoLabels(s);
    }
  }

  /** Every listed suffix has exactly one dot. */
  lemma TwoLabels(s: string)
    requires s in MultiPartSuffixes
    ensures |Split(s, '.')| == 2
  {
    var i :| 0 <= i < |SuffixLabels| && s == SuffixLabels[i].0 + "." + SuffixLabels[i].1;
    var (x, y) := SuffixLabels[i];
    assert '.' !in x && '.' !in y;
    SplitConcat(x, '.', y);
    SplitNoSep(y, '.');
  }

  /** canonicalizePositionKey: `String(key || '').trim().toLowerCase()`, none
      when that is empty, and twitter.com shares x.com's position. */
  function CanonicalizePositionKey(key: Option<string>): (r: Option<string>)
    ensures r.None? <==> key.None? || Trim(key.value) == ""
    ensures r.Some? ==> r.value != "twitter.com" && r.value != ""
    ensures key.Some? && ToLower(Trim(key.value)) != "" && ToLower(Trim(key.value)) != "twitter.com" ==>
      r == Some(ToLower(Trim(key.value)))
    ensures key.Some? && ToLower(Trim(key.value)) == "twitter.com" ==> r == Some("x.com")
  {
    var normalized := ToLower(Trim(if key.Some? then key.value else ""));
    if normalized == "" then None
    else if normalized == "twitter.com" then Some("x.com")
    else Some(normalized)
  }

  /** Two keys share a position exactly when they agree once trimmed and
      lower-cased, or are twitter.com and x.com in some spelling. */
  lemma SamePosition(a: string, b: string)
    ensures var na, nb := ToLower(Trim(a)), ToLower(Trim(b));
      CanonicalizePositionKey(Some(a)) == CanonicalizePositionKey(Some(b)) <==>
        na == nb || (na in {"twitter.com", "x.com"} && nb in {"twitter.com", "x.com"})
  {
    var na, nb := ToLower(Trim(a)), ToLower(Trim(b));
    assert |"x.com"| != |"twitter.com"|;
    if na == "" || nb == "" {
      assert |ToLower(Trim(a))| == |Trim(a)| && |ToLower(Trim(b))| == |Trim(b)|;
    }
  }

  /** A canonical key is its own canonical form. */
  lemma CanonicalizeIdempotent(key: Option<string>)
    requires CanonicalizePositionKey(key).Some?
    ensures CanonicalizePositionKey(CanonicalizePositionKey(key)) == CanonicalizePositionKey(key)
  {
    if CanonicalizePositionKey(key).value == "x.com" {
      CanonicalXCom();
    } else {
      NormalFixed(key.value);
    }
  }

  lemma CanonicalXCom()
    ensures CanonicalizePositionKey(Some("x.com")) == Some("x.com")
  {
    var x := "x.com";
    assert ToLower(Trim(x)) == x && x != "" && x != "twitter.com" by {
      assert Trim(x) == x by {
        TrimOfTrimmed(x);
      }
      var l := ToLower(x);
      assert l[0] == LowerChar('x') == 'x' && l[1] == LowerChar('.') == '.';
      assert l[2] == LowerChar('c') == 'c' && l[3] == LowerChar('o') == 'o' && l[4] == LowerChar('m') == 'm';
      assert |x| != |"twitter.com"|;
    }
  }

  /** twitter.com and x.com share one position. */
  lemma TwitterSharesXCom()
    ensures CanonicalizePositionKey(Some("twitter.com")) == CanonicalizePositionKey(Some("x.com")) == Some("x.com")
  {
    CanonicalXCom();
    TrimTwitterCom();
    LowerTwitterCom();
  }

  lemma TrimTwitterCom()
    ensures Trim("twitter.com") == "twitter.com"
  {
    TrimOfTrimmed("twitter.com");
  }

  lemma LowerTwitterCom()
    ensures ToLower("twitter.com") == "twitter.com"
  {
    TwitterDotCom();
    ToLowerAppend("twitter", ".com");
    LowerTwitter();
    LowerDotCom();
  }

  lemma TwitterDotCom()
    ensures "twitter.com" == "twitter" + ".com"
  {
  }

  lemma ToLowerAppend(a: string, b: string)
    ensures ToLower(a + b) == ToLower(a) + ToLower(b)
  {
  }

  lemma LowerTwitter()
    ensures ToLower("twitter") == "twitter"
  {
    var l := ToLower("twitter");
    assert l[0] == LowerChar('t') == 't' && l[1] == LowerChar('w') == 'w' && l[2] == LowerChar('i') == 'i';
    assert l[3] == LowerChar('t') == 't' && l[4] == LowerChar('t') == 't' && l[5] == LowerChar('e') == 'e';
    assert l[6] == LowerChar('r') == 'r';
  }

  lemma LowerDotCom()
    ensures ToLower(".com") == ".com"
  {
    var l := ToLower(".com");
    assert l[0] == LowerChar('.') == '.' && l[1] == LowerChar('c') == 'c';
    assert l[2] == LowerChar('o') == 'o' && l[3] == LowerChar('m') == 'm';
  }

  /** Trimming then lower-casing is idempotent. */
  lemma NormalFixed(t: string)
    ensures ToLower(Trim(ToLower(Trim(t)))) == ToLower(Trim(t))
  {
    var r := ToLower(Trim(t));
    TrimOfTrimmed(r);
    ToLowerIdempotent(Trim(t));
  }

  /** An override's sort key `Number(updatedAt) || 0`, already reduced to an integer. */
  datatype Override = Override(updatedAt: int)

  function UpdatedAt(o: Override): int { o.updatedAt }

  /** The per-site overrides object, its keys in insertion order. */
  class SiteOverrides {
    var entries: seq<(string, Override)>

    ghost predicate Valid()
      reads this
    {
      DistinctKeys(entries)
    }

    constructor (entries: seq<(string, Override)>)
      requires DistinctKeys(entries)
      ensures Valid() && this.entries == entries
    {
      this.entries := entries;
    }

    /** pruneSiteOverridesInPlace: over 100 entries, delete every key past
        the 100 with the largest updatedAt. */
    method Prune()
      requires Valid()
      modifies this
      ensures Valid()
      ensures entries == if |old(entries)| > MaxOverrides
        then Without(old(entries), DroppedKeys(old(entries), UpdatedAt, MaxOverrides))
        else old(entries)
    {
      if |entries| <= MaxOverrides {
        return;
      }
      var sorted := SortNewestFirst(entries, UpdatedAt);
      var doomed := sorted[MaxOverrides..];
      var all := entries;
      assert Keys(doomed[..0]) == {};
      WithoutNothing(all);
      var j := 0;
      while j < |doomed|
        invariant 0 <= j <= |doomed|
        invariant entries == Without(all, Keys(doomed[..j]))
      {
        KeysPrefixStep(doomed, j);
        DeleteStep(all, Keys(doomed[..j]), doomed[j].0);
        entries := Delete(entries, doomed[j].0);
        j := j + 1;
      }
      assert doomed[..j] == doomed;
    }
  }

  /** After the prune: at most 100 entries, all from the old map, exactly
      the old map when it had no more than 100, and no surviving entry older
      than a deleted one. */
  lemma PruneOverridesKeepsNewest(s: seq<(string, Override)>, kept: (string, Override), gone: (string, Override))
    requires DistinctKeys(s) && |s| > MaxOverrides
    requires kept in Without(s, DroppedKeys(s, UpdatedAt, MaxOverrides))
    requires gone in s && gone !in Without(s, DroppedKeys(s, UpdatedAt, MaxOverrides))
    ensures |Without(s, DroppedKeys(s, UpdatedAt, MaxOverrides))| == MaxOverrides
    ensures kept.1.updatedAt >= gone.1.updatedAt
  {
    var d := DroppedKeys(s, UpdatedAt, MaxOverrides);
    PruneKeepsCount(s, UpdatedAt, MaxOverrides);
    assert gone.0 in d;
    PruneKeepsNewest(s, UpdatedAt, MaxOverrides, kept, gone);
  }
}
