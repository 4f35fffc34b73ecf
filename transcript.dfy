/** parseTimedTextJson3ToPlainText (content.js) over an already parsed
    timedtext document: one line per caption event, made of its segments'
    text and trimmed; empty lines and a line equal to the one kept just
    before it are skipped, and the kept lines are joined with newlines. */
module Transcript {
  import opened JsStrings

  /** A caption event: `segs` is `None` when it is not an array; a segment
      is `None` when it has no `utf8` text. */
  datatype Event = Event(segs: Option<seq<Option<string>>>)

  /** `segs.map(s => s?.utf8 || '').join('')`. */
  function SegsText(segs: seq<Option<string>>): string {
    if segs == [] then "" else SegsText(segs[..|segs| - 1]) + (if segs[|segs| - 1].Some? then segs[|segs| - 1].value else "")
  }

  predicate Trimmed(s: string) {
    s == [] || (!IsJsWhitespace(s[0]) && !IsJsWhitespace(s[|s| - 1]))
  }

  /** The line an event contributes: its trimmed text, empty when it has no segments. */
  function LineOf(ev: Event): (line: string)
    ensures Trimmed(line)
  {
    if ev.segs.None? || ev.segs.value == [] then "" else Trim(SegsText(ev.segs.value))
  }

  /** The non-empty lines of the events, in order. */
  function NonEmptyLines(events: seq<Event>): seq<string> {
    if events == [] then []
    else
      var line := LineOf(events[|events| - 1]);
      NonEmptyLines(events[..|events| - 1]) + (if line == "" then [] else [line])
  }

  /** Adjacent repeats collapsed to one. */
  function Dedup(s: seq<string>): seq<string> {
    if s == [] then []
    else
      var d := Dedup(s[..|s| - 1]);
      var x := s[|s| - 1];
      if d != [] && d[|d| - 1] == x then d else d + [x]
  }

  /** `last` after a prefix of the loop: the line kept last, or ''. */
  function LastOr(out: seq<string>): string {
    if out == [] then "" else out[|out| - 1]
  }

  /** The lines the parser keeps, as a reference definition: the non-empty
      lines with adjacent repeats collapsed. */
  function KeptLines(events: seq<Event>): (r: seq<string>)
    ensures forall i :: 0 <= i < |r| ==> r[i] != "" && Trimmed(r[i])
    ensures forall i :: 0 <= i < |r| - 1 ==> r[i] != r[i + 1]
    ensures |r| <= |events|
  {
    NonEmptyLinesFacts(events);
    DedupFacts(NonEmptyLines(events));
    Dedup(NonEmptyLines(events))
  }

  lemma {:induction false} NonEmptyLinesFacts(events: seq<Event>)
    ensures var r := NonEmptyLines(events);
      && |r| <= |events|
      && forall i :: 0 <= i < |r| ==> r[i] != "" && Trimmed(r[i])
  {
    if events != [] {
      var init := events[..|events| - 1];
      NonEmptyLinesFacts(init);
    }
  }

  lemma {:induction false} DedupFacts(s: seq<string>)
    ensures var d := Dedup(s);
      && |d| <= |s|
      && (forall i :: 0 <= i < |d| ==> d[i] in s)
      && (s != [] ==> d != [] && d[|d| - 1] == s[|s| - 1])
      && (forall i :: 0 <= i < |d| - 1 ==> d[i] != d[i + 1])
  {
    if s != [] {
      var init := s[..|s| - 1];
      DedupFacts(init);
      assert forall x :: x in init ==> x in s;
    }
  }

  /** One more event: its line is kept exactly when it is non-empty and
      differs from the line kept last. */
  lemma KeptStep(events: seq<Event>, i: nat)
    requires i < |events|
    ensures var line, k := LineOf(events[i]), Dedup(NonEmptyLines(events[..i]));
      Dedup(NonEmptyLines(events[..i + 1])) == if line == "" || line == LastOr(k) then k else k + [line]
  {
    var p, ev := events[..i], events[i];
    assert events[..i + 1] == p + [ev];
    var line := LineOf(ev);
    var ne := NonEmptyLines(p);
    NonEmptySnoc(p, ev, line);
    if line == "" {
      assert NonEmptyLines(p + [ev]) == ne;
    } else {
      assert NonEmptyLines(p + [ev]) == ne + [line];
      DedupSnoc(ne, line);
    }
  }

  lemma NonEmptySnoc(p: seq<Event>, ev: Event, line: string)
    requires line == LineOf(ev)
    ensures NonEmptyLines(p + [ev]) == NonEmptyLines(p) + if line == "" then [] else [line]
  {
    assert (p + [ev])[..|p|] == p;
  }

  lemma DedupSnoc(s: seq<string>, x: string)
    requires x != ""
    ensures Dedup(s + [x]) == if x == LastOr(Dedup(s)) then Dedup(s) else Dedup(s) + [x]
  {
    assert (s + [x])[..|s|] == s;
  }

  /** parseTimedTextJson3ToPlainText; `None` when `events` is not an array. */
  method ParseTimedText(events: Option<seq<Event>>) returns (text: string)
    ensures events.None? ==> text == ""
    ensures events.Some? ==> text == Join(KeptLines(events.value), "\n")
  {
    if events.None? || |events.value| == 0 {
      return "";
    }
    var evs := events.value;
    var out: seq<string> := [];
    var last := "";
    var i := 0;
    while i < |evs|
      invariant 0 <= i <= |evs|
      invariant out == Dedup(NonEmptyLines(evs[..i]))
      invariant last == LastOr(out)
    {
      KeptStep(evs, i);
      var segs := evs[i].segs;
      if segs.None? || |segs.value| == 0 {
        i := i + 1;
        continue;
      }
      var line := Trim(SegsText(segs.value));
      if line == "" || line == last {
        i := i + 1;
        continue;
      }
      out := out + [line];
      last := line;
      i := i + 1;
    }
    assert evs[..i] == evs;
    text := Join(out, "\n");
  }
}
