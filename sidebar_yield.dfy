/** The content script's yield state machine (content.js, class CerebrSidebar):
    yielding takes the sidebar iframe out of the page, leaving a comment
    anchor where it was, and resuming puts it back in front of that anchor.
    `hasFrame` says whether `this.iframe` exists; the iframe and the anchor
    are the nodes `Frame` and `Anchor` of the page tree. */
module SidebarYield {
  import opened JsStrings
  import opened Dom
  import Wire

  datatype GhostState = Active | Yielding

  function StateName(g: GhostState): string {
    if g == Yielding then Wire.YIELDING else Wire.ACTIVE
  }

  /** The object getGhostState returns (guardActive is always false and
      guardRemovalCount always 0). */
  datatype GhostSnapshot = GhostSnapshot(ready: bool, ghostMode: bool, ghostState: string,
                                         iframePresent: bool, sidebarVisible: bool)

  /** getUnavailableGhostState: what the bridge and the handlers report without a sidebar. */
  const Unavailable: GhostSnapshot := GhostSnapshot(false, false, Wire.ACTIVE, false, false)

  function ToWire(s: GhostSnapshot): (w: Wire.StateValue)
    ensures w.StateObject? && w.ghostState == s.ghostState
    ensures Wire.IsYielding(w) <==> s.ghostState == Wire.YIELDING
  {
    Wire.StateObject(s.ghostState, map["ready" := s.ready, "ghostMode" := s.ghostMode,
      "iframePresent" := s.iframePresent, "sidebarVisible" := s.sidebarVisible, "guardActive" := false])
  }

  /** detachIframeForYield on the page tree: `None` when the iframe is
      missing or not in the page (nothing changes); otherwise the new tree and
      the iframe's former parent, which becomes `ghostParent`. */
  function Detach(t: Tree, hasFrame: bool): Option<(Tree, nat)> {
    if !hasFrame || !IsConnected(t, Frame) then None
    else
      var p := ParentOf(t, Frame).value;
      Some((Remove(PlaceAnchor(ClearForeignAnchor(t, p), p), Frame), p))
  }

  /** First step of a detach: an anchor left under some other parent is taken out. */
  function ClearForeignAnchor(t: Tree, p: nat): (r: Tree)
    requires p < |t|
    ensures |r| == |t| && (Frame in t[p].kids ==> Frame in r[p].kids)
  {
    var ap := ParentOf(t, Anchor);
    if ap.Some? && ap.value != p then Remove(t, Anchor) else t
  }

  /** Second step: unless it is already under `p`, the anchor goes right before the iframe. */
  function PlaceAnchor(t: Tree, p: nat): (r: Tree)
    requires p < |t| && Frame in t[p].kids
    ensures |r| == |t|
  {
    if ParentOf(t, Anchor) != Some(p) then InsertBefore(t, p, Anchor, Frame) else t
  }

  /** restoreIframeFromYield on the page tree: the new tree and whether the
      iframe went back. The fallback parent is the anchor's parent, else
      `ghostParent`; `ghostParent` is cleared in every case. */
  function Restore(t: Tree, hasFrame: bool, ghostParent: Option<nat>): (Tree, bool) {
    var ap := ParentOf(t, Anchor);
    var fb := if ap.Some? then ap else ghostParent;
    if hasFrame && !IsConnected(t, Frame) && fb.Some? && fb.value < |t| && t[fb.value].connected then
      if ap.Some? then (Remove(InsertBefore(t, fb.value, Frame, Anchor), Anchor), true)
      else (AppendChild(t, fb.value, Frame), true)
    else (if ap.Some? then Remove(t, Anchor) else t, false)
  }

  /** After a detach the iframe is out of the page and occurs nowhere. */
  lemma DetachRemovesFrame(t: Tree, hasFrame: bool)
    requires AtMostOnce(t, Anchor)
    ensures var d := Detach(t, hasFrame);
      && (d.Some? <==> hasFrame && IsConnected(t, Frame))
      && (d.Some? ==> Absent(d.value.0, Frame) && !IsConnected(d.value.0, Frame) && d.value.1 < |t|)
      && (d.Some? ==> AtMostOnce(d.value.0, Anchor) && |d.value.0| == |t|)
  {
    var d := Detach(t, hasFrame);
    if d.Some? {
      var p := ParentOf(t, Frame).value;
      var t1 := ClearForeignAnchor(t, p);
      RemoveKeepsOnce(t, Anchor, Anchor);
      assert AtMostOnce(t1, Anchor);
      if ParentOf(t1, Anchor) != Some(p) {
        InsertBeforeOnce(t1, p, Anchor, Frame);
      }
      RemoveKeepsOnce(PlaceAnchor(t1, p), Frame, Anchor);
    }
  }

  /** After a restore the anchor is gone and the iframe occurs at most once;
      the iframe is back in the page exactly when the restore reports so. */
  lemma RestoreShape(t: Tree, hasFrame: bool, ghostParent: Option<nat>)
    requires AtMostOnce(t, Frame)
    ensures var (r, ok) := Restore(t, hasFrame, ghostParent);
      && Absent(r, Anchor) && AtMostOnce(r, Frame) && |r| == |t|
      && (ok ==> IsConnected(r, Frame))
      && (!hasFrame && Absent(t, Frame) ==> Absent(r, Frame))
  {
    var ap := ParentOf(t, Anchor);
    ParentOfFirst(t, Anchor);
    var fb := if ap.Some? then ap else ghostParent;
    if hasFrame && !IsConnected(t, Frame) && fb.Some? && fb.value < |t| && t[fb.value].connected {
      if ap.Some? {
        RestoreBeforeAnchor(t, fb.value);
      } else {
        RestoreAppended(t, fb.value);
      }
    } else {
      RemoveKeepsOnce(t, Anchor, Frame);
    }
  }

  /** The iframe put back in front of the anchor, which then goes. */
  lemma RestoreBeforeAnchor(t: Tree, p: nat)
    requires AtMostOnce(t, Frame) && p < |t| && t[p].connected && ParentOf(t, Anchor) == Some(p)
    ensures var r := Remove(InsertBefore(t, p, Frame, Anchor), Anchor);
      Absent(r, Anchor) && AtMostOnce(r, Frame) && |r| == |t| && IsConnected(r, Frame)
  {
    var u := InsertBefore(t, p, Frame, Anchor);
    InsertBeforeOnce(t, p, Frame, Anchor);
    RemoveKeepsOnce(u, Anchor, Frame);
    InsertedConnected(t, p, Frame, Anchor);
    RemoveKeepsParent(u, Anchor, Frame, p);
  }

  /** The iframe appended to the remembered parent. */
  lemma RestoreAppended(t: Tree, p: nat)
    requires AtMostOnce(t, Frame) && p < |t| && t[p].connected && Absent(t, Anchor)
    ensures var r := AppendChild(t, p, Frame);
      Absent(r, Anchor) && AtMostOnce(r, Frame) && |r| == |t| && IsConnected(r, Frame)
  {
    AppendChildOnce(t, p, Frame);
    assert Frame in AppendChild(t, p, Frame)[p].kids;
    OnceParent(AppendChild(t, p, Frame), Frame, p);
  }

  /** What WellFormed needs of the page after a detach. */
  lemma DetachedWellFormed(t: Tree, hasFrame: bool)
    requires AtMostOnce(t, Anchor) && hasFrame && IsConnected(t, Frame)
    ensures Detach(t, hasFrame).Some?
    ensures var r := Detach(t, hasFrame).value;
      && AtMostOnce(r.0, Frame) && AtMostOnce(r.0, Anchor) && Absent(r.0, Frame)
      && !IsConnected(r.0, Frame) && r.1 < |r.0|
  {
    DetachRemovesFrame(t, hasFrame);
    AbsentIsOnce(Detach(t, hasFrame).value.0, Frame);
  }

  /** A node that occurs once has the parent that holds it. */
  lemma OnceParent(t: Tree, n: Node, p: nat)
    requires AtMostOnce(t, n) && p < |t| && n in t[p].kids
    ensures ParentOf(t, n) == Some(p)
  {
    var i :| 0 <= i < |t[p].kids| && t[p].kids[i] == n;
    OnceAt(t, n, p, i);
  }

  lemma InsertedConnected(t: Tree, p: nat, n: Node, ref: Node)
    requires p < |t| && ref != n && ref in t[p].kids && t[p].connected
    ensures n in InsertBefore(t, p, n, ref)[p].kids && InsertBefore(t, p, n, ref)[p].connected
    ensures ref in InsertBefore(t, p, n, ref)[p].kids
  {
    var u := Remove(t, n);
    var k := u[p].kids;
    var i := IndexOf(k, ref);
    assert (k[..i] + [n] + k[i..])[i] == n;
    assert (k[..i] + [n] + k[i..])[i + 1] == ref;
  }

  /** Removing some other node does not move a node that occurs once. */
  lemma RemoveKeepsParent(t: Tree, m: Node, n: Node, p: nat)
    requires m != n && AtMostOnce(t, n) && p < |t| && n in t[p].kids && t[p].connected
    ensures IsConnected(Remove(t, m), n)
  {
    RemoveKeepsOnce(t, m, n);
    OnceParent(Remove(t, m), n, p);
  }

  /** Detaching a connected iframe, with no anchor in the page yet, puts
      the anchor in the iframe's place. */
  lemma DetachAt(t: Tree, p: nat, i: nat)
    requires AtMostOnce(t, Frame) && Absent(t, Anchor)
    requires p < |t| && t[p].connected && i < |t[p].kids| && t[p].kids[i] == Frame
    ensures var k := t[p].kids;
      Detach(t, true) == Some((t[p := t[p].(kids := k[..i] + [Anchor] + k[i + 1..])], p))
  {
    OnceAt(t, Frame, p, i);
    ParentOfFirst(t, Anchor);
    assert ClearForeignAnchor(t, p) == t;
    Replace(t, p, i, Frame, Anchor);
  }

  /** The page while yielding, as DetachAt leaves it. */
  lemma AnchoredShape(t: Tree, p: nat, i: nat)
    requires AtMostOnce(t, Frame) && Absent(t, Anchor)
    requires p < |t| && i < |t[p].kids| && t[p].kids[i] == Frame
    ensures var k := t[p].kids;
      var t3 := t[p := t[p].(kids := k[..i] + [Anchor] + k[i + 1..])];
      && AtMostOnce(t3, Anchor) && Absent(t3, Frame) && ParentOf(t3, Anchor) == Some(p)
      && t3[p].kids[i] == Anchor && t3[p].kids[..i] + [Frame] + t3[p].kids[i + 1..] == k
  {
    var k := t[p].kids;
    OnceAt(t, Frame, p, i);
    var k3 := k[..i] + [Anchor] + k[i + 1..];
    var t3 := t[p := t[p].(kids := k3)];
    ReplaceAt(k, i, Anchor, Anchor);
    ReplaceAt(k, i, Anchor, Frame);
    ReplaceAt(k3, i, Frame, Frame);
    assert k3[..i] + [Frame] + k3[i + 1..] == k by {
      assert k3[..i] == k[..i] && k3[i + 1..] == k[i + 1..];
      ReplaceAt(k, i, Frame, Frame);
    }
    assert forall j :: 0 <= j < |t| && j != p ==> t3[j] == t[j];
    OnlyIn(t3, Anchor, p);
  }

  /** Restoring with the anchor where the detach left it puts the iframe back
      in the anchor's place. */
  lemma RestoreAt(t: Tree, p: nat, i: nat)
    requires AtMostOnce(t, Frame) && Absent(t, Anchor)
    requires p < |t| && t[p].connected && i < |t[p].kids| && t[p].kids[i] == Frame
    ensures var k := t[p].kids;
      Restore(t[p := t[p].(kids := k[..i] + [Anchor] + k[i + 1..])], true, Some(p)) == (t, true)
  {
    var k := t[p].kids;
    var t3 := t[p := t[p].(kids := k[..i] + [Anchor] + k[i + 1..])];
    AnchoredShape(t, p, i);
    ParentOfFirst(t3, Frame);
    Replace(t3, p, i, Anchor, Frame);
    assert t3[p := t3[p].(kids := k)] == t;
  }

  /** The position round trip: taking a connected iframe out and putting it
      back, with the page otherwise untouched, restores the page exactly, the
      iframe at its old index among its old siblings. */
  lemma DetachRestoreRoundTrip(t: Tree, p: nat, i: nat)
    requires AtMostOnce(t, Frame) && Absent(t, Anchor)
    requires p < |t| && t[p].connected && i < |t[p].kids| && t[p].kids[i] == Frame
    ensures Detach(t, true).Some? && Detach(t, true).value.1 == p
    ensures Restore(Detach(t, true).value.0, true, Some(p)) == (t, true)
  {
    DetachAt(t, p, i);
    RestoreAt(t, p, i);
  }

  datatype Notice =
    | StateChanged(reason: string, state: GhostSnapshot)
    | PostedToFrame(reason: string, state: GhostSnapshot)

    /** Notices that all carry `reason`, appended to an outbox. */
  lemma Appended(before: seq<Notice>, notices: seq<Notice>, reason: string)
    requires forall i :: 0 <= i < |notices| ==> notices[i].reason == reason
    ensures before <= before + notices
    ensures forall i :: |before| <= i < |before + notices| ==> (before + notices)[i].reason == reason
  {
    forall i | |before| <= i < |before + notices| ensures (before + notices)[i].reason == reason {
      assert (before + notices)[i] == notices[i - |before|];
    }
  }

  /** The sidebar's fields that yield mode reads or writes, as one value. */
  datatype SidebarState = SidebarState(hasFrame: bool, isVisible: bool, dom: Tree, ghostMode: bool,
                                       ghostState: GhostState, ghostParent: Option<nat>,
                                       placeholderShown: bool, outbox: seq<Notice>)

  /** getGhostState of a sidebar in state `v`. */
  function SnapshotOf(v: SidebarState): (s: GhostSnapshot)
    ensures s.ghostState == Wire.YIELDING <==> v.ghostState == Yielding
    ensures s.ready == v.hasFrame && s.ghostMode == v.ghostMode && s.sidebarVisible == v.isVisible
    ensures s.iframePresent <==> v.hasFrame && IsConnected(v.dom, Frame)
  {
    GhostSnapshot(v.hasFrame, v.ghostMode, StateName(v.ghostState), v.hasFrame && IsConnected(v.dom, Frame), v.isVisible)
  }

  /** The state setGhostMode leaves behind: a boolean argument picks it, any
      other value toggles the current one. */
  function Target(next: Option<bool>, current: GhostState): (g: GhostState)
    ensures next.Some? ==> (g == Yielding <==> next.value)
    ensures next.None? ==> g != current
  {
    if next.Some? then (if next.value then Yielding else Active)
    else if current == Yielding then Active else Yielding
  }

  /** suspendForYield, as a specification: nothing happens while yielding;
      otherwise the sidebar yields, the placeholder shows, the iframe is
      detached when it is in the page, and one YIELD_STATE_CHANGED notice
      carries the new state. */
  function Suspended(v: SidebarState, reason: string): (r: SidebarState)
    ensures r.ghostState == Yielding
    ensures v.ghostState == Yielding ==> r == v
    ensures v.outbox <= r.outbox && |r.outbox| <= |v.outbox| + 1
  {
    if v.ghostState == Yielding then v
    else
      var d := Detach(v.dom, v.hasFrame);
      var w := v.(ghostState := Yielding, ghostMode := true, placeholderShown := true,
                  dom := if d.Some? then d.value.0 else v.dom,
                  ghostParent := if d.Some? then Some(d.value.1) else v.ghostParent);
      w.(outbox := v.outbox + [StateChanged(reason, SnapshotOf(w))])
  }

  /** resumeFromYield, as a specification: nothing happens while active;
      otherwise the placeholder hides, the iframe is restored, and the
      background and then, when the iframe is back in the page, the iframe
      itself are told the new state. */
  function Resumed(v: SidebarState, reason: string): (r: SidebarState)
    ensures r.ghostState == Active
    ensures v.ghostState == Active ==> r == v
    ensures v.outbox <= r.outbox && |r.outbox| <= |v.outbox| + 2
  {
    if v.ghostState == Active then v
    else
      var w := v.(placeholderShown := false, dom := Restore(v.dom, v.hasFrame, v.ghostParent).0,
                  ghostParent := None, ghostMode := false, ghostState := Active);
      var s := SnapshotOf(w);
      w.(outbox := v.outbox + ([StateChanged(reason, s)] + if s.iframePresent then [PostedToFrame(reason, s)] else []))
  }

  /** Leaving the yield: the page is restored as Restore says, the placeholder
      is hidden, and the notices sent all carry the reason, the iframe's one
      only when the iframe is back in the page. */
  lemma ResumedShape(v: SidebarState, reason: string)
    requires v.ghostState == Yielding && AtMostOnce(v.dom, Frame)
    ensures var r := Resumed(v, reason);
      var (t, restored) := Restore(v.dom, v.hasFrame, v.ghostParent);
      var s := SnapshotOf(r);
      && r.dom == t && !r.placeholderShown
      && (restored ==> s.iframePresent)
      && r.outbox == v.outbox + ([StateChanged(reason, s)] + if s.iframePresent then [PostedToFrame(reason, s)] else [])
      && forall i :: |v.outbox| <= i < |r.outbox| ==> r.outbox[i].reason == reason
  {
    RestoreShape(v.dom, v.hasFrame, v.ghostParent);
  }

  /** setGhostMode, as a specification: it is suspendForYield or resumeFromYield. */
  function GhostModeSet(v: SidebarState, next: Option<bool>, reason: string): SidebarState {
    if Target(next, v.ghostState) == Yielding then Suspended(v, reason) else Resumed(v, reason)
  }

  /** toggleGhostMode, as a specification. */
  function Toggled(v: SidebarState, reason: string): SidebarState {
    GhostModeSet(v, Some(v.ghostState != Yielding), reason)
  }

  /** Asking for the state the sidebar is already in changes nothing and
      sends no notice. */
  lemma SetCurrentIsNoop(v: SidebarState, reason: string)
    ensures GhostModeSet(v, Some(v.ghostState == Yielding), reason) == v
  {
  }

  /** A second suspend, or a second resume, changes nothing. */
  lemma SuspendResumeIdempotent(v: SidebarState, a: string, b: string)
    ensures Suspended(Suspended(v, a), b) == Suspended(v, a)
    ensures Resumed(Resumed(v, a), b) == Resumed(v, a)
  {
  }

  /** A toggle always changes the state and sends at least one notice
      carrying its reason. */
  lemma ToggleFlips(v: SidebarState, reason: string)
    ensures var r := Toggled(v, reason);
      && r.ghostState != v.ghostState
      && v.outbox <= r.outbox && |r.outbox| > |v.outbox|
      && r.outbox[|v.outbox|] == StateChanged(reason, SnapshotOf(r))
  {
  }

  /** Toggling an active sidebar whose iframe is in the page twice gives
      back the page exactly, with the iframe in its old place, and sends
      three notices: the yield, then the resume to the background and to the
      iframe, which is back in the page. */
  lemma ToggleTwiceRestoresPage(v: SidebarState, p: nat, i: nat, a: string, b: string)
    requires v.ghostState == Active && !v.ghostMode && v.hasFrame && v.ghostParent.None?
    requires AtMostOnce(v.dom, Frame) && Absent(v.dom, Anchor)
    requires p < |v.dom| && v.dom[p].connected && i < |v.dom[p].kids| && v.dom[p].kids[i] == Frame
    ensures var once := Toggled(v, a);
      var twice := Toggled(once, b);
      var back := v.(placeholderShown := false);
      && once.ghostState == Yielding && !IsConnected(once.dom, Frame) && once.ghostParent == Some(p)
      && twice == back.(outbox := v.outbox + [StateChanged(a, SnapshotOf(once)),
                                               StateChanged(b, SnapshotOf(back)), PostedToFrame(b, SnapshotOf(back))])
      && SnapshotOf(back).iframePresent
  {
    DetachRestoreRoundTrip(v.dom, p, i);
    AbsentIsOnce(v.dom, Anchor);
    DetachRemovesFrame(v.dom, true);
    OnceParent(v.dom, Frame, p);
    var t3 := Detach(v.dom, true).value.0;
    YieldThenResume(v, t3, p, a, b);
  }

  /** ToggleTwiceRestoresPage with the page facts given. */
  lemma YieldThenResume(v: SidebarState, t3: Tree, p: nat, a: string, b: string)
    requires v.ghostState == Active && !v.ghostMode && v.hasFrame && v.ghostParent.None?
    requires Detach(v.dom, true) == Some((t3, p)) && !IsConnected(t3, Frame)
    requires Restore(t3, true, Some(p)) == (v.dom, true) && IsConnected(v.dom, Frame)
    ensures var once := Toggled(v, a);
      var twice := Toggled(once, b);
      var back := v.(placeholderShown := false);
      && once.ghostState == Yielding && !IsConnected(once.dom, Frame) && once.ghostParent == Some(p)
      && twice == back.(outbox := v.outbox + [StateChanged(a, SnapshotOf(once)),
                                               StateChanged(b, SnapshotOf(back)), PostedToFrame(b, SnapshotOf(back))])
      && SnapshotOf(back).iframePresent
  {
    var w := v.(ghostState := Yielding, ghostMode := true, placeholderShown := true, dom := t3, ghostParent := Some(p));
    var once := w.(outbox := v.outbox + [StateChanged(a, SnapshotOf(w))]);
    assert Toggled(v, a) == once;
    var back := v.(placeholderShown := false);
    assert Toggled(once, b) == back.(outbox := once.outbox + [StateChanged(b, SnapshotOf(back)), PostedToFrame(b, SnapshotOf(back))]);
  }

  class Sidebar {
    var hasFrame: bool
    var dom: Tree
    var ghostMode: bool
    var ghostState: GhostState
    var ghostParent: Option<nat>
    var placeholderShown: bool
    var isVisible: bool
    /** YIELD_STATE_CHANGED messages to the background and
        CEREBR_DEBUG_YIELD_STATE_CHANGED posts to the iframe, in order. */
    var outbox: seq<Notice>

    /** The page tree holds the iframe and the anchor at most once each, a
        missing iframe is in no parent, and `ghostParent` names a parent. */
    ghost predicate WellFormed()
      reads this`dom, this`hasFrame, this`ghostParent
    {
      && AtMostOnce(dom, Frame) && AtMostOnce(dom, Anchor)
      && (!hasFrame ==> Absent(dom, Frame))
      && (ghostParent.Some? ==> ghostParent.value < |dom|)
    }

    /** The state flags agree, an active sidebar leaves no anchor behind, and
        a yielding one keeps the iframe out of the page. */
    ghost predicate Valid()
      reads this`dom, this`hasFrame, this`ghostParent, this`ghostMode, this`ghostState
    {
      && WellFormed()
      && (ghostMode <==> ghostState == Yielding)
      && (ghostState == Active ==> Absent(dom, Anchor) && ghostParent.None?)
      && (ghostState == Yielding ==> !IsConnected(dom, Frame))
    }

    /** The comment anchor is created fresh, so it is not in the page yet. */
    constructor (hasFrame: bool, dom: Tree, visible: bool)
      requires AtMostOnce(dom, Frame) && (!hasFrame ==> Absent(dom, Frame)) && Absent(dom, Anchor)
      ensures Valid()
      ensures this.hasFrame == hasFrame && this.dom == dom && isVisible == visible
      ensures ghostState == Active && !ghostMode && ghostParent.None? && !placeholderShown && outbox == []
    {
      this.hasFrame := hasFrame;
      this.dom := dom;
      isVisible := visible;
      ghostMode := false;
      ghostState := Active;
      ghostParent := None;
      placeholderShown := false;
      outbox := [];
    }

    /** The fields as one value. */
    function State(): SidebarState
      reads this
    {
      SidebarState(hasFrame, isVisible, dom, ghostMode, ghostState, ghostParent, placeholderShown, outbox)
    }

    /** getGhostState. */
    function Snapshot(): (s: GhostSnapshot)
      reads this
      ensures s.ghostState == Wire.YIELDING <==> ghostState == Yielding
      ensures s.ready == hasFrame && s.ghostMode == ghostMode && s.sidebarVisible == isVisible
      ensures s.iframePresent <==> hasFrame && IsConnected(dom, Frame)
    {
      SnapshotOf(State())
    }

    /** notifyYieldStateChanged: a YIELD_STATE_CHANGED message with the current state. */
    method NotifyYieldStateChanged(reason: string)
      modifies this`outbox
      ensures outbox == old(outbox) + [StateChanged(reason, Snapshot())]
      ensures old(outbox) <= outbox && forall i :: |old(outbox)| <= i < |outbox| ==> outbox[i].reason == reason
    {
      outbox := outbox + [StateChanged(reason, Snapshot())];
    }

    /** postGhostStateToIframe: only an iframe in the page has a window to post to. */
    method PostGhostStateToIframe(reason: string)
      modifies this`outbox
      ensures outbox == old(outbox) + if hasFrame && IsConnected(dom, Frame) then [PostedToFrame(reason, Snapshot())] else []
      ensures old(outbox) <= outbox && forall i :: |old(outbox)| <= i < |outbox| ==> outbox[i].reason == reason
    {
      if hasFrame && IsConnected(dom, Frame) {
        outbox := outbox + [PostedToFrame(reason, Snapshot())];
      }
    }

    /** detachIframeForYield. */
    method DetachIframeForYield(reason: string) returns (detached: bool)
      requires WellFormed()
      modifies this`dom, this`ghostParent
      ensures WellFormed()
      ensures var d := Detach(old(dom), hasFrame);
        && detached == d.Some?
        && (d.Some? ==> dom == d.value.0 && ghostParent == Some(d.value.1))
        && (d.None? ==> dom == old(dom) && ghostParent == old(ghostParent))
      ensures !IsConnected(dom, Frame)
    {
      if !hasFrame || !IsConnected(dom, Frame) {
        ParentOfFirst(dom, Frame);
        return false;
      }
      ghost var t0 := dom;
      var parent := ParentOf(dom, Frame).value;
      // an anchor left under another parent is taken out, then the anchor
      // goes before the iframe unless it is already under the same parent
      var t := ClearForeignAnchor(dom, parent);
      t := PlaceAnchor(t, parent);
      dom := Remove(t, Frame);
      ghostParent := Some(parent);
      detached := true;
      DetachedWellFormed(t0, hasFrame);
    }

    /** restoreIframeFromYield. */
    method RestoreIframeFromYield(reason: string) returns (restored: bool)
      requires WellFormed()
      modifies this`dom, this`ghostParent
      ensures (dom, restored) == Restore(old(dom), hasFrame, old(ghostParent))
      ensures WellFormed() && ghostParent.None? && Absent(dom, Anchor) && |dom| == |old(dom)|
      ensures restored ==> IsConnected(dom, Frame)
    {
      RestoreShape(dom, hasFrame, ghostParent);
      AbsentIsOnce(Restore(dom, hasFrame, ghostParent).0, Anchor);
      var anchorParent := ParentOf(dom, Anchor);
      var fallbackParent := if anchorParent.Some? then anchorParent else ghostParent;
      if hasFrame && !IsConnected(dom, Frame) && fallbackParent.Some? && fallbackParent.value < |dom|
         && dom[fallbackParent.value].connected {
        if anchorParent.Some? {
          dom := InsertBefore(dom, fallbackParent.value, Frame, Anchor);
          dom := Remove(dom, Anchor);
        } else {
          dom := AppendChild(dom, fallbackParent.value, Frame);
        }
        ghostParent := None;
        return true;
      }
      if anchorParent.Some? {
        dom := Remove(dom, Anchor);
      }
      ghostParent := None;
      restored := false;
    }

    /** suspendForYield: idempotent while yielding; otherwise yields, shows
        the placeholder, takes the iframe out and tells the background. */
    method SuspendForYield(reason: string) returns (s: GhostSnapshot)
      requires Valid()
      modifies this`dom, this`ghostParent, this`ghostState, this`ghostMode, this`placeholderShown, this`outbox
      ensures Valid() && s == Snapshot()
      ensures State() == Suspended(old(State()), reason)
      ensures ghostState == Yielding && ghostMode && !IsConnected(dom, Frame) && !s.iframePresent
      ensures old(ghostState) == Yielding ==>
        && dom == old(dom) && ghostParent == old(ghostParent) && placeholderShown == old(placeholderShown)
        && outbox == old(outbox)
      ensures old(ghostState) == Active ==>
        var d := Detach(old(dom), hasFrame);
        && placeholderShown
        && (d.Some? ==> dom == d.value.0 && ghostParent == Some(d.value.1))
        && (d.None? ==> dom == old(dom) && ghostParent == old(ghostParent))
        && outbox == old(outbox) + [StateChanged(reason, s)]
      ensures old(outbox) <= outbox && forall i :: |old(outbox)| <= i < |outbox| ==> outbox[i].reason == reason
    {
      if ghostState == Yielding {
        DetachRemovesFrame(dom, hasFrame);
        return Snapshot();
      }
      ghost var v := State();
      ghostState := Yielding;
      ghostMode := true;
      placeholderShown := true;
      var detached := DetachIframeForYield(reason);
      ghost var d := Detach(v.dom, hasFrame);
      ghost var w := v.(ghostState := Yielding, ghostMode := true, placeholderShown := true,
                        dom := if d.Some? then d.value.0 else v.dom,
                        ghostParent := if d.Some? then Some(d.value.1) else v.ghostParent);
      assert State() == w;
      NotifyYieldStateChanged(reason);
      s := Snapshot();
      assert s == SnapshotOf(w);
      assert State() == Suspended(v, reason);
      Appended(old(outbox), [StateChanged(reason, s)], reason);
    }

    /** resumeFromYield: idempotent while active; otherwise hides the
        placeholder, puts the iframe back, and tells the background and, when
        the iframe is in the page again, the iframe itself. */
    method ResumeFromYield(reason: string) returns (s: GhostSnapshot)
      requires Valid()
      modifies this`dom, this`ghostParent, this`ghostState, this`ghostMode, this`placeholderShown, this`outbox
      ensures Valid() && s == Snapshot()
      ensures State() == Resumed(old(State()), reason)
      ensures ghostState == Active && !ghostMode && ghostParent.None? && Absent(dom, Anchor)
      ensures old(ghostState) == Active ==>
        && dom == old(dom) && placeholderShown == old(placeholderShown) && outbox == old(outbox)
      ensures old(ghostState) == Yielding ==>
        var (t, restored) := Restore(old(dom), hasFrame, old(ghostParent));
        && dom == t && !placeholderShown
        && (restored ==> s.iframePresent)
        && outbox == old(outbox) + ([StateChanged(reason, s)] + if s.iframePresent then [PostedToFrame(reason, s)] else [])
      ensures old(outbox) <= outbox && forall i :: |old(outbox)| <= i < |outbox| ==> outbox[i].reason == reason
    {
      if ghostState == Active {
        return Snapshot();
      }
      ghost var v := State();
      s := LeaveYield(reason);
      ResumedShape(v, reason);
    }

    /** The part of resumeFromYield past its early return. */
    method LeaveYield(reason: string) returns (s: GhostSnapshot)
      requires Valid() && ghostState == Yielding
      modifies this`dom, this`ghostParent, this`ghostState, this`ghostMode, this`placeholderShown, this`outbox
      ensures Valid() && s == Snapshot()
      ensures State() == Resumed(old(State()), reason)
      ensures ghostState == Active && !ghostMode && ghostParent.None? && Absent(dom, Anchor)
    {
      ghost var v := State();
      placeholderShown := false;
      var restored := RestoreIframeFromYield(reason);
      ghostMode := false;
      ghostState := Active;
      ghost var w := v.(placeholderShown := false, dom := Restore(v.dom, v.hasFrame, v.ghostParent).0,
                        ghostParent := None, ghostMode := false, ghostState := Active);
      assert State() == w;
      ghost var sw := SnapshotOf(w);
      assert Snapshot() == sw;
      NotifyYieldStateChanged(reason);
      assert outbox == v.outbox + [StateChanged(reason, sw)];
      assert Snapshot() == sw && (sw.iframePresent <==> hasFrame && IsConnected(dom, Frame));
      ghost var o1 := outbox;
      PostGhostStateToIframe(reason);
      assert outbox == o1 + if sw.iframePresent then [PostedToFrame(reason, sw)] else [];
      assert outbox == v.outbox + ([StateChanged(reason, sw)] + if sw.iframePresent then [PostedToFrame(reason, sw)] else []);
      s := Snapshot();
      assert State() == Resumed(v, reason);
    }

    /** setGhostMode: `Some(b)` is a boolean argument, `None` any other value, which toggles. */
    method SetGhostMode(next: Option<bool>, reason: string) returns (s: GhostSnapshot)
      requires Valid()
      modifies this`dom, this`ghostParent, this`ghostState, this`ghostMode, this`placeholderShown, this`outbox
      ensures Valid() && s == Snapshot()
      ensures State() == GhostModeSet(old(State()), next, reason)
      ensures ghostState == Target(next, old(ghostState))
      ensures old(outbox) <= outbox && forall i :: |old(outbox)| <= i < |outbox| ==> outbox[i].reason == reason
    {
      var enableYield := if next.Some? then next.value else ghostState != Yielding;
      if enableYield {
        s := SuspendForYield(reason);
      } else {
        s := ResumeFromYield(reason);
      }
    }

    /** toggleGhostMode. */
    method ToggleGhostMode(reason: string) returns (s: GhostSnapshot)
      requires Valid()
      modifies this`dom, this`ghostParent, this`ghostState, this`ghostMode, this`placeholderShown, this`outbox
      ensures Valid() && s == Snapshot()
      ensures State() == Toggled(old(State()), reason)
      ensures ghostState != old(ghostState)
      ensures old(outbox) <= outbox && forall i :: |old(outbox)| <= i < |outbox| ==> outbox[i].reason == reason
    {
      s := SetGhostMode(Some(ghostState != Yielding), reason);
    }

    /** The sidebar container is (re)attached to the document, which makes its
        parents in `subtree` connected; while yielding the iframe is taken out
        again (initializeSidebar and the removal observer). */
    method AttachContainer(subtree: set<nat>, reason: string)
      requires Valid()
      modifies this`dom, this`ghostParent, this`placeholderShown
      ensures Valid()
      ensures |dom| == |old(dom)|
      ensures ghostState == Yielding ==>
        var c := Connect(old(dom), subtree);
        var d := Detach(c, hasFrame);
        && placeholderShown && !IsConnected(dom, Frame)
        && (d.Some? ==> dom == d.value.0 && ghostParent == Some(d.value.1))
        && (d.None? ==> dom == c && ghostParent == old(ghostParent))
      ensures ghostState == Active ==> dom == Connect(old(dom), subtree) && placeholderShown == old(placeholderShown)
    {
      ConnectKeeps(dom, subtree);
      dom := Connect(dom, subtree);
      if ghostState == Yielding {
        placeholderShown := true;
        var detached := DetachIframeForYield(reason);
      }
    }
  }

  /** Marks the parents in `subtree` connected; no child moves. */
  function Connect(t: Tree, subtree: set<nat>): (r: Tree)
    ensures |r| == |t|
    ensures forall i :: 0 <= i < |t| ==> r[i].kids == t[i].kids
    ensures forall i :: 0 <= i < |t| ==> r[i].connected == (t[i].connected || i in subtree)
  {
    seq(|t|, i requires 0 <= i < |t| => t[i].(connected := t[i].connected || i in subtree))
  }

  lemma ConnectKeeps(t: Tree, subtree: set<nat>)
    ensures forall n :: AtMostOnce(t, n) ==> AtMostOnce(Connect(t, subtree), n)
    ensures forall n :: Absent(t, n) ==> Absent(Connect(t, subtree), n)
  {
    forall n ensures ParentOf(t, n) == ParentOf(Connect(t, subtree), n) {
      SameParent(t, Connect(t, subtree), n);
    }
  }
}
