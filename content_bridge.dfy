/** The content script's two ways into the sidebar (content.js): the bridge
    object it puts on the page window for the yield controller, and the
    runtime message listener that answers the background worker. When the
    sidebar could not be created both still answer: the bridge with the
    unavailable state, the listener with an error. */
module ContentBridge {
  import opened JsStrings
  import opened Wire
  import opened SidebarYield
  import YieldCoordinator

  const SidebarNotFound: string := "Sidebar instance not found"

  /** `value || fallback` on a string: the empty string is falsy. */
  function OrElse(s: string, fallback: string): string {
    if s == "" then fallback else s
  }

  /** A JavaScript default parameter: it applies only to `undefined` (`None`). */
  function Default(s: Option<string>, fallback: string): string {
    if s.Some? then s.value else fallback
  }

  /** The reply of a handler that reached the sidebar. */
  function Answered(s: GhostSnapshot): (r: Reply)
    ensures r.Answer? && r.success && r.error == ""
    ensures IsYielding(r.state) <==> s.ghostState == YIELDING
  {
    Answer(true, ToWire(s), "")
  }

  /** The reply of a handler when there is no sidebar. */
  const NotFound: Reply := Answer(false, NoState, SidebarNotFound)

  /** The object exposeGhostBridge puts on the window; `sidebar` is null when
      the sidebar's constructor threw. */
  class Bridge {
    const sidebar: Sidebar?

    ghost predicate Valid()
      reads this, sidebar
    {
      sidebar != null ==> sidebar.Valid()
    }

    constructor (sidebar: Sidebar?)
      ensures this.sidebar == sidebar
    {
      this.sidebar := sidebar;
    }

    /** bridge.setGhostMode(nextState, reason = 'unknown'). */
    method SetGhostMode(next: Option<bool>, reason: Option<string>) returns (s: GhostSnapshot)
      requires Valid()
      modifies sidebar
      ensures Valid()
      ensures sidebar == null ==> s == Unavailable
      ensures sidebar != null ==>
        && s == sidebar.Snapshot()
        && sidebar.State() == GhostModeSet(old(sidebar.State()), next, Default(reason, "unknown"))
        && sidebar.ghostState == Target(next, old(sidebar.ghostState))
        && old(sidebar.outbox) <= sidebar.outbox
        && (forall i :: |old(sidebar.outbox)| <= i < |sidebar.outbox| ==> sidebar.outbox[i].reason == Default(reason, "unknown"))
    {
      if sidebar == null {
        return Unavailable;
      }
      s := sidebar.SetGhostMode(next, Default(reason, "unknown"));
    }

    /** bridge.toggleGhostMode(reason = 'manual'). */
    method ToggleGhostMode(reason: Option<string>) returns (s: GhostSnapshot)
      requires Valid()
      modifies sidebar
      ensures Valid()
      ensures sidebar == null ==> s == Unavailable
      ensures sidebar != null ==>
        && s == sidebar.Snapshot()
        && sidebar.State() == Toggled(old(sidebar.State()), Default(reason, "manual"))
        && sidebar.ghostState != old(sidebar.ghostState)
        && old(sidebar.outbox) <= sidebar.outbox
        && (forall i :: |old(sidebar.outbox)| <= i < |sidebar.outbox| ==> sidebar.outbox[i].reason == Default(reason, "manual"))
    {
      if sidebar == null {
        return Unavailable;
      }
      s := sidebar.ToggleGhostMode(Default(reason, "manual"));
    }

    /** bridge.getState(): reads only. */
    method GetState() returns (s: GhostSnapshot)
      requires Valid()
      ensures sidebar == null ==> s == Unavailable
      ensures sidebar != null ==> s == sidebar.Snapshot()
    {
      if sidebar == null {
        return Unavailable;
      }
      s := sidebar.Snapshot();
    }
  }

  /** The content script's `sidebar` variable (null when creating it threw) and
      its runtime message listener. */
  class ContentScript {
    const sidebar: Sidebar?

    ghost predicate Valid()
      reads this, sidebar
    {
      sidebar != null ==> sidebar.Valid()
    }

    constructor (sidebar: Sidebar?)
      ensures this.sidebar == sidebar
    {
      this.sidebar := sidebar;
    }

    /** The yield branches of the chrome.runtime.onMessage listener. */
    method Handle(m: Message) returns (r: Reply)
      requires Valid()
      modifies sidebar
      ensures Valid()
      ensures m.Ping? ==> r == Pong
      ensures m.Ping? || m.GetYieldState? ==> sidebar == null || unchanged(sidebar)
      ensures !m.Ping? && sidebar == null ==> r == NotFound
      ensures !m.Ping? && sidebar != null ==> r == Answered(sidebar.Snapshot())
      ensures m.SetYield? && sidebar != null ==>
        && sidebar.State() == GhostModeSet(old(sidebar.State()), Some(m.enable), OrElse(m.reason, "EXTERNAL"))
        && sidebar.ghostState == (if m.enable then Yielding else Active)
      ensures m.ToggleYield? && sidebar != null ==>
        && sidebar.State() == Toggled(old(sidebar.State()), OrElse(m.reason, "COMMAND"))
        && sidebar.ghostState != old(sidebar.ghostState)
      ensures (m.SetYield? || m.ToggleYield?) && sidebar != null ==>
        && old(sidebar.outbox) <= sidebar.outbox
        && forall i :: |old(sidebar.outbox)| <= i < |sidebar.outbox| ==>
             sidebar.outbox[i].reason == OrElse(m.reason, if m.SetYield? then "EXTERNAL" else "COMMAND")
    {
      match m
      case Ping =>
        r := Pong;
      case ToggleYield(reason) =>
        if sidebar == null {
          return NotFound;
        }
        var s := sidebar.ToggleGhostMode(OrElse(reason, "COMMAND"));
        r := Answered(s);
      case SetYield(enable, reason) =>
        if sidebar == null {
          return NotFound;
        }
        var s := sidebar.SetGhostMode(Some(enable), OrElse(reason, "EXTERNAL"));
        r := Answered(s);
      case GetYieldState =>
        if sidebar == null {
          return NotFound;
        }
        r := Answered(sidebar.Snapshot());
    }
  }

  /** What the listener answers to CEREBR_SET_YIELD is what the background's
      retry loop wants: a tab that answers the probe and then the request as
      the listener does is applied on the first attempt, with one probe and
      one request, and its shadow membership follows `enable`. */
  lemma ApplyAgainstListener(h: YieldCoordinator.Host, shadow: set<nat>, tab: nat, enable: bool,
                             reason: string, maxAttempts: nat, s: GhostSnapshot)
    requires tab != 0 && 1 <= maxAttempts
    requires s.ghostState == StateName(if enable then Yielding else Active)
    requires YieldCoordinator.ReplyAt(h.replies, h.nextReply) == YieldCoordinator.Delivered(Pong)
    requires YieldCoordinator.ReplyAt(h.replies, h.nextReply + 1) == YieldCoordinator.Delivered(Answered(s))
    ensures var (res, h2, shadow2) := YieldCoordinator.Apply(h, shadow, tab, enable, reason, 1, maxAttempts, "Unknown error");
      && res == YieldCoordinator.Applied(ToWire(s))
      && (tab in shadow2 <==> enable)
      && (forall other :: other != tab ==> (other in shadow2 <==> other in shadow))
      && h2.log == h.log + [YieldCoordinator.Sent(tab, Ping), YieldCoordinator.Sent(tab, SetYield(enable, reason))]
  {
    YieldCoordinator.ReconnectTrace(h, tab, SetYield(enable, reason));
  }
}
