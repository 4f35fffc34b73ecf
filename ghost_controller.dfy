/** The yield controller injected into the page (src/utils/ghost-controller.js):
    it polls for the bridge the content script puts on the window, and once
    the bridge is usable exposes a controller object that forwards to it.
    The page window's property is reduced to what resolveBridge inspects;
    the clock is the elapsed time the poll reads, and the timer's extra
    delay before each repeated poll is a parameter. */
module GhostController {
  import opened JsStrings
  import opened SidebarYield
  import opened ContentBridge

  const PollIntervalMs: nat := 120
  const PollTimeoutMs: nat := 10000

  /** `window.__CEREBR_GHOST_BRIDGE__` as resolveBridge sees it: missing or
      falsy, a value that is not an object, or an object and which of its
      three members are functions. */
  datatype Slot = Missing | NotAnObject | Candidate(setGhostMode: bool, toggleGhostMode: bool, getState: bool)

  /** The object exposeGhostBridge installs has all three functions. */
  const InstalledBridge: Slot := Candidate(true, true, true)

  /** resolveBridge: does it return the candidate rather than null? */
  predicate Resolves(slot: Slot) {
    slot.Candidate? && slot.setGhostMode && slot.toggleGhostMode && slot.getState
  }

  lemma ResolvesExactly(slot: Slot)
    ensures Resolves(slot) <==> slot == InstalledBridge
  {
  }

  /** A JavaScript argument, for `Boolean(enable)`. */
  datatype JsValue = Undefined | Null | Bool(b: bool) | Number(n: int) | Str(s: string) | Object

  function Truthy(v: JsValue): bool {
    match v
    case Undefined => false
    case Null => false
    case Bool(b) => b
    case Number(n) => n != 0
    case Str(s) => s != ""
    case Object => true
  }

  /** The object exposeController defines on the window. */
  class Controller {
    const bridge: Bridge

    ghost predicate Valid()
      reads this, bridge, bridge.sidebar
    {
      bridge.Valid()
    }

    constructor (bridge: Bridge)
      ensures this.bridge == bridge
    {
      this.bridge := bridge;
    }

    /** setYield(enable, reason = 'controller'): the argument is made a
        boolean first, so the controller never toggles. */
    method SetYield(enable: JsValue, reason: Option<string>) returns (s: GhostSnapshot)
      requires Valid()
      modifies bridge.sidebar
      ensures Valid()
      ensures bridge.sidebar == null ==> s == Unavailable
      ensures bridge.sidebar != null ==>
        && s == bridge.sidebar.Snapshot()
        && bridge.sidebar.State() == GhostModeSet(old(bridge.sidebar.State()), Some(Truthy(enable)), Default(reason, "controller"))
        && (bridge.sidebar.ghostState == Yielding <==> Truthy(enable))
        && old(bridge.sidebar.outbox) <= bridge.sidebar.outbox
        && forall i :: |old(bridge.sidebar.outbox)| <= i < |bridge.sidebar.outbox| ==>
             bridge.sidebar.outbox[i].reason == Default(reason, "controller")
    {
      s := bridge.SetGhostMode(Some(Truthy(enable)), Some(Default(reason, "controller")));
    }

    /** toggleYield(reason = 'controller'). */
    method ToggleYield(reason: Option<string>) returns (s: GhostSnapshot)
      requires Valid()
      modifies bridge.sidebar
      ensures Valid()
      ensures bridge.sidebar == null ==> s == Unavailable
      ensures bridge.sidebar != null ==>
        && s == bridge.sidebar.Snapshot()
        && bridge.sidebar.State() == Toggled(old(bridge.sidebar.State()), Default(reason, "controller"))
        && bridge.sidebar.ghostState != old(bridge.sidebar.ghostState)
        && old(bridge.sidebar.outbox) <= bridge.sidebar.outbox
        && forall i :: |old(bridge.sidebar.outbox)| <= i < |bridge.sidebar.outbox| ==>
             bridge.sidebar.outbox[i].reason == Default(reason, "controller")
    {
      s := bridge.ToggleGhostMode(Some(Default(reason, "controller")));
    }

    /** getState(): the bridge's answer, unchanged. */
    method GetState() returns (s: GhostSnapshot)
      requires Valid()
      ensures bridge.sidebar == null ==> s == Unavailable
      ensures bridge.sidebar != null ==> s == bridge.sidebar.Snapshot()
    {
      s := bridge.GetState();
    }
  }

  /** How bootstrap ends: the controller exposed at poll `poll`, or the poll
      given up with `elapsed` ms gone. Polls are numbered from 0. */
  datatype Outcome = Exposed(poll: nat) | GaveUp(poll: nat, elapsed: nat)

  /** The poll chain from poll `k`, `elapsed` ms after the start, as a
      specification: `slotAt(k)` is the window's property at poll k and
      `lagAt(k)` how much later than 120 ms the timer after poll k fires. */
  function Poll(slotAt: nat -> Slot, lagAt: nat -> nat, k: nat, elapsed: nat): (r: Outcome)
    ensures r.poll >= k
    ensures r.Exposed? ==> Resolves(slotAt(r.poll)) && forall j :: k <= j < r.poll ==> !Resolves(slotAt(j))
    ensures r.GaveUp? ==> r.elapsed >= PollTimeoutMs && forall j :: k <= j <= r.poll ==> !Resolves(slotAt(j))
    ensures r.poll == k || elapsed + PollIntervalMs * (r.poll - k - 1) < PollTimeoutMs
    decreases PollTimeoutMs - elapsed
  {
    if Resolves(slotAt(k)) then Exposed(k)
    else if elapsed >= PollTimeoutMs then GaveUp(k, elapsed)
    else Poll(slotAt, lagAt, k + 1, elapsed + PollIntervalMs + lagAt(k))
  }

  /** From the start, the page is polled at most 85 times (polls 0 to 84):
      each repeat comes at least 120 ms after the one before, and a repeat
      is scheduled only while fewer than 10 s have gone. */
  lemma AtMostEightyFivePolls(slotAt: nat -> Slot, lagAt: nat -> nat)
    ensures Poll(slotAt, lagAt, 0, 0).poll <= 84
  {
  }

  /** A bridge that is there from the start is exposed at once; one that
      never comes is given up at the first poll 10 s or more after the start. */
  lemma PollExtremes(slotAt: nat -> Slot, lagAt: nat -> nat)
    ensures Resolves(slotAt(0)) ==> Poll(slotAt, lagAt, 0, 0) == Exposed(0)
    ensures (forall j :: !Resolves(slotAt(j))) ==> Poll(slotAt, lagAt, 0, 0).GaveUp?
  {
  }

  /** The page window, as far as the controller goes. */
  class PageWindow {
    var controller: Controller?
    var exposures: nat

    constructor ()
      ensures controller == null && exposures == 0
    {
      controller := null;
      exposures := 0;
    }

    /** exposeController: defines the controller property (by
        defineProperty or, failing that, by assignment). */
    method ExposeController(bridge: Bridge)
      modifies this
      ensures fresh(controller) && controller.bridge == bridge && exposures == old(exposures) + 1
    {
      controller := new Controller(bridge);
      exposures := exposures + 1;
    }

    /** bootstrap and its poll chain. */
    method Bootstrap(bridge: Bridge, slotAt: nat -> Slot, lagAt: nat -> nat) returns (r: Outcome)
      modifies this
      ensures r == Poll(slotAt, lagAt, 0, 0)
      ensures r.Exposed? ==> fresh(controller) && controller.bridge == bridge && exposures == old(exposures) + 1
      ensures r.GaveUp? ==> controller == old(controller) && exposures == old(exposures)
    {
      var k: nat, elapsed: nat := 0, 0;
      while true
        invariant Poll(slotAt, lagAt, k, elapsed) == Poll(slotAt, lagAt, 0, 0)
        invariant controller == old(controller) && exposures == old(exposures)
        decreases PollTimeoutMs - elapsed
      {
        if Resolves(slotAt(k)) {
          ExposeController(bridge);
          return Exposed(k);
        }
        if elapsed >= PollTimeoutMs {
          return GaveUp(k, elapsed);
        }
        elapsed := elapsed + PollIntervalMs + lagAt(k);
        k := k + 1;
      }
    }
  }
}
