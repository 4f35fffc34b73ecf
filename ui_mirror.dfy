/** The sidebar frame's mirror of the debugger-compatibility (yield) state
    (src/main.js): `debugYieldState`, the preferences switch, the notice,
    and the in-flight stream that entering YIELDING aborts. The DOM of the
    chat is reduced to two booleans: a message is still updating, and a
    controller for it exists. Runtime messages are replaced by their replies;
    a reply that failed or threw is `None`. */
module UiMirror {
  import opened JsStrings
  import opened Wire

  /** Everything applyDebugCompatState and the switch handlers touch. */
  datatype Mirror = Mirror(
    state: StateValue,        // debugYieldState
    switchChecked: bool,
    switchDisabled: bool,
    noticeVisible: bool,
    streaming: bool,          // an `.ai-message.updating` element exists
    controller: bool,         // currentController is set
    refCurrent: bool,         // abortControllerRef.current is set
    aborts: nat,              // currentController.abort() calls so far
    placeholderResets: nat)   // restoreDefaultPlaceholder() calls so far

  /** `{ ghostState: 'ACTIVE' }`. */
  const ActiveObject: StateValue := StateObject(ACTIVE, map[])

  /** The fields a spread copies: none from `undefined`, `null` or a non-object. */
  function FlagsOf(s: StateValue): map<string, bool> {
    if s.StateObject? then s.flags else map[]
  }

  /** The normalized state: exactly `'YIELDING'` stays, anything else is `'ACTIVE'`. */
  function Normalize(s: StateValue): (r: StateValue)
    ensures r.StateObject? && (r.ghostState == YIELDING || r.ghostState == ACTIVE)
    ensures IsYielding(r) <==> IsYielding(s)
    ensures r.flags == FlagsOf(s)
  {
    StateObject(if IsYielding(s) then YIELDING else ACTIVE, FlagsOf(s))
  }

  lemma NormalizeIdempotent(s: StateValue)
    ensures Normalize(Normalize(s)) == Normalize(s)
  {
  }

  /** applyDebugCompatState, as a specification. */
  function Applied(m: Mirror, s: StateValue, keepSwitchDisabled: bool): Mirror {
    var n := Normalize(s);
    var entering := !IsYielding(m.state) && IsYielding(n);
    var abort := entering && m.streaming && m.controller;
    Mirror(n, IsYielding(n), keepSwitchDisabled, IsYielding(n),
           m.streaming && !abort, m.controller && !abort, m.refCurrent && !abort,
           m.aborts + (if abort then 1 else 0),
           m.placeholderResets + (if entering then 1 else 0))
  }

  /** The mirror, the switch and the notice all show the state applied. */
  lemma AppliedShowsState(m: Mirror, s: StateValue, keep: bool)
    ensures var r := Applied(m, s, keep);
      && (IsYielding(r.state) <==> IsYielding(s))
      && r.switchChecked == IsYielding(s) && r.noticeVisible == IsYielding(s)
      && r.switchDisabled == keep
      && r.state.flags == FlagsOf(s)
  {
  }

  /** The stream is aborted, and the controller references cleared, exactly
      on a non-YIELDING to YIELDING edge with a stream in flight. */
  lemma AbortOnlyWhenEntering(m: Mirror, s: StateValue, keep: bool)
    ensures var r := Applied(m, s, keep);
      && (r.aborts == m.aborts + 1 <==> !IsYielding(m.state) && IsYielding(s) && m.streaming && m.controller)
      && (r.aborts != m.aborts + 1 ==>
            r.aborts == m.aborts && r.controller == m.controller && r.refCurrent == m.refCurrent && r.streaming == m.streaming)
      && (r.aborts == m.aborts + 1 ==> !r.controller && !r.refCurrent && !r.streaming)
  {
  }

  /** Applying the same state again changes nothing: in particular a
      repeated YIELDING aborts nothing more. */
  lemma AppliedIdempotent(m: Mirror, s: StateValue, keep: bool)
    ensures Applied(Applied(m, s, keep), s, keep) == Applied(m, s, keep)
  {
  }

  /** refreshDebugCompatSwitch, as a specification: outside the extension it
      applies ACTIVE with the switch disabled; otherwise the switch is
      disabled while asking, and a failed or erroring query applies ACTIVE. */
  function Refreshed(m: Mirror, inExtension: bool, reply: Option<StateValue>): Mirror {
    if !inExtension then Applied(m, ActiveObject, true)
    else
      var asking := m.(switchChecked := IsYielding(m.state), switchDisabled := true);
      if reply.Some? then Applied(asking, reply.value, false) else Applied(asking, ActiveObject, false)
  }

  lemma RefreshFallsBackToActive(m: Mirror, inExtension: bool, reply: Option<StateValue>)
    ensures var r := Refreshed(m, inExtension, reply);
      && (IsYielding(r.state) <==> inExtension && reply.Some? && IsYielding(reply.value))
      && r.switchDisabled == !inExtension
  {
  }

  /** The switch shows the requested value, disabled, and enabling shows
      YIELDING at once. */
  function Pending(m: Mirror, enable: bool): Mirror {
    var pending := m.(switchChecked := enable, switchDisabled := true);
    if enable then pending.(state := StateObject(YIELDING, FlagsOf(m.state)), noticeVisible := true) else pending
  }

  /** The switch's change handler, as a specification: enabling shows
      YIELDING at once; the reply is applied if it came, and a failed set
      re-runs the refresh. */
  function Switched(m: Mirror, inExtension: bool, enable: bool,
                    setReply: Option<StateValue>, refreshReply: Option<StateValue>): Mirror {
    if !inExtension then Applied(m, ActiveObject, true)
    else
      var shown := Pending(m, enable);
      if setReply.Some? then Applied(shown, setReply.value, false) else Refreshed(shown, true, refreshReply)
  }

  /** A failed set never keeps the optimistic value: the state is what the
      refresh reports, and ACTIVE when the refresh fails too. */
  lemma FailedSetFollowsRefresh(m: Mirror, enable: bool, refreshReply: Option<StateValue>)
    ensures var r := Switched(m, true, enable, None, refreshReply);
      && (IsYielding(r.state) <==> refreshReply.Some? && IsYielding(refreshReply.value))
      && !r.switchDisabled
  {
  }

  /** Because enabling sets YIELDING before the reply is applied, turning the
      switch on never aborts the stream in flight. */
  lemma EnableFromSwitchNeverAborts(m: Mirror, setReply: Option<StateValue>, refreshReply: Option<StateValue>)
    ensures Switched(m, true, true, setReply, refreshReply).aborts == m.aborts
  {
  }

  /** What a send entry point does. */
  datatype Gate = Ignored | Blocked | Proceeds

  class YieldMirror {
    var state: StateValue
    var switchChecked: bool
    var switchDisabled: bool
    var noticeVisible: bool
    var streaming: bool
    var controller: bool
    var refCurrent: bool
    var aborts: nat
    var placeholderResets: nat

    function Model(): Mirror
      reads this
    {
      Mirror(state, switchChecked, switchDisabled, noticeVisible, streaming, controller,
             refCurrent, aborts, placeholderResets)
    }

    /** `debugYieldState` always holds a normalized object. */
    ghost predicate Valid()
      reads this
    {
      state.StateObject? && (state.ghostState == YIELDING || state.ghostState == ACTIVE)
    }

    /** The frame starts ACTIVE with no stream. */
    constructor ()
      ensures Valid() && Model() == Mirror(ActiveObject, false, false, false, false, false, false, 0, 0)
    {
      state := ActiveObject;
      switchChecked, switchDisabled, noticeVisible := false, false, false;
      streaming, controller, refCurrent := false, false, false;
      aborts, placeholderResets := 0, 0;
    }

    /** isDebugCompatYielding. */
    predicate Yielding()
      reads this
    {
      IsYielding(state)
    }

    /** setDebugCompatSwitchState. */
    method ShowSwitch(s: StateValue, disabled: bool)
      modifies this`switchChecked, this`switchDisabled
      ensures switchChecked == IsYielding(s) && switchDisabled == disabled
    {
      switchChecked := IsYielding(s);
      switchDisabled := disabled;
    }

    /** renderDebugCompatNotice. */
    method RenderNotice()
      modifies this`noticeVisible
      ensures noticeVisible == Yielding()
    {
      noticeVisible := Yielding();
    }

    /** applyDebugCompatState; also what a CEREBR_DEBUG_YIELD_STATE_CHANGED
        window message does, with the switch left enabled. */
    method Apply(s: StateValue, keepSwitchDisabled: bool)
      modifies this
      ensures Valid()
      ensures Model() == Applied(old(Model()), s, keepSwitchDisabled)
    {
      var wasYielding := Yielding();
      var normalized := StateObject(if IsYielding(s) then YIELDING else ACTIVE, FlagsOf(s));
      state := normalized;
      ShowSwitch(normalized, keepSwitchDisabled);
      RenderNotice();
      if !wasYielding && IsYielding(normalized) {
        if streaming && controller {
          aborts := aborts + 1;
          controller := false;
          refCurrent := false;
          streaming := false;
        }
        placeholderResets := placeholderResets + 1;
      }
    }

    /** refreshDebugCompatSwitch. */
    method Refresh(inExtension: bool, reply: Option<StateValue>)
      modifies this
      ensures Valid()
      ensures Model() == Refreshed(old(Model()), inExtension, reply)
    {
      if !inExtension {
        Apply(ActiveObject, true);
        return;
      }
      ShowSwitch(state, true);
      if reply.Some? {
        Apply(reply.value, false);
      } else {
        Apply(ActiveObject, false);
      }
    }

    /** The preferences switch's change handler. */
    method SwitchChanged(inExtension: bool, enable: bool,
                         setReply: Option<StateValue>, refreshReply: Option<StateValue>)
      requires Valid()
      modifies this
      ensures Valid()
      ensures Model() == Switched(old(Model()), inExtension, enable, setReply, refreshReply)
    {
      if !inExtension {
        Apply(ActiveObject, true);
        return;
      }
      ShowPending(enable);
      if setReply.Some? {
        Apply(setReply.value, false);
      } else {
        Refresh(true, refreshReply);
      }
    }

    /** The optimistic part of the switch's change handler. */
    method ShowPending(enable: bool)
      requires Valid()
      modifies this
      ensures Valid()
      ensures Model() == Pending(old(Model()), enable)
    {
      ShowSwitch(StateObject(if enable then YIELDING else ACTIVE, map[]), true);
      if enable {
        state := StateObject(YIELDING, FlagsOf(state));
        RenderNotice();
      }
    }

    /** sendMessage: a blank message is ignored; otherwise nothing is sent while yielding. */
    method SendMessage(blank: bool) returns (g: Gate)
      ensures g == Ignored <==> blank
      ensures g == Blocked <==> !blank && Yielding()
      ensures g == Proceeds <==> !blank && !Yielding()
    {
      if blank {
        return Ignored;
      }
      if Yielding() {
        return Blocked;
      }
      return Proceeds;
    }

    /** sendPreparedMessage. */
    method SendPreparedMessage() returns (g: Gate)
      ensures g != Ignored
      ensures g == Blocked <==> Yielding()
    {
      if Yielding() {
        return Blocked;
      }
      return Proceeds;
    }

    /** regenerateMessage: no message element means nothing to do. */
    method RegenerateMessage(hasElement: bool) returns (g: Gate)
      ensures g == Ignored <==> !hasElement
      ensures g == Blocked <==> hasElement && Yielding()
      ensures g == Proceeds <==> hasElement && !Yielding()
    {
      if !hasElement {
        return Ignored;
      }
      if Yielding() {
        return Blocked;
      }
      return Proceeds;
    }
  }
}
