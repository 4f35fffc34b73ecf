/** Message shapes exchanged between the background worker, the content
    script and the sidebar frame. A JavaScript state object is reduced to its
    `ghostState` string and its boolean flags; `undefined`, `null` and
    non-object values are kept apart because the receivers test for them. */
module Wire {
  const ACTIVE: string := "ACTIVE"
  const YIELDING: string := "YIELDING"

  datatype StateValue =
    | NoState
    | NotAnObject
    | StateObject(ghostState: string, flags: map<string, bool>)

  /** `state?.ghostState === 'YIELDING'`. */
  predicate IsYielding(s: StateValue) {
    s.StateObject? && s.ghostState == YIELDING
  }

  /** The messages the content script answers: `PING`, `CEREBR_TOGGLE_YIELD`,
      `CEREBR_SET_YIELD` (`enable` already reduced to a boolean) and
      `CEREBR_GET_YIELD_STATE`. An empty reason stands for a missing one. */
  datatype Message =
    | Ping
    | ToggleYield(reason: string)
    | SetYield(enable: bool, reason: string)
    | GetYieldState

  /** A reply to chrome.tabs.sendMessage: `{type: 'PONG'}`, an object with
      `success`, `state` and `error` (an empty error stands for a missing one),
      or `undefined`. */
  datatype Reply =
    | Pong
    | Answer(success: bool, state: StateValue, error: string)
    | NoReply
}
