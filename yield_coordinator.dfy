/** The background worker's side of the yield (debugger-compatibility) mode
    (background.js): probing and re-injecting the content script, the shadow
    set of tabs that should stay yielding, the bounded re-apply loop and the
    message handlers around them.

    The browser is a scripted host: `replies` are the successive outcomes of
    chrome.tabs.sendMessage and `injections` those of
    chrome.scripting.executeScript, each read from its cursor on; `log`
    records every call and every delay in order. A script that has run out answers as a tab without a
    listener does: the call throws. Delays are log entries, not time. */
module YieldCoordinator {
  import opened Wire
  import TimedTextCache

  datatype Outcome = Delivered(reply: Reply) | Threw(message: string)
  datatype Injection = InjectOk | InjectThrew(message: string)
  datatype Event = Sent(tab: nat, payload: Message) | Injected(tab: nat, files: seq<string>) | Waited(ms: nat)
  datatype Host = Host(replies: seq<Outcome>, nextReply: nat, injections: seq<Injection>, nextInjection: nat,
                       log: seq<Event>)

  const NoReceiver: string := "Could not establish connection. Receiving end does not exist."
  const ContentFiles: seq<string> := ["content.js", "src/utils/ghost-controller.js"]
  const PdfJsFiles: seq<string> := ["lib/pdf.js"]
  const ReinjectDelayMs: nat := 500
  const RetryDelayMs: nat := 150
  const DefaultMaxAttempts: nat := 5

  function ReplyAt(rs: seq<Outcome>, i: nat): Outcome {
    if i < |rs| then rs[i] else Threw(NoReceiver)
  }

  function InjectionAt(js: seq<Injection>, i: nat): Injection {
    if i < |js| then js[i] else InjectThrew(NoReceiver)
  }

  /** chrome.tabs.sendMessage: the next scripted outcome. */
  function Send(h: Host, tab: nat, p: Message): (Outcome, Host) {
    (ReplyAt(h.replies, h.nextReply), h.(nextReply := h.nextReply + 1, log := h.log + [Sent(tab, p)]))
  }

  /** chrome.scripting.executeScript: the next scripted outcome. */
  function Inject(h: Host, tab: nat, files: seq<string>): (Injection, Host) {
    (InjectionAt(h.injections, h.nextInjection),
     h.(nextInjection := h.nextInjection + 1, log := h.log + [Injected(tab, files)]))
  }

  function Wait(h: Host, ms: nat): Host {
    h.(log := h.log + [Waited(ms)])
  }

  /** `response && response.type === 'PONG'`; a thrown call is a failed probe. */
  predicate IsPong(o: Outcome) {
    o.Delivered? && o.reply.Pong?
  }

  /** isTabConnected. */
  function Probe(h: Host, tab: nat): (bool, Host) {
    var sent := Send(h, tab, Ping);
    (IsPong(sent.0), sent.1)
  }

  /** reinjectContentScript: inject, wait 500 ms, probe again; a failed injection is `false`. */
  function Reinject(h: Host, tab: nat): (bool, Host) {
    var injected := Inject(h, tab, ContentFiles);
    if injected.0.InjectThrew? then (false, injected.1) else Probe(Wait(injected.1, ReinjectDelayMs), tab)
  }

  /** The outcome of sendMessageToTabWithReconnect; `SendThrew` is the
      rejection of the final send, which the function does not catch. */
  datatype SendResult = SendOk(response: Reply) | SendErr(error: string) | SendThrew(message: string)

  /** sendMessageToTabWithReconnect, as a specification. Tab 0 stands for a missing (falsy) tab id. */
  function Reconnect(h: Host, tab: nat, p: Message): (SendResult, Host) {
    if tab == 0 then (SendErr("Missing tabId"), h)
    else
      var probe := Probe(h, tab);
      var reached := if probe.0 then probe else Reinject(probe.1, tab);
      if !reached.0 then (SendErr("Content script not connected"), reached.1)
      else
        var sent := Send(reached.1, tab, p);
        (if sent.0.Delivered? then SendOk(sent.0.reply) else SendThrew(sent.0.message), sent.1)
  }

  /** The tab answers the first probe, or the one re-injection succeeds and it answers the second. */
  predicate Connected(h: Host) {
    || IsPong(ReplyAt(h.replies, h.nextReply))
    || (InjectionAt(h.injections, h.nextInjection).InjectOk? && IsPong(ReplyAt(h.replies, h.nextReply + 1)))
  }

  /** The calls sendMessageToTabWithReconnect makes: one probe, at most one
      re-injection with its delay and second probe, and the payload sent once
      exactly when the tab is connected. */
  lemma ReconnectTrace(h: Host, tab: nat, p: Message)
    requires tab != 0
    ensures var (r, h2) := Reconnect(h, tab, p);
      var ping := Sent(tab, Ping);
      var inject := Injected(tab, ContentFiles);
      && (r.SendErr? <==> !Connected(h))
      && (r.SendErr? ==> r.error == "Content script not connected")
      && h2.log == h.log + (
           if IsPong(ReplyAt(h.replies, h.nextReply)) then [ping, Sent(tab, p)]
           else if InjectionAt(h.injections, h.nextInjection).InjectThrew? then [ping, inject]
           else if IsPong(ReplyAt(h.replies, h.nextReply + 1)) then [ping, inject, Waited(ReinjectDelayMs), ping, Sent(tab, p)]
           else [ping, inject, Waited(ReinjectDelayMs), ping])
  {
    var (c1, h1) := Probe(h, tab);
    if !c1 {
      var (inj, h1a) := Inject(h1, tab, ContentFiles);
      if inj.InjectOk? {
        var (c2, h2) := Probe(Wait(h1a, ReinjectDelayMs), tab);
      }
    }
  }

  /** syncYieldTabState, as a specification. */
  function Sync(shadow: set<nat>, tab: nat, s: StateValue): set<nat> {
    if tab == 0 || !s.StateObject? then shadow
    else if s.ghostState == YIELDING then shadow + {tab}
    else if s.ghostState == ACTIVE then shadow - {tab}
    else shadow
  }

  /** The shadow set follows the states the tab reports and nothing else. */
  lemma SyncMembership(shadow: set<nat>, tab: nat, s: StateValue, other: nat)
    ensures tab != 0 && IsYielding(s) ==> tab in Sync(shadow, tab, s)
    ensures tab != 0 && s.StateObject? && s.ghostState == ACTIVE ==> tab !in Sync(shadow, tab, s)
    ensures (tab == 0 || !s.StateObject? || (s.ghostState != YIELDING && s.ghostState != ACTIVE)) ==>
      Sync(shadow, tab, s) == shadow
    ensures other != tab ==> (other in Sync(shadow, tab, s) <==> other in shadow)
  {
  }

  /** `error?.message || String(error)` for a thrown Error. */
  function ErrorText(message: string): string {
    if message != "" then message else "Error"
  }

  /** `result.ok && result.response?.success`. */
  predicate Succeeded(r: SendResult) {
    r.SendOk? && r.response.Answer? && r.response.success
  }

  /** The error one failed attempt of ensureYieldStateApplied records. */
  function AttemptError(r: SendResult): string {
    match r
    case SendOk(rep) => if rep.Answer? && rep.error != "" then rep.error else "Failed to apply state"
    case SendErr(e) => if e != "" then e else "Failed to apply state"
    case SendThrew(m) => ErrorText(m)
  }

  datatype ApplyResult = Applied(state: StateValue) | ApplyFailed(error: string)

  /** ensureYieldStateApplied from attempt number `attempt` on, as a
      specification. The shadow set changes only through a confirmed state;
      the loop only appends to the host's call log, sends the request at most
      once per remaining attempt, and when every attempt fails it has waited
      150 ms after each of them. */
  function Apply(h: Host, shadow: set<nat>, tab: nat, enable: bool, reason: string,
                 attempt: nat, maxAttempts: nat, lastError: string): (out: (ApplyResult, Host, set<nat>))
    ensures out.0.Applied? ==> out.2 == Sync(shadow, tab, out.0.state)
    ensures out.0.ApplyFailed? ==> out.2 == shadow
    ensures h.log <= out.1.log
    ensures attempt <= maxAttempts + 1 ==>
      Count(out.1.log, Sent(tab, SetYield(enable, reason))) <= Count(h.log, Sent(tab, SetYield(enable, reason))) + maxAttempts + 1 - attempt
    ensures attempt <= maxAttempts + 1 && out.0.ApplyFailed? ==>
      Count(out.1.log, Waited(RetryDelayMs)) == Count(h.log, Waited(RetryDelayMs)) + maxAttempts + 1 - attempt
    ensures attempt <= maxAttempts + 1 ==>
      var (rs, last) := Attempts(h, tab, SetYield(enable, reason), maxAttempts + 1 - attempt);
      && out.1 == last
      && (out.0.Applied? <==> |rs| > 0 && Succeeded(rs[|rs| - 1]))
      && (out.0.Applied? ==> out.0.state == rs[|rs| - 1].response.state)
      && (out.0.ApplyFailed? ==>
            |rs| == maxAttempts + 1 - attempt && out.0.error == (if |rs| == 0 then lastError else AttemptError(rs[|rs| - 1])))
    decreases maxAttempts + 1 - attempt
  {
    if attempt > maxAttempts then (ApplyFailed(lastError), h, shadow)
    else
      var p := SetYield(enable, reason);
      var rh := Reconnect(h, tab, p);
      ReconnectCounts(h, tab, p);
      if Succeeded(rh.0) then (Applied(rh.0.response.state), rh.1, Sync(shadow, tab, rh.0.response.state))
      else
        WaitCounts(rh.1, Sent(tab, p));
        WaitCounts(rh.1, Waited(RetryDelayMs));
        Apply(Wait(rh.1, RetryDelayMs), shadow, tab, enable, reason, attempt + 1, maxAttempts, AttemptError(rh.0))
  }

  /** The results of the successive attempts of ensureYieldStateApplied
      from `h` on, at most `n` of them, ending at the first confirmed one,
      and the host after them; every failed attempt is followed by the
      150 ms retry delay. */
  function Attempts(h: Host, tab: nat, p: Message, n: nat): (out: (seq<SendResult>, Host))
    ensures |out.0| <= n
    ensures forall k :: 0 <= k < |out.0| - 1 ==> !Succeeded(out.0[k])
    ensures (exists k :: 0 <= k < |out.0| && Succeeded(out.0[k])) <==> |out.0| > 0 && Succeeded(out.0[|out.0| - 1])
    decreases n
  {
    if n == 0 then ([], h)
    else
      var rh := Reconnect(h, tab, p);
      if Succeeded(rh.0) then ([rh.0], rh.1)
      else
        var rest := Attempts(Wait(rh.1, RetryDelayMs), tab, p, n - 1);
        ([rh.0] + rest.0, rest.1)
  }

  /** Apply unfolded by one attempt. */
  lemma ApplyStep(h: Host, shadow: set<nat>, tab: nat, enable: bool, reason: string,
                  attempt: nat, maxAttempts: nat, lastError: string)
    requires attempt <= maxAttempts
    ensures var rh := Reconnect(h, tab, SetYield(enable, reason));
      Apply(h, shadow, tab, enable, reason, attempt, maxAttempts, lastError) ==
        if Succeeded(rh.0) then (Applied(rh.0.response.state), rh.1, Sync(shadow, tab, rh.0.response.state))
        else Apply(Wait(rh.1, RetryDelayMs), shadow, tab, enable, reason, attempt + 1, maxAttempts, AttemptError(rh.0))
  {
  }

  /** The tab never answers a probe and every scripted injection fails. */
  predicate Unreachable(h: Host) {
    && (forall i :: 0 <= i < |h.replies| ==> !IsPong(h.replies[i]))
    && (forall j :: 0 <= j < |h.injections| ==> h.injections[j].InjectThrew?)
  }

  /** The probe, the failed injection and the retry delay of one attempt at
      an unreachable tab. */
  function Missed(h: Host, tab: nat): Host {
    h.(nextReply := h.nextReply + 1, nextInjection := h.nextInjection + 1,
       log := h.log + [Sent(tab, Ping), Injected(tab, ContentFiles), Waited(RetryDelayMs)])
  }

  /** One attempt at an unreachable tab fails with 'Content script not
      connected' after one probe and one injection, and is retried. */
  lemma UnreachableStep(h: Host, tab: nat, p: Message, n: nat)
    requires tab != 0 && p != Ping && 0 < n && Unreachable(h)
    ensures Unreachable(Missed(h, tab))
    ensures Attempts(h, tab, p, n) ==
      ([SendErr("Content script not connected")] + Attempts(Missed(h, tab), tab, p, n - 1).0,
       Attempts(Missed(h, tab), tab, p, n - 1).1)
  {
    assert !IsPong(ReplyAt(h.replies, h.nextReply));
    assert InjectionAt(h.injections, h.nextInjection).InjectThrew?;
    assert Wait(Reconnect(h, tab, p).1, RetryDelayMs) == Missed(h, tab);
  }

  /** `es` repeated `n` times. */
  function Repeat(es: seq<Event>, n: nat): seq<Event> {
    if n == 0 then [] else es + Repeat(es, n - 1)
  }

  /** Every attempt at an unreachable tab ends in 'Content script not
      connected'. */
  lemma {:induction false} AttemptsUnreachable(h: Host, tab: nat, p: Message, n: nat)
    requires tab != 0 && p != Ping && Unreachable(h)
    ensures var rs := Attempts(h, tab, p, n).0;
      |rs| == n && forall k :: 0 <= k < n ==> rs[k] == SendErr("Content script not connected")
    decreases n
  {
    if n > 0 {
      UnreachableStep(h, tab, p, n);
      AttemptsUnreachable(Missed(h, tab), tab, p, n - 1);
    }
  }

  /** Each of those attempts is one probe, one injection and the 150 ms
      retry delay. */
  lemma {:induction false} AttemptsUnreachableLog(h: Host, tab: nat, p: Message, n: nat)
    requires tab != 0 && p != Ping && Unreachable(h)
    ensures Attempts(h, tab, p, n).1.log ==
      h.log + Repeat([Sent(tab, Ping), Injected(tab, ContentFiles), Waited(RetryDelayMs)], n)
    decreases n
  {
    if n > 0 {
      UnreachableStep(h, tab, p, n);
      AttemptsUnreachableLog(Missed(h, tab), tab, p, n - 1);
      RepeatCons(h.log, [Sent(tab, Ping), Injected(tab, ContentFiles), Waited(RetryDelayMs)], n - 1);
    }
  }

  /** ensureYieldStateApplied at a tab that cannot be reached gives up after
      every remaining attempt with 'Content script not connected', leaves the
      shadow set alone, and has probed, injected and waited once per attempt. */
  lemma ApplyUnreachable(h: Host, shadow: set<nat>, tab: nat, enable: bool, reason: string,
                         attempt: nat, maxAttempts: nat, lastError: string)
    requires tab != 0 && 1 <= attempt <= maxAttempts && Unreachable(h)
    ensures var out := Apply(h, shadow, tab, enable, reason, attempt, maxAttempts, lastError);
      && out.0 == ApplyFailed("Content script not connected") && out.2 == shadow
      && out.1.log == h.log + Repeat([Sent(tab, Ping), Injected(tab, ContentFiles), Waited(RetryDelayMs)],
                                     maxAttempts + 1 - attempt)
  {
    var n := maxAttempts + 1 - attempt;
    AttemptsUnreachable(h, tab, SetYield(enable, reason), n);
    AttemptsUnreachableLog(h, tab, SetYield(enable, reason), n);
    GaveUp(Apply(h, shadow, tab, enable, reason, attempt, maxAttempts, lastError),
           Attempts(h, tab, SetYield(enable, reason), n), shadow, n, lastError);
  }

  /** An outcome whose attempts all met an unreachable tab is that failure. */
  lemma GaveUp(out: (ApplyResult, Host, set<nat>), rl: (seq<SendResult>, Host), shadow: set<nat>,
               n: nat, lastError: string)
    requires 1 <= n && |rl.0| == n && forall k :: 0 <= k < n ==> rl.0[k] == SendErr("Content script not connected")
    requires out.1 == rl.1
    requires out.0.Applied? <==> Succeeded(rl.0[n - 1])
    requires out.0.ApplyFailed? ==> out.2 == shadow && out.0.error == AttemptError(rl.0[n - 1])
    ensures out.0 == ApplyFailed("Content script not connected") && out.2 == shadow && out.1 == rl.1
  {
  }

  lemma RepeatCons(log: seq<Event>, es: seq<Event>, n: nat)
    ensures log + es + Repeat(es, n) == log + Repeat(es, n + 1)
  {
  }

  function Count(es: seq<Event>, e: Event): nat {
    if es == [] then 0 else (if es[0] == e then 1 else 0) + Count(es[1..], e)
  }

  lemma {:induction false} CountAppend(a: seq<Event>, b: seq<Event>, e: Event)
    ensures Count(a + b, e) == Count(a, e) + Count(b, e)
  {
    if a == [] {
      assert a + b == b;
    } else {
      CountAppend(a[1..], b, e);
      assert (a + b)[0] == a[0] && (a + b)[1..] == a[1..] + b;
    }
  }

  lemma CountSingle(x: Event, e: Event)
    ensures Count([x], e) == if x == e then 1 else 0
  {
    assert [x][1..] == [];
  }

  /** One reconnecting send only appends to the call log, issues the payload
      at most once and never waits the retry delay. */
  lemma ReconnectCounts(h: Host, tab: nat, p: Message)
    requires p != Ping
    ensures var h2 := Reconnect(h, tab, p).1;
      && h.log <= h2.log
      && Count(h2.log, Sent(tab, p)) <= Count(h.log, Sent(tab, p)) + 1
      && Count(h2.log, Waited(RetryDelayMs)) == Count(h.log, Waited(RetryDelayMs))
  {
    if tab != 0 {
      ReconnectTrace(h, tab, p);
      var h2 := Reconnect(h, tab, p).1;
      var es := h2.log[|h.log|..];
      assert h2.log == h.log + es;
      CountAppend(h.log, es, Sent(tab, p));
      CountAppend(h.log, es, Waited(RetryDelayMs));
      TraceCounts(tab, p);
    }
  }

  /** The four call sequences of ReconnectTrace, counted. */
  lemma TraceCounts(tab: nat, p: Message)
    requires p != Ping
    ensures var ping, inject, wait := Sent(tab, Ping), Injected(tab, ContentFiles), Waited(ReinjectDelayMs);
      var send, retry := Sent(tab, p), Waited(RetryDelayMs);
      && Count([ping, send], send) == 1 && Count([ping, send], retry) == 0
      && Count([ping, inject], send) == 0 && Count([ping, inject], retry) == 0
      && Count([ping, inject, wait, ping, send], send) == 1 && Count([ping, inject, wait, ping, send], retry) == 0
      && Count([ping, inject, wait, ping], send) == 0 && Count([ping, inject, wait, ping], retry) == 0
  {
    var ping, inject, wait := Sent(tab, Ping), Injected(tab, ContentFiles), Waited(ReinjectDelayMs);
    var send := Sent(tab, p);
    var a := [ping] + [inject];
    var b := a + [wait];
    var c := b + [ping];
    assert [ping, send] == [ping] + [send] && [ping, inject] == a;
    assert c == [ping, inject, wait, ping] && c + [send] == [ping, inject, wait, ping, send];
    forall e | e == send || e == Waited(RetryDelayMs)
      ensures Count([ping] + [send], e) == Count([ping], e) + Count([send], e)
      ensures Count(c + [send], e) == Count([ping], e) + Count([inject], e) + Count([wait], e) + Count([ping], e) + Count([send], e)
      ensures Count(c, e) == Count([ping], e) + Count([inject], e) + Count([wait], e) + Count([ping], e)
      ensures Count(a, e) == Count([ping], e) + Count([inject], e)
    {
      CountAppend([ping], [send], e);
      CountAppend([ping], [inject], e);
      CountAppend(a, [wait], e);
      CountAppend(b, [ping], e);
      CountAppend(c, [send], e);
    }
    CountSingle(ping, send);
    CountSingle(ping, Waited(RetryDelayMs));
    CountSingle(inject, send);
    CountSingle(inject, Waited(RetryDelayMs));
    CountSingle(wait, send);
    CountSingle(wait, Waited(RetryDelayMs));
    CountSingle(send, send);
    CountSingle(send, Waited(RetryDelayMs));
  }

  /** The retry delay adds one wait and nothing else. */
  lemma WaitCounts(h: Host, e: Event)
    ensures h.log <= Wait(h, RetryDelayMs).log
    ensures Count(Wait(h, RetryDelayMs).log, e) == Count(h.log, e) + (if e == Waited(RetryDelayMs) then 1 else 0)
  {
    CountAppend(h.log, [Waited(RetryDelayMs)], e);
    CountSingle(Waited(RetryDelayMs), e);
  }

  datatype QueryResult = QueryOk(state: StateValue) | QueryErr(error: string)

  /** The state the background reports for a tab it cannot reach. */
  function ShadowState(shadow: set<nat>, tab: nat): StateValue {
    var g := if tab in shadow then YIELDING else ACTIVE;
    StateObject(g, map["ghostMode" := g == YIELDING])
  }

  /** getYieldStateForTab, as a specification. */
  function GetState(h: Host, shadow: set<nat>, tab: nat): (QueryResult, Host, set<nat>) {
    if tab == 0 then (QueryErr("Missing tabId"), h, shadow)
    else
      var (r, h1) := Reconnect(h, tab, GetYieldState);
      if r.SendThrew? then (QueryErr(ErrorText(r.message)), h1, shadow)
      else if Succeeded(r) then (QueryOk(r.response.state), h1, Sync(shadow, tab, r.response.state))
      else (QueryOk(ShadowState(shadow, tab)), h1, shadow)
  }

  /** When the live query fails without throwing, the answer is YIELDING
      exactly when the tab is in the shadow set; a thrown send is an error;
      a successful query is passed through and synced. */
  lemma GetStateFallback(h: Host, shadow: set<nat>, tab: nat)
    requires tab != 0
    ensures var r := Reconnect(h, tab, GetYieldState).0;
      var (q, _, shadow2) := GetState(h, shadow, tab);
      && (r.SendThrew? ==> q.QueryErr? && shadow2 == shadow)
      && (Succeeded(r) ==> q == QueryOk(r.response.state) && shadow2 == Sync(shadow, tab, r.response.state))
      && (!r.SendThrew? && !Succeeded(r) ==>
            q.QueryOk? && shadow2 == shadow && (IsYielding(q.state) <==> tab in shadow))
      && (!Connected(h) ==> q.QueryOk? && (IsYielding(q.state) <==> tab in shadow))
  {
    ReconnectTrace(h, tab, GetYieldState);
  }

  /** setYieldStateForTab, as a specification. */
  function SetState(h: Host, shadow: set<nat>, tab: nat, enable: bool, reason: string): (QueryResult, Host, set<nat>) {
    if tab == 0 then (QueryErr("Missing tabId"), h, shadow)
    else
      var (r, h1) := Reconnect(h, tab, SetYield(enable, reason));
      match r
      case SendErr(e) => (QueryErr(if e != "" then e else "Failed to send message"), h1, shadow)
      case SendThrew(m) => (QueryErr(ErrorText(m)), h1, shadow)
      case SendOk(rep) =>
        if rep.Answer? && rep.success then (QueryOk(rep.state), h1, Sync(shadow, tab, rep.state))
        else (QueryErr(if rep.Answer? && rep.error != "" then rep.error else "Unknown response"), h1, shadow)
  }

  /** A set request changes the shadow set only after the tab confirmed it,
      and fails with 'Content script not connected' when the tab cannot be reached. */
  lemma SetStateOutcome(h: Host, shadow: set<nat>, tab: nat, enable: bool, reason: string)
    requires tab != 0
    ensures var (q, _, shadow2) := SetState(h, shadow, tab, enable, reason);
      && (q.QueryErr? ==> shadow2 == shadow)
      && (q.QueryOk? ==> shadow2 == Sync(shadow, tab, q.state))
      && (!Connected(h) ==> q == QueryErr("Content script not connected"))
  {
    ReconnectTrace(h, tab, SetYield(enable, reason));
  }

  datatype DebugReply = DebugOk(tabId: nat, state: StateValue) | DebugErr(error: string)
  datatype PdfJsReply = PdfJsReady(alreadyInjected: bool) | PdfJsFailed(error: string)

  class Background {
    var host: Host
    var yieldEnabledTabs: set<nat>
    var pdfJsInjectedTabs: set<nat>
    const ytTimedText: TimedTextCache.UrlCache

    ghost predicate Valid()
      reads this, ytTimedText
    {
      ytTimedText.Valid()
    }

    constructor (h: Host)
      ensures Valid() && host == h && yieldEnabledTabs == {} && pdfJsInjectedTabs == {}
      ensures ytTimedText.entries == []
    {
      host := h;
      yieldEnabledTabs := {};
      pdfJsInjectedTabs := {};
      ytTimedText := new TimedTextCache.UrlCache();
    }

    method SendMessage(tab: nat, p: Message) returns (o: Outcome)
      modifies this`host
      ensures (o, host) == Send(old(host), tab, p)
    {
      o := ReplyAt(host.replies, host.nextReply);
      host := Send(host, tab, p).1;
    }

    method ExecuteScript(tab: nat, files: seq<string>) returns (inj: Injection)
      modifies this`host
      ensures (inj, host) == Inject(old(host), tab, files)
    {
      inj := InjectionAt(host.injections, host.nextInjection);
      host := Inject(host, tab, files).1;
    }

    method Sleep(ms: nat)
      modifies this`host
      ensures host == Wait(old(host), ms)
    {
      host := Wait(host, ms);
    }

    /** isTabConnected. */
    method IsTabConnected(tab: nat) returns (connected: bool)
      modifies this`host
      ensures (connected, host) == Probe(old(host), tab)
    {
      var response := SendMessage(tab, Ping);
      connected := response.Delivered? && response.reply.Pong?;
    }

    /** reinjectContentScript. */
    method ReinjectContentScript(tab: nat) returns (connected: bool)
      modifies this`host
      ensures (connected, host) == Reinject(old(host), tab)
    {
      var inj := ExecuteScript(tab, ContentFiles);
      if inj.InjectThrew? {
        return false;
      }
      Sleep(ReinjectDelayMs);
      connected := IsTabConnected(tab);
    }

    /** sendMessageToTabWithReconnect. */
    method SendWithReconnect(tab: nat, p: Message) returns (r: SendResult)
      modifies this`host
      ensures (r, host) == Reconnect(old(host), tab, p)
    {
      if tab == 0 {
        return SendErr("Missing tabId");
      }
      var connected := IsTabConnected(tab);
      if !connected {
        connected := ReinjectContentScript(tab);
      }
      if !connected {
        return SendErr("Content script not connected");
      }
      var response := SendMessage(tab, p);
      r := if response.Delivered? then SendOk(response.reply) else SendThrew(response.message);
    }

    /** syncYieldTabState. */
    method SyncYieldTabState(tab: nat, s: StateValue)
      modifies this`yieldEnabledTabs
      ensures yieldEnabledTabs == Sync(old(yieldEnabledTabs), tab, s)
    {
      if tab == 0 || !s.StateObject? {
        return;
      }
      if s.ghostState == YIELDING {
        yieldEnabledTabs := yieldEnabledTabs + {tab};
        return;
      }
      if s.ghostState == ACTIVE {
        yieldEnabledTabs := yieldEnabledTabs - {tab};
      }
    }

    /** ensureYieldStateApplied. */
    method EnsureYieldStateApplied(tab: nat, enable: bool, reason: string, maxAttempts: nat) returns (r: ApplyResult)
      modifies this`host, this`yieldEnabledTabs
      ensures (r, host, yieldEnabledTabs) ==
        Apply(old(host), old(yieldEnabledTabs), tab, enable, reason, 1, maxAttempts, "Unknown error")
    {
      var lastError := "Unknown error";
      var attempt := 1;
      while attempt <= maxAttempts
        invariant 1 <= attempt <= maxAttempts + 1
        invariant Apply(host, yieldEnabledTabs, tab, enable, reason, attempt, maxAttempts, lastError) ==
          Apply(old(host), old(yieldEnabledTabs), tab, enable, reason, 1, maxAttempts, "Unknown error")
        decreases maxAttempts + 1 - attempt
      {
        ApplyStep(host, yieldEnabledTabs, tab, enable, reason, attempt, maxAttempts, lastError);
        var result := SendWithReconnect(tab, SetYield(enable, reason));
        if result.SendOk? && result.response.Answer? && result.response.success {
          SyncYieldTabState(tab, result.response.state);
          return Applied(result.response.state);
        }
        lastError := AttemptError(result);
        Sleep(RetryDelayMs);
        attempt := attempt + 1;
      }
      r := ApplyFailed(lastError);
    }

    /** getYieldStateForTab. */
    method GetYieldStateForTab(tab: nat) returns (r: QueryResult)
      modifies this`host, this`yieldEnabledTabs
      ensures (r, host, yieldEnabledTabs) == GetState(old(host), old(yieldEnabledTabs), tab)
    {
      if tab == 0 {
        return QueryErr("Missing tabId");
      }
      var result := SendWithReconnect(tab, GetYieldState);
      if result.SendThrew? {
        return QueryErr(ErrorText(result.message));
      }
      if result.SendOk? && result.response.Answer? && result.response.success {
        SyncYieldTabState(tab, result.response.state);
        return QueryOk(result.response.state);
      }
      var ghostState := if tab in yieldEnabledTabs then YIELDING else ACTIVE;
      r := QueryOk(StateObject(ghostState, map["ghostMode" := ghostState == YIELDING]));
    }

    /** setYieldStateForTab. */
    method SetYieldStateForTab(tab: nat, enable: bool, reason: string) returns (r: QueryResult)
      modifies this`host, this`yieldEnabledTabs
      ensures (r, host, yieldEnabledTabs) == SetState(old(host), old(yieldEnabledTabs), tab, enable, reason)
    {
      if tab == 0 {
        return QueryErr("Missing tabId");
      }
      var result := SendWithReconnect(tab, SetYield(enable, reason));
      if result.SendErr? {
        return QueryErr(if result.error != "" then result.error else "Failed to send message");
      }
      if result.SendThrew? {
        return QueryErr(ErrorText(result.message));
      }
      if result.response.Answer? && result.response.success {
        SyncYieldTabState(tab, result.response.state);
        return QueryOk(result.response.state);
      }
      r := QueryErr(if result.response.Answer? && result.response.error != "" then result.response.error else "Unknown response");
    }

    /** The YIELD_STATE_CHANGED handler: mirror the sender tab's new state. */
    method OnYieldStateChanged(senderTab: nat, s: StateValue)
      modifies this`yieldEnabledTabs
      ensures yieldEnabledTabs == Sync(old(yieldEnabledTabs), senderTab, s)
    {
      SyncYieldTabState(senderTab, s);
    }

    /** The GET_DEBUG_YIELD_STATE handler; `activeTab` is the active tab of
        the current window (0 when there is none). */
    method OnGetDebugYieldState(senderTab: nat, activeTab: nat) returns (r: DebugReply)
      modifies this`host, this`yieldEnabledTabs
      ensures var tab := if senderTab != 0 then senderTab else activeTab;
        var (q, h, shadow) := GetState(old(host), old(yieldEnabledTabs), tab);
        && (tab == 0 ==> r == DebugErr("No active tab") && host == old(host) && yieldEnabledTabs == old(yieldEnabledTabs))
        && (tab != 0 ==>
              && host == h && yieldEnabledTabs == shadow
              && r == if q.QueryOk? then DebugOk(tab, q.state)
                      else DebugErr(if q.error != "" then q.error else "Failed to get state"))
    {
      var tab := if senderTab != 0 then senderTab else activeTab;
      if tab == 0 {
        return DebugErr("No active tab");
      }
      var result := GetYieldStateForTab(tab);
      if result.QueryErr? {
        return DebugErr(if result.error != "" then result.error else "Failed to get state");
      }
      r := DebugOk(tab, result.state);
    }

    /** The SET_DEBUG_YIELD_STATE handler; an empty reason defaults to 'PREFERENCES'. */
    method OnSetDebugYieldState(senderTab: nat, activeTab: nat, enable: bool, reason: string) returns (r: DebugReply)
      modifies this`host, this`yieldEnabledTabs
      ensures var tab := if senderTab != 0 then senderTab else activeTab;
        var why := if reason != "" then reason else "PREFERENCES";
        var (q, h, shadow) := SetState(old(host), old(yieldEnabledTabs), tab, enable, why);
        && (tab == 0 ==> r == DebugErr("No active tab") && host == old(host) && yieldEnabledTabs == old(yieldEnabledTabs))
        && (tab != 0 ==>
              && host == h && yieldEnabledTabs == shadow
              && r == if q.QueryOk? then DebugOk(tab, q.state)
                      else DebugErr(if q.error != "" then q.error else "Failed to set state"))
    {
      var tab := if senderTab != 0 then senderTab else activeTab;
      if tab == 0 {
        return DebugErr("No active tab");
      }
      var result := SetYieldStateForTab(tab, enable, if reason != "" then reason else "PREFERENCES");
      if result.QueryErr? {
        return DebugErr(if result.error != "" then result.error else "Failed to set state");
      }
      r := DebugOk(tab, result.state);
    }

    /** The CONTENT_LOADED handler: a tab in the shadow set gets yielding
        re-applied (5 attempts) after navigation; any other tab is left alone. */
    method OnContentLoaded(senderTab: nat) returns (reapplied: bool, r: ApplyResult)
      modifies this`host, this`yieldEnabledTabs
      ensures reapplied <==> senderTab != 0 && senderTab in old(yieldEnabledTabs)
      ensures reapplied ==>
        (r, host, yieldEnabledTabs) == Apply(old(host), old(yieldEnabledTabs), senderTab, true, "REAPPLY_AFTER_NAVIGATION", 1, DefaultMaxAttempts, "Unknown error")
      ensures !reapplied ==> host == old(host) && yieldEnabledTabs == old(yieldEnabledTabs)
    {
      reapplied := senderTab != 0 && senderTab in yieldEnabledTabs;
      r := ApplyFailed("");
      if reapplied {
        r := EnsureYieldStateApplied(senderTab, true, "REAPPLY_AFTER_NAVIGATION", DefaultMaxAttempts);
      }
    }

    /** ensurePdfJsInjected. */
    method EnsurePdfJsInjected(tab: nat) returns (r: PdfJsReply)
      modifies this`host, this`pdfJsInjectedTabs
      ensures tab == 0 ==> r == PdfJsFailed("Missing tabId") && host == old(host) && pdfJsInjectedTabs == old(pdfJsInjectedTabs)
      ensures tab != 0 && tab in old(pdfJsInjectedTabs) ==>
        r == PdfJsReady(true) && host == old(host) && pdfJsInjectedTabs == old(pdfJsInjectedTabs)
      ensures tab != 0 && tab !in old(pdfJsInjectedTabs) ==>
        var (inj, h) := Inject(old(host), tab, PdfJsFiles);
        && host == h
        && (inj.InjectOk? ==> r == PdfJsReady(false) && pdfJsInjectedTabs == old(pdfJsInjectedTabs) + {tab})
        && (inj.InjectThrew? ==> r == PdfJsFailed(ErrorText(inj.message)) && pdfJsInjectedTabs == old(pdfJsInjectedTabs))
    {
      if tab == 0 {
        return PdfJsFailed("Missing tabId");
      }
      if tab in pdfJsInjectedTabs {
        return PdfJsReady(true);
      }
      var inj := ExecuteScript(tab, PdfJsFiles);
      if inj.InjectThrew? {
        return PdfJsFailed(ErrorText(inj.message));
      }
      pdfJsInjectedTabs := pdfJsInjectedTabs + {tab};
      r := PdfJsReady(false);
    }

    /** chrome.tabs.onRemoved: forget the tab everywhere. */
    method OnTabRemoved(tab: nat)
      requires Valid()
      modifies this`pdfJsInjectedTabs, this`yieldEnabledTabs, ytTimedText
      ensures Valid()
      ensures pdfJsInjectedTabs == old(pdfJsInjectedTabs) - {tab}
      ensures yieldEnabledTabs == old(yieldEnabledTabs) - {tab}
      ensures ytTimedText.entries == OrderedMapWithoutTab(old(ytTimedText.entries), tab)
    {
      pdfJsInjectedTabs := pdfJsInjectedTabs - {tab};
      yieldEnabledTabs := yieldEnabledTabs - {tab};
      ytTimedText.InvalidateTab(tab);
    }

    /** chrome.tabs.onUpdated: a tab that starts loading needs PDF.js again
        and loses its cached timedtext URLs; its shadow entry stays so that
        CONTENT_LOADED can re-apply yielding. */
    method OnTabUpdated(tab: nat, status: string)
      requires Valid()
      modifies this`pdfJsInjectedTabs, ytTimedText
      ensures Valid()
      ensures status != "loading" ==> pdfJsInjectedTabs == old(pdfJsInjectedTabs) && ytTimedText.entries == old(ytTimedText.entries)
      ensures status == "loading" ==>
        && pdfJsInjectedTabs == old(pdfJsInjectedTabs) - {tab}
        && ytTimedText.entries == OrderedMapWithoutTab(old(ytTimedText.entries), tab)
    {
      if status == "loading" {
        pdfJsInjectedTabs := pdfJsInjectedTabs - {tab};
        ytTimedText.InvalidateTab(tab);
      }
    }
  }

  function OrderedMapWithoutTab(s: seq<(string, TimedTextCache.Cached)>, tab: nat): seq<(string, TimedTextCache.Cached)> {
    TimedTextCache.OrderedMap.Without(s, TimedTextCache.TabKeys(s, tab))
  }
}
