# Cerebr yield guard and caches, modelled in Dafny

Cerebr is a browser extension that shows an AI chat sidebar in an iframe
on every page. This project models the parts of it that keep state and make
decisions:

- **Yield mode** (also called debugger-compatibility mode). When it is on,
  the content script takes the sidebar's iframe out of the page and leaves a
  comment anchor where it was, so that it can put the iframe back in the
  same place later. The background worker keeps a shadow set of the tabs
  that should stay yielding. It re-applies the mode after a navigation,
  re-injecting the content script when a tab does not answer a probe. The
  sidebar frame mirrors the state in a preferences switch and a notice, and
  blocks sending while yielding. A small controller script in the page polls
  for the content script's bridge and exposes a controller object over it.
- **The background worker's caches**:
  - the chunked PDF artifact cache, with at most 5 entries and 256 MiB in
    all, in least-recently-used order, served in 4 MiB chunks;
  - the timedtext URL cache, with a 10-minute time-to-live and 200 entries
    at most.
- **The content script's helpers**:
  - the PDF text cache, a three-entry LRU;
  - the checks that reassemble a chunked PDF transfer;
  - the caption parser;
  - site keys, IPv4 recognition, width clamping and position keys;
  - the per-site overrides prune;
  - the CONTENT_LOADED retry chain.
- **The sidebar frame's policies**:
  - menu navigation with wrap-around;
  - the selected-configuration index clamp;
  - the 6000-byte split of system prompts between local and sync storage;
  - the precedence between the local, sync and legacy copies of a prompt.

## How the model is built

Objects whose fields the code updates are classes:

- the PDF cache, the timedtext cache, the text cache and the overrides
  map, each over a sequence of key/value pairs in insertion order (a
  JavaScript `Map`);
- the background worker, the sidebar, the bridge, the content script,
  the frame's mirror, the controller and the page window.

Each method is proved against a specification function: `Evict`,
`Pruned`, `Touched`, `Reconnect`, `Apply`, `GetState`, `SetState`,
`Applied`, `Refreshed`, `Switched`, `Poll`, `KeptLines`, `LocalPayload`.
Lemmas then state what the code promises about those functions.

Code with no state of its own is written as functions (site keys,
canonical keys, the prompt precedence, the menu target). Code with loops
becomes methods with loop invariants (the chunk loop, the prune loops, the
caption parser, the prompt save loop, the bootstrap poll).

The browser's runtime is a scripted host. Its `replies` and `injections`
are the outcomes of `chrome.tabs.sendMessage` and
`chrome.scripting.executeScript`, in order. A reply past the end of the
script behaves as a tab without a listener: the call throws. Every call
and every delay goes into a log. The page's DOM is a fixed list of parents
with their children, reduced to the iframe and the anchor.

## Model

| member | source | states |
|---|---|---|
| PdfArtifactCache.TotalChunks | background.js:802-838 | the chunk count is the least n with n * 4 MiB >= size |
| PdfArtifactCache.ChunkAt | background.js:841-869 | a chunk exists exactly for 0 <= index < totalChunks; it has min(4 MiB, size - start) bytes, copied from the start offset |
| PdfArtifactCache.Chunks | background.js:841-869 | every chunk a reader can request, in order, each equal to what getPDFChunk serves |
| PdfArtifactCache.ChunksReassemble | background.js:841-869 | concatenating chunks 0 .. totalChunks-1 gives back exactly the cached bytes |
| PdfArtifactCache.ConcatChunksPrefix | background.js:841-869 | the first k chunks are the first min(k * 4 MiB, size) bytes |
| PdfArtifactCache.TotalBytesDelete | background.js:747-753 | deleting an entry lowers the total size by that entry's size |
| PdfArtifactCache.EvictKeepsNewest | background.js:755-761 | eviction never empties a non-empty cache, so the entry just added survives |
| PdfArtifactCache.EvictWithinBudget | background.js:755-761 | with non-empty ids, eviction ends with at most 5 entries and at most 256 MiB, unless a single entry is left |
| PdfArtifactCache.EvictMinimal | background.js:755-761 | eviction drops nothing it need not: the last entry dropped was the front of a cache still over budget, under a non-empty id, and what is left is within budget or starts with an empty id |
| PdfArtifactCache.InsertBounds | background.js:802-838 | after a download with a fresh id the new entry is last and the cache is within its budget |
| PdfArtifactCache.Touched | background.js:738-745 | the touched id becomes the most recent entry, with its entry and lastAccessed = now; the key set and distinct keys are kept; an absent id changes nothing |
| PdfArtifactCache.TouchKeepsOthers | background.js:738-745 | touching leaves every other entry as it was, in the same relative order |
| PdfArtifactCache.TouchKeepsBytes | background.js:738-745 | touching does not change the total size |
| PdfArtifactCache.PdfCache.Touch | background.js:738-745 | a hit gets lastAccessed = now and moves to the back; a miss returns nothing |
| PdfArtifactCache.PdfCache.TotalBytesNow | background.js:747-753 | the loop sums the totalSize of every entry |
| PdfArtifactCache.PdfCache.EvictIfNeeded | background.js:755-761 | the cache becomes Evict of the old cache: oldest entries go while over the count or byte budget |
| PdfArtifactCache.PdfCache.Insert | background.js:802-838 | the new entry is set, then the cache is evicted; the init reply carries the id, chunk count, size and chunk size |
| PdfArtifactCache.PdfCache.GetChunk | background.js:841-869 | recency is refreshed first; an unknown id is 'PDF cache entry not found', a bad index 'Invalid chunk range', otherwise ChunkAt |
| PdfArtifactCache.PdfCache.Release | background.js:871-875 | an empty id is 'Missing requestId' and changes nothing; otherwise that entry is deleted |
| TimedTextCache.PrefixMatchesTab | background.js:81-90 | a key begins with `${t}:` exactly when it was made for tab t, whatever the video id |
| TimedTextCache.DropExpiredExact | background.js:40-46 | the TTL loop keeps exactly the entries that have not expired, in order |
| TimedTextCache.PruneBounds | background.js:40-55 | after a prune there are at most 200 entries, each live and taken from the old map |
| TimedTextCache.PruneKeepsLive | background.js:47-54 | a live entry is dropped only when 200 entries at least as new as it are kept |
| TimedTextCache.PruneIdempotent | background.js:40-55 | a second prune at the same instant changes nothing |
| TimedTextCache.RecordThenLookup | background.js:57-79 | right after a write, a lookup of the same key finds the URL just written |
| TimedTextCache.InvalidateExact | background.js:81-102 | invalidating a tab removes that tab's keys and no others |
| TimedTextCache.UrlCache.Prune | background.js:40-55 | the map becomes Pruned of the old map |
| TimedTextCache.UrlCache.DropExpired | background.js:42-46 | drops exactly the entries with no createdAt or older than 10 minutes |
| TimedTextCache.UrlCache.EnforceCap | background.js:47-54 | over 200 entries, deletes every key past the 200 newest; otherwise nothing |
| TimedTextCache.UrlCache.Record | background.js:57-79 | starting from the video id taken from an accepted URL: a negative tab or an empty video id is ignored; otherwise the URL is set under `${tab}:${video}` and the map pruned |
| TimedTextCache.UrlCache.Lookup | background.js:444-472 | a falsy tab or video id fails without a URL; otherwise the map is pruned and the key looked up; the reply carries the URL only, without `lang` and `caps` |
| TimedTextCache.UrlCache.InvalidateTab | background.js:81-102 | deletes every key with the `${tabId}:` prefix |
| NewestFirst.SortNewestFirst | background.js:50-52 | the sort is a permutation of the entries |
| NewestFirst.SortIsNewestFirst | background.js:50-52 | the sorted entries are newest first |
| NewestFirst.DroppedCount | background.js:47-54 | over the cap, exactly size - cap keys are picked for deletion |
| NewestFirst.PruneKeepsCount | background.js:47-54 | the prune leaves exactly min(size, cap) entries, and the map unchanged when within the cap |
| NewestFirst.PruneKeepsNewest | content.js:101-116 | no surviving entry is older than a deleted one |
| YieldCoordinator.ReconnectTrace | background.js:154-172 | one probe, at most one re-injection with its 500 ms wait and a second probe; the payload is sent once exactly when the tab is connected, else 'Content script not connected' |
| YieldCoordinator.SyncMembership | background.js:184-193 | a YIELDING report adds the tab, an ACTIVE one removes it, anything else and every other tab are left alone |
| YieldCoordinator.Apply | background.js:195-216 | the outcome is read off the attempts: Applied exactly when the last attempt made was confirmed, with the state it carried; otherwise every remaining attempt failed and the error is the last one's; the host is the one after the attempts; the shadow set changes only through a confirmed state; each attempt sends at most once; an all-failed run waits 150 ms after each attempt |
| YieldCoordinator.Attempts | background.js:195-216 | at most one result per remaining attempt, every one before the last failed, and some attempt was confirmed exactly when the last one was |
| YieldCoordinator.AttemptsUnreachable | background.js:154-172 | at a tab that never answers a probe and whose re-injections all fail, every attempt ends in 'Content script not connected' |
| YieldCoordinator.AttemptsUnreachableLog | background.js:154-216 | each of those attempts is one probe, one injection and the 150 ms retry delay, in that order |
| YieldCoordinator.ApplyUnreachable | background.js:195-216 | ensureYieldStateApplied at such a tab gives up with 'Content script not connected' after every remaining attempt, leaves the shadow set alone, and has probed, injected and waited once per attempt |
| YieldCoordinator.ReconnectCounts | background.js:154-172 | a reconnecting send only appends to the log, sends the payload at most once and never waits the retry delay |
| YieldCoordinator.GetStateFallback | background.js:218-241 | a failed live query answers YIELDING exactly when the tab is in the shadow set; a thrown send is an error; a success is synced |
| YieldCoordinator.SetStateOutcome | background.js:243-264 | the shadow set changes only after the tab confirmed; an unreachable tab fails with 'Content script not connected' |
| YieldCoordinator.Background.IsTabConnected | background.js:717-729 | the probe is connected exactly when the tab answers PONG |
| YieldCoordinator.Background.ReinjectContentScript | background.js:133-152 | injects both content files, waits 500 ms and probes again; a failed injection is false |
| YieldCoordinator.Background.SendWithReconnect | background.js:154-172 | the result and the new host are those of Reconnect |
| YieldCoordinator.Background.SyncYieldTabState | background.js:184-193 | the shadow set becomes Sync of the old set |
| YieldCoordinator.Background.EnsureYieldStateApplied | background.js:195-216 | the loop's result, host and shadow set are those of Apply from attempt 1 |
| YieldCoordinator.Background.GetYieldStateForTab | background.js:218-241 | result, host and shadow set are those of GetState |
| YieldCoordinator.Background.SetYieldStateForTab | background.js:243-264 | result, host and shadow set are those of SetState |
| YieldCoordinator.Background.OnYieldStateChanged | background.js:341-346 | the sender tab's reported state is synced into the shadow set |
| YieldCoordinator.Background.OnGetDebugYieldState | background.js:348-367 | the sender's tab or else the active tab is asked; with neither, 'No active tab' and nothing changes |
| YieldCoordinator.Background.OnSetDebugYieldState | background.js:369-388 | as above for a set; an empty reason becomes 'PREFERENCES' |
| YieldCoordinator.Background.OnContentLoaded | background.js:538-566 | yielding is re-applied exactly when the sender tab is in the shadow set, with reason 'REAPPLY_AFTER_NAVIGATION' |
| YieldCoordinator.Background.EnsurePdfJsInjected | background.js:104-118 | a missing tab is 'Missing tabId'; a tab already injected is answered at once; otherwise one injection, and the tab is recorded only on success |
| YieldCoordinator.Background.OnTabRemoved | background.js:81-90 | the tab leaves both sets and loses every timedtext key of its own |
| YieldCoordinator.Background.OnTabUpdated | background.js:92-102 | a tab that starts loading loses its PDF.js flag and its timedtext keys; any other status changes nothing |
| SidebarYield.ToWire | content.js:325-336 | the state sent on the wire is YIELDING exactly when the sidebar yields |
| SidebarYield.DetachRemovesFrame | content.js:253-271 | a detach happens exactly when the iframe is in the page; afterwards the iframe occurs nowhere and the anchor at most once |
| SidebarYield.RestoreShape | content.js:273-292 | after a restore the anchor is gone, the iframe occurs at most once, and it is in the page when restored |
| SidebarYield.RestoreBeforeAnchor | content.js:277-279 | the iframe goes back in front of the anchor, which is then removed |
| SidebarYield.RestoreAppended | content.js:280-282 | with no anchor, the iframe is appended to the remembered connected parent |
| SidebarYield.DetachRestoreRoundTrip | content.js:253-292 | detaching a connected iframe and restoring it gives back exactly the original page |
| SidebarYield.Sidebar.constructor | content.js:118-157 | the sidebar starts ACTIVE with no anchor in the page and nothing sent |
| SidebarYield.SnapshotOf | content.js:325-336 | the snapshot of a sidebar state: YIELDING exactly when it yields, ready exactly with an iframe, the iframe present exactly when it is in the page |
| SidebarYield.Target | content.js:338-344 | the state setGhostMode aims for: the boolean when given, otherwise the other state |
| SidebarYield.Suspended | content.js:294-311 | suspendForYield as a specification: the result yields; a yielding state is left alone; at most one notice is appended |
| SidebarYield.Resumed | content.js:313-323 | resumeFromYield as a specification: the result is active; an active state is left alone; at most two notices are appended |
| SidebarYield.ResumedShape | content.js:313-323 | leaving the yield restores the page as Restore says and hides the placeholder; the notices carry the reason, and the frame is told only when the iframe is back in the page |
| SidebarYield.SetCurrentIsNoop | content.js:294-344 | setting the mode the sidebar is already in changes nothing and sends nothing |
| SidebarYield.SuspendResumeIdempotent | content.js:294-323 | suspending twice is suspending once, and resuming twice is resuming once |
| SidebarYield.ToggleFlips | content.js:346-348 | a toggle flips the state and its first new notice announces the new snapshot with the reason |
| SidebarYield.ToggleTwiceRestoresPage | content.js:253-348 | toggling an active sidebar whose iframe is in the page twice puts the page back exactly as it was, with the iframe present, after one notice for the yield and a notice and a frame post for the resume |
| SidebarYield.Sidebar.Snapshot | content.js:325-336 | getGhostState reports the state, ready, ghostMode, visibility, and the iframe present exactly when it is in the page |
| SidebarYield.Sidebar.NotifyYieldStateChanged | content.js:168-180 | one YIELD_STATE_CHANGED message with the current snapshot and the reason |
| SidebarYield.Sidebar.PostGhostStateToIframe | content.js:182-195 | a message to the frame only when the iframe is in the page |
| SidebarYield.Sidebar.DetachIframeForYield | content.js:253-271 | the page becomes the one Detach gives; the iframe is out of the page afterwards |
| SidebarYield.Sidebar.RestoreIframeFromYield | content.js:273-292 | the page and the result are those of Restore; the anchor is gone and the remembered parent cleared |
| SidebarYield.Sidebar.SuspendForYield | content.js:294-311 | the new state is Suspended of the old one: idempotent while yielding; otherwise YIELDING with the placeholder shown, the iframe out as Detach says, and one notice |
| SidebarYield.Sidebar.ResumeFromYield | content.js:313-323 | the new state is Resumed of the old one: idempotent while active; otherwise ACTIVE with the iframe restored, a notice, and a frame post when the iframe is back |
| SidebarYield.Sidebar.LeaveYield | content.js:314-323 | the part past the early return: the new state is Resumed of the old one, active with no anchor left |
| SidebarYield.Sidebar.SetGhostMode | content.js:338-344 | the new state is the one suspendForYield gives when the target is YIELDING and resumeFromYield otherwise; a boolean picks the target, any other value toggles |
| SidebarYield.Sidebar.ToggleGhostMode | content.js:346-348 | the new state is setGhostMode's for the other state, so the state always flips |
| SidebarYield.Sidebar.AttachContainer | content.js:936-956 | re-attaching the container while yielding connects it, then takes the iframe out again as Detach says and remembers its parent; the placeholder is shown |
| ContentBridge.Bridge.SetGhostMode | content.js:1210-1224 | without a sidebar the unavailable state; otherwise the sidebar's whole new state is setGhostMode's, with reason default 'unknown' |
| ContentBridge.Bridge.ToggleGhostMode | content.js:1217-1220 | without a sidebar the unavailable state; otherwise the sidebar's whole new state is a toggle's, with reason default 'manual' |
| ContentBridge.Bridge.GetState | content.js:1221-1224 | without a sidebar the unavailable state; otherwise the sidebar's snapshot |
| ContentBridge.ContentScript.Handle | content.js:1255-1308 | PING is PONG; without a sidebar 'Sidebar instance not found'; a set leaves the sidebar in setGhostMode's new state and a toggle in the toggled one, with reasons 'EXTERNAL' and 'COMMAND' by default; the `catch` answer to a throwing sidebar call is not produced |
| ContentBridge.ApplyAgainstListener | background.js:195-216 | a tab that answers the probe and confirms the set ends ensureYieldStateApplied at its first attempt, with the shadow set synced |
| Transcript.LineOf | content.js:1493-1495 | a line is its segments' text, trimmed |
| Transcript.KeptLines | content.js:1484-1505 | the kept lines are non-empty and trimmed, no two adjacent lines are equal, and there are no more of them than events |
| Transcript.KeptStep | content.js:1492-1500 | one more event keeps its line exactly when the line is non-empty and differs from the last kept one |
| Transcript.ParseTimedText | content.js:1484-1505 | the parser's output is the kept lines joined with newlines, or '' when `events` is not an array |
| SiteKeys.ClampSidebarWidth | content.js:11-14 | a non-finite width gives the fallback; any other width is clamped to [300, 800] |
| SiteKeys.DottedIsIPv4 | content.js:16-25 | every dotted quad of numbers up to 255 passes isIPv4 |
| SiteKeys.IPv4IsDotted | content.js:16-25 | only such quads pass: each accepted part is the canonical rendering of a number up to 255 |
| SiteKeys.PlusLabels | content.js:76 | at least one label; a positive plus is used as is, 0 becomes 2 and a negative one 1 |
| SiteKeys.SiteKey | content.js:61-81 | null exactly for an empty normalized host; localhost, IP addresses and hosts of at most two labels are kept whole |
| SiteKeys.SiteKeyLabels | content.js:69-80 | any other host keeps its suffix plus `plus` labels, or all of them when it has no more |
| SiteKeys.NoThreeLabelSuffix | content.js:32-59 | every listed suffix has two labels, so the public suffix is never three labels long |
| SiteKeys.CanonicalizePositionKey | content.js:93-99 | null exactly for a blank key; otherwise the trimmed, lower-cased key, with 'twitter.com' mapped to 'x.com' |
| SiteKeys.SamePosition | content.js:93-99 | two keys share a position exactly when they agree once trimmed and lower-cased, or are twitter.com and x.com in some spelling |
| SiteKeys.CanonicalizeIdempotent | content.js:93-99 | a canonical key is its own canonical form |
| SiteKeys.CanonicalXCom | content.js:93-99 | 'x.com' is its own canonical key |
| SiteKeys.TwitterSharesXCom | content.js:96-97 | 'twitter.com' gets the key 'x.com', the one 'x.com' has |
| SiteKeys.SiteOverrides.Prune | content.js:101-116 | over 100 entries, deletes every key past the 100 newest by updatedAt; otherwise nothing |
| SiteKeys.PruneOverridesKeepsNewest | content.js:101-116 | after the prune exactly 100 entries remain, none older than a deleted one |
| PdfTextCache.MoveToBack | content.js:1739-1745 | a hit keeps the key set and the distinct keys, and becomes the newest entry with its value unchanged |
| PdfTextCache.TrimFrontKeepsNewest | content.js:1753-1757 | with no empty key, the trim keeps exactly the newest min(size, 3) entries |
| PdfTextCache.TextCache.Lookup | content.js:1739-1745 | a miss returns null and changes nothing; a hit returns the text and moves it to the back |
| PdfTextCache.TextCache.Store | content.js:1747-1757 | an empty URL or text, or more than 1000000 characters, is ignored; otherwise it becomes the newest entry and the oldest go beyond 3 |
| PdfTextCache.StoreThenLookup | content.js:1739-1757 | a text just stored is the value the next lookup of its URL finds |
| PdfTransfer.EffectiveChunkSize | content.js:1831 | the announced chunk size when it is a positive number, otherwise 4 MiB |
| PdfTransfer.CopyInto | content.js:1856 | the bytes are written at `start` and the rest of the buffer is left alone |
| PdfTransfer.ReceiveChunks | content.js:1831-1858 | the loop stops at the first chunk that failed or has the wrong length; otherwise every chunk is accepted and the buffer holds their concatenation |
| PdfTransfer.Reassemble | content.js:1811-1872 | assembled exactly when every condition holds, with the chunks' bytes; failed init and missing request id are told apart; a chunk failure names the first bad chunk |
| PdfTransfer.ServedIsAccepted | content.js:1811-1872 | the chunks the background serves for a cached PDF meet every condition and reassemble to exactly the cached bytes |
| InitMessage.SendInit | content.js:1391-1411 | a failed send is retried until attempt 10; delivered at the first attempt that succeeds |
| InitMessage.AtMostElevenSends | content.js:1391-1411 | at most eleven sends, and delivered exactly when one of them succeeds |
| UiMirror.Normalize | src/main.js:435-439 | exactly 'YIELDING' stays; anything else becomes 'ACTIVE'; the other fields are copied |
| UiMirror.AppliedShowsState | src/main.js:435-456 | the mirror, the switch and the notice all show the state applied |
| UiMirror.AbortOnlyWhenEntering | src/main.js:445-455 | the stream is aborted and its controllers cleared exactly on a non-YIELDING to YIELDING edge with a stream in flight |
| UiMirror.AppliedIdempotent | src/main.js:435-456 | applying the same state again changes nothing, so a repeated YIELDING aborts nothing more |
| UiMirror.RefreshFallsBackToActive | src/main.js:1708-1724 | the state shows YIELDING exactly when inside the extension with a YIELDING reply; the switch is disabled only outside it |
| UiMirror.FailedSetFollowsRefresh | src/main.js:1733-1759 | a failed set never keeps the optimistic value: the state is what the refresh reports, or ACTIVE |
| UiMirror.EnableFromSwitchNeverAborts | src/main.js:1740-1754 | turning the switch on never aborts the stream in flight |
| UiMirror.YieldMirror.ShowSwitch | src/main.js:410-414 | the switch is checked exactly for YIELDING and disabled as asked |
| UiMirror.YieldMirror.RenderNotice | src/main.js:418-433 | the notice is visible exactly while yielding |
| UiMirror.YieldMirror.Apply | src/main.js:435-456 | the new mirror is Applied of the old one and stays normalized |
| UiMirror.YieldMirror.Refresh | src/main.js:1708-1724 | the new mirror is Refreshed of the old one |
| UiMirror.YieldMirror.SwitchChanged | src/main.js:1733-1759 | the new mirror is Switched of the old one |
| UiMirror.YieldMirror.SendMessage | src/main.js:1031-1042 | a blank message is ignored; otherwise it is blocked exactly while yielding |
| UiMirror.YieldMirror.SendPreparedMessage | src/main.js:933-937 | blocked exactly while yielding |
| UiMirror.YieldMirror.RegenerateMessage | src/main.js:803-808 | nothing without a message element; otherwise blocked exactly while yielding |
| UiPolicies.IndexOf | src/main.js:249 | the first position of the item, or -1 exactly when it is absent |
| UiPolicies.MenuTarget | src/main.js:246-274 | nothing for an empty menu or another key; Home is the first item and End the last |
| UiPolicies.MenuWraps | src/main.js:251-262 | ArrowDown wraps from the last item to the first, ArrowUp from the first to the last, and an item not in the menu counts as the first |
| UiPolicies.DownThenUp | src/main.js:251-262 | in a menu of distinct items, ArrowUp undoes ArrowDown |
| UiPolicies.ClampIndex | src/main.js:2028-2032 | a missing, non-integer or negative index is 0; one past the end is the last index; any other index is kept |
| UiPolicies.ClampIndexIdempotent | src/main.js:2154-2157 | saving re-clamps the loaded index without changing it |
| UiPolicies.PromptKeysDistinct | src/main.js:1809-1816 | a prompt key never equals a local-only key |
| UiPolicies.PromptKeyInjective | src/main.js:1815-1816 | different configuration ids give different keys |
| UiPolicies.Marked | src/main.js:2176-2182 | the local-only flag records whether the prompt is over 6000 UTF-8 bytes |
| UiPolicies.PayloadsOfConfig | src/main.js:2164-2183 | for the last configuration with its id: the local payload holds the prompt, and sync holds the prompt and false when it fits, '' and true otherwise |
| UiPolicies.SavePrompts | src/main.js:2164-2183 | the loop builds exactly LocalPayload and SyncPayload and marks every configuration |
| UiPolicies.LoadPrompt | src/main.js:2047-2066 | a local string wins and is not re-cached; else a non-empty sync string unless local-only, cached locally; else a non-empty legacy prompt, cached locally with a migration save; else '' |
| UiPolicies.SaveThenLoad | src/main.js:2047-2066 | loading what was saved gives back every prompt; a prompt that fits comes back even without the local copy |
| GhostController.ResolvesExactly | src/utils/ghost-controller.js:12-19 | resolveBridge accepts exactly an object with all three functions, the one the content script installs |
| GhostController.Controller.SetYield | src/utils/ghost-controller.js:23-25 | the sidebar's new state is setGhostMode's for Boolean(enable), so it ends up YIELDING exactly for a truthy argument; reason default 'controller' |
| GhostController.Controller.ToggleYield | src/utils/ghost-controller.js:26-28 | the sidebar's new state is the toggled one; reason default 'controller' |
| GhostController.Controller.GetState | src/utils/ghost-controller.js:29-31 | the bridge's answer, unchanged |
| GhostController.Poll | src/utils/ghost-controller.js:47-67 | the controller is exposed at the first poll that finds the bridge; giving up happens only 10 s or more after the start |
| GhostController.AtMostEightyFivePolls | src/utils/ghost-controller.js:58-63 | from the start there are at most 85 polls |
| GhostController.PollExtremes | src/utils/ghost-controller.js:47-67 | a bridge there from the start is used at once; one that never comes is given up |
| GhostController.PageWindow.ExposeController | src/utils/ghost-controller.js:21-45 | a fresh controller over the bridge is put on the window |
| GhostController.PageWindow.Bootstrap | src/utils/ghost-controller.js:47-67 | the poll loop ends as Poll says, and exposes a controller exactly when it ends Exposed |
| JsStrings.Trim | content.js:63 | the result is a slice of the input with only whitespace cut from either end, and no whitespace is left at either end |
| JsStrings.SplitJoin | content.js:69-70 | splitting joined separator-free parts gives the parts back |
| JsStrings.JoinSplit | content.js:69-70 | joining a split gives the string back |
| JsStrings.DecimalValueOfNatToString | content.js:16-25 | Number() of a rendered number is that number |
| JsStrings.NatToStringOfDecimalValue | content.js:16-25 | a canonical decimal string is the rendering of its value |
| JsStrings.Utf8Length | src/main.js:1832-1838 | TextEncoder's byte count is between the length and four times the length |
| JsStrings.Utf8LengthAscii | src/main.js:1832-1838 | an ASCII prompt takes one byte per character |

## Left out

- I/O: messaging, storage, timers, `Date.now()`, console logging and `fetch` are not modelled as such. Replies and the time are parameters, and delays are log entries or counted polls, not time.
- downloadPDF's network fetch and PDF.js text extraction are not modelled. The model starts from the bytes downloaded and ends at the bytes reassembled.
- The de-duplication of in-flight PDF extractions and page-content requests is concurrency and is not modelled.
- The placeholder progress messages sent during a PDF transfer are not modelled; they change no state that the checks read.
- Strings are sequences of characters. JavaScript's UTF-16 code units and surrogates are not modelled, so `length` and `Utf8Length` count one code point per character.
- Numbers are integers. NaN and fractional values appear only where the code tests them. A non-finite width or chunk size is reduced to an option.
- A fractional `plus` for getSiteKeyFromHostname is not modelled.
- JsStrings.ToLower: lower-cases ASCII letters only, because host names are matched against ASCII suffixes and other scripts are not case-folded in the model.
- Tab id 0 stands for a missing (falsy) tab id, and tab ids are non-negative.
- The bridge's and controller's `Object.defineProperty` options, and the fallback to plain assignment when it throws, are reduced to installing the object. Foreign objects on the window are reduced to the three function checks.
- The sync payload's stripped configuration list is not modelled. Neither are the storage quota fallback and the migration save itself; only the decision to make one is.
- The DOM text of the placeholder, the notice and its localized copy is not modelled.
- The other background handlers (tab groups, commands, page content, shortcut checks) and the content script's drag, resize and position code are outside the yield and cache core and are not modelled.
- sendInitMessage's one-second delay is not modelled; only the retry count is.
- GhostController.Controller.SetYield: a throwing bridge call is not modelled; the installed bridge does not throw.
- TimedTextCache.UrlCache.Record: URL parsing and the listener's filter are not modelled. A URL that does not parse is ignored by the code, and so is one whose host is not `www.youtube.com` or whose path is not `/api/timedtext`. The member starts from the tab id, the URL and the video id already taken from its `v` parameter.
- TimedTextCache.UrlCache.Lookup: the reply's `lang` and `caps` fields are not modelled. The code reads them from the cached URL's query with no effect on the cache, and the reply here carries only the success flag and the URL.
- ContentBridge.ContentScript.Handle: a sidebar call that throws is not modelled. The code's `catch` answers such a call with `{success: false, error}` for CEREBR_TOGGLE_YIELD, CEREBR_SET_YIELD and CEREBR_GET_YIELD_STATE. The modelled sidebar methods do not throw.

## Notes on the code's behaviour

- sendMessageToTabWithReconnect reports an unreachable tab as the error 'Content script not connected', and ensureYieldStateApplied retries it like any other failed attempt (YieldCoordinator.ReconnectTrace, YieldCoordinator.ApplyUnreachable).
- Looking up a timedtext URL prunes the cache first, so an expired URL is never returned (TimedTextCache.UrlCache.Lookup).
- The three-label public-suffix test in getSiteKeyFromHostname can never match, because every listed suffix has exactly two labels (SiteKeys.NoThreeLabelSuffix).
- Turning the preferences switch on sets YIELDING before the reply is applied, so that reply never counts as entering YIELDING, and a stream in flight is not aborted by it (UiMirror.EnableFromSwitchNeverAborts).
- A `plus` of 0 gives 2 labels: `Number(0) || 2` is 2, so the `Math.max(1, …)` guard never sees the 0 (SiteKeys.PlusLabels).
