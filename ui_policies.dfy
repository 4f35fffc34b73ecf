/** Small policies of the sidebar frame (src/main.js): keyboard navigation
    in a menu, the clamp of the selected API configuration's index, how a
    system prompt is split between local and sync storage when the
    configurations are saved, and which stored prompt wins when they are
    loaded. Storage itself is replaced by the maps and values it holds. */
module UiPolicies {
  import opened JsStrings

  // ---------------------------------------------------------------- menus

  datatype Key = ArrowDown | ArrowUp | Home | End | OtherKey

  /** Array.prototype.indexOf: the first position of `x`, or -1. */
  function IndexOf<T(==)>(items: seq<T>, x: T): (i: int)
    ensures -1 <= i < |items|
    ensures i >= 0 ==> items[i] == x && forall j :: 0 <= j < i ==> items[j] != x
    ensures i == -1 <==> x !in items
  {
    if items == [] then -1
    else if items[0] == x then 0
    else
      var i := IndexOf(items[1..], x);
      assert forall j :: 1 <= j < |items| ==> items[j] == items[1..][j - 1];
      if i == -1 then -1 else i + 1
  }

  /** The item the menu's keydown handler focuses, counting from
      `max(0, indexOf(active))`; no move in an empty menu or for another key. */
  function MenuTarget<T(==)>(items: seq<T>, active: T, key: Key): (r: Option<nat>)
    ensures r.Some? ==> r.value < |items|
    ensures r.None? <==> items == [] || key == OtherKey
    ensures items != [] && key == Home ==> r == Some(0)
    ensures items != [] && key == End ==> r == Some(|items| - 1)
  {
    var n := |items|;
    if n == 0 then None
    else
      var current := if IndexOf(items, active) < 0 then 0 else IndexOf(items, active);
      match key
      case ArrowDown => Some((current + 1) % n)
      case ArrowUp => Some((current - 1 + n) % n)
      case Home => Some(0)
      case End => Some(n - 1)
      case OtherKey => None
  }

  /** The two wrap-around expressions on an index inside the menu. */
  lemma WrapSteps(c: int, n: int)
    requires 0 <= c < n
    ensures (c + 1) % n == if c + 1 < n then c + 1 else 0
    ensures (c - 1 + n) % n == if c > 0 then c - 1 else n - 1
  {
    if c + 1 == n {
      assert (c + 1) % n == n % n == 0;
    }
    if c > 0 {
      assert (c - 1 + n) % n == ((c - 1) + 1 * n) % n == c - 1;
    }
  }

  /** ArrowDown wraps from the last item to the first, ArrowUp from the first
      to the last, and an active element outside the menu counts as the first. */
  lemma MenuWraps<T>(items: seq<T>, active: T)
    requires items != []
    ensures active == items[|items| - 1] && IndexOf(items, active) == |items| - 1 ==> MenuTarget(items, active, ArrowDown) == Some(0)
    ensures active == items[0] ==> MenuTarget(items, active, ArrowUp) == Some(|items| - 1)
    ensures active !in items ==> MenuTarget(items, active, ArrowDown) == Some(1 % |items|)
  {
    WrapSteps(|items| - 1, |items|);
    WrapSteps(0, |items|);
  }

  /** In a menu of distinct items, ArrowUp undoes ArrowDown. */
  lemma {:induction false} DownThenUp<T>(items: seq<T>, active: T)
    requires items != [] && forall i, j :: 0 <= i < j < |items| ==> items[i] != items[j]
    requires active in items
    ensures var down := MenuTarget(items, active, ArrowDown).value;
      MenuTarget(items, items[down], ArrowUp) == Some(IndexOf(items, active))
  {
    var n := |items|;
    var c := IndexOf(items, active);
    var down := (c + 1) % n;
    WrapSteps(c, n);
    DistinctIndexOf(items, down);
    WrapSteps(down, n);
  }

  lemma DistinctIndexOf<T>(items: seq<T>, k: nat)
    requires k < |items| && forall i, j :: 0 <= i < j < |items| ==> items[i] != items[j]
    ensures IndexOf(items, items[k]) == k
  {
  }

  // ------------------------------------------------- selected config index

  /** `result.selectedConfigIndex` as stored: missing, an integer, or any other value. */
  datatype StoredIndex = Missing | Integer(value: int) | NotInteger

  /** `?? 0`, then 0 unless an integer, then clamped to [0, length - 1]
      (which is 0 for an empty list). */
  function ClampIndex(stored: StoredIndex, length: nat): (r: nat)
    ensures length > 0 ==> r < length
    ensures length == 0 ==> r == 0
    ensures stored.Integer? && 0 <= stored.value < length ==> r == stored.value
    ensures !stored.Integer? ==> r == 0
    ensures stored.Integer? && stored.value >= length > 0 ==> r == length - 1
    ensures stored.Integer? && stored.value < 0 ==> r == 0
  {
    var i := if stored.Integer? then stored.value else 0;
    var hi := length as int - 1;
    var m := if i < hi then i else hi;
    if m < 0 then 0 else m
  }

  /** Saving re-clamps the index it loaded: clamping is idempotent. */
  lemma ClampIndexIdempotent(stored: StoredIndex, length: nat)
    ensures ClampIndex(Integer(ClampIndex(stored, length)), length) == ClampIndex(stored, length)
  {
  }

  // ------------------------------------------------------- system prompts

  const SyncThresholdBytes: nat := 6000
  const PromptKeyPrefix: string := "apiConfigSystemPrompt_"
  const LocalOnlyKeyPrefix: string := "apiConfigSystemPromptLocalOnly_"

  function PromptKey(id: string): string { PromptKeyPrefix + id }
  function LocalOnlyKey(id: string): string { LocalOnlyKeyPrefix + id }

  /** A configuration as far as the prompt is concerned: `settings` stands
      for `advancedSettings`, with its prompt (`None` when missing) and its
      local-only flag. */
  datatype Settings = Settings(systemPrompt: Option<string>, localOnly: bool)
  datatype Config = Config(id: string, settings: Option<Settings>)

  /** `config.advancedSettings?.systemPrompt ?? ''`. */
  function PromptOf(c: Config): string {
    if c.settings.Some? && c.settings.value.systemPrompt.Some? then c.settings.value.systemPrompt.value else ""
  }

  /** A prompt of at most 6000 UTF-8 bytes goes to sync storage. */
  predicate Fits(prompt: string) {
    Utf8Length(prompt) <= SyncThresholdBytes
  }

  datatype SyncValue = Text(text: string) | Flag(flag: bool)

  /** The prompt entries of the local payload after the given configurations. */
  function LocalPayload(cs: seq<Config>): map<string, string> {
    if cs == [] then map[]
    else
      var c := cs[|cs| - 1];
      LocalPayload(cs[..|cs| - 1])[PromptKey(c.id) := PromptOf(c)]
  }

  /** The prompt entries of the sync payload: the prompt and `false`, or ''
      and `true` when it is too large. */
  function SyncPayload(cs: seq<Config>): map<string, SyncValue> {
    if cs == [] then map[]
    else
      var c := cs[|cs| - 1];
      var p := PromptOf(c);
      SyncPayload(cs[..|cs| - 1])[PromptKey(c.id) := Text(if Fits(p) then p else "")][LocalOnlyKey(c.id) := Flag(!Fits(p))]
  }

  /** The configuration after the loop: its local-only flag records whether
      the prompt was kept out of sync storage. */
  function Marked(c: Config): (r: Config)
    ensures r.id == c.id && PromptOf(r) == PromptOf(c)
    ensures c.settings.Some? ==> r.settings.Some? && r.settings.value.localOnly == !Fits(PromptOf(c))
    ensures c.settings.None? ==> r == c
  {
    if c.settings.Some? then c.(settings := Some(c.settings.value.(localOnly := !Fits(PromptOf(c))))) else c
  }

  /** The two key families never meet: the prefixes differ at position 21. */
  lemma PromptKeysDistinct(a: string, b: string)
    ensures PromptKey(a) != LocalOnlyKey(b)
  {
    assert PromptKey(a)[21] == '_';
    assert LocalOnlyKey(b)[21] == 'L';
  }

  lemma PromptKeyInjective(a: string, b: string)
    ensures PromptKey(a) == PromptKey(b) ==> a == b
    ensures LocalOnlyKey(a) == LocalOnlyKey(b) ==> a == b
  {
    if PromptKey(a) == PromptKey(b) {
      assert a == PromptKey(a)[|PromptKeyPrefix|..];
    }
    if LocalOnlyKey(a) == LocalOnlyKey(b) {
      assert a == LocalOnlyKey(a)[|LocalOnlyKeyPrefix|..];
    }
  }

  /** The payloads hold, for each configuration not followed by another with
      the same id, its full prompt locally, and in sync storage the prompt
      with `false` when it fits and '' with `true` when it does not. */
  lemma {:induction false} PayloadsOfConfig(cs: seq<Config>, k: nat)
    requires k < |cs| && forall j :: k < j < |cs| ==> cs[j].id != cs[k].id
    ensures var c, p := cs[k], PromptOf(cs[k]);
      && PromptKey(c.id) in LocalPayload(cs) && LocalPayload(cs)[PromptKey(c.id)] == p
      && PromptKey(c.id) in SyncPayload(cs) && LocalOnlyKey(c.id) in SyncPayload(cs)
      && SyncPayload(cs)[PromptKey(c.id)] == Text(if Fits(p) then p else "")
      && SyncPayload(cs)[LocalOnlyKey(c.id)] == Flag(!Fits(p))
  {
    var n := |cs|;
    var last := cs[n - 1];
    var init := cs[..n - 1];
    var id := cs[k].id;
    PromptKeysDistinct(id, last.id);
    PromptKeysDistinct(last.id, id);
    if k < n - 1 {
      PayloadsOfConfig(init, k);
      PromptKeyInjective(id, last.id);
    }
  }

  /** One more configuration sets its keys over the payloads so far. */
  lemma PayloadStep(cs: seq<Config>, i: nat)
    requires i < |cs|
    ensures var c, p := cs[i], PromptOf(cs[i]);
      && LocalPayload(cs[..i + 1]) == LocalPayload(cs[..i])[PromptKey(c.id) := p]
      && SyncPayload(cs[..i + 1]) == SyncPayload(cs[..i])[PromptKey(c.id) := Text(if Fits(p) then p else "")][LocalOnlyKey(c.id) := Flag(!Fits(p))]
  {
    assert cs[..i + 1][..i] == cs[..i];
  }

  /** The prompt loop of saveAPIConfigsNow. */
  method SavePrompts(configs: seq<Config>)
      returns (local: map<string, string>, sync: map<string, SyncValue>, updated: seq<Config>)
    ensures local == LocalPayload(configs) && sync == SyncPayload(configs)
    ensures |updated| == |configs| && forall k :: 0 <= k < |configs| ==> updated[k] == Marked(configs[k])
  {
    local, sync, updated := map[], map[], [];
    var i := 0;
    while i < |configs|
      invariant 0 <= i <= |configs|
      invariant local == LocalPayload(configs[..i]) && sync == SyncPayload(configs[..i])
      invariant |updated| == i && forall k :: 0 <= k < i ==> updated[k] == Marked(configs[k])
    {
      var config := configs[i];
      PayloadStep(configs, i);
      var promptKey := PromptKeyPrefix + config.id;
      var localOnlyKey := LocalOnlyKeyPrefix + config.id;
      var systemPrompt := if config.settings.Some? && config.settings.value.systemPrompt.Some?
        then config.settings.value.systemPrompt.value else "";
      local := local[promptKey := systemPrompt];
      var byteLength := Utf8Length(systemPrompt);
      if byteLength <= SyncThresholdBytes {
        sync := sync[promptKey := Text(systemPrompt)][localOnlyKey := Flag(false)];
        if config.settings.Some? {
          config := config.(settings := Some(config.settings.value.(localOnly := false)));
        }
      } else {
        sync := sync[promptKey := Text("")][localOnlyKey := Flag(true)];
        if config.settings.Some? {
          config := config.(settings := Some(config.settings.value.(localOnly := true)));
        }
      }
      updated := updated + [config];
      i := i + 1;
    }
    assert configs[..i] == configs;
  }

  /** The prompt loadAPIConfigs picks, the value it copies into local
      storage, and whether a migration save is needed. */
  datatype Loaded = Loaded(prompt: string, cacheLocally: Option<string>, migrate: bool)

  /** The first of: a local string; a non-empty sync string unless marked
      local-only; a non-empty legacy prompt inside the configuration; else ''.
      `None` stands for a value that is not a string. */
  function LoadPrompt(local: Option<string>, sync: Option<string>, localOnly: bool, legacy: Option<string>): (r: Loaded)
    ensures local.Some? ==> r == Loaded(local.value, None, false)
    ensures r.migrate <==> local.None? && !(!localOnly && sync.Some? && sync.value != "") && legacy.Some? && legacy.value != ""
    ensures r.cacheLocally.Some? ==> r.cacheLocally.value == r.prompt && r.prompt != ""
    ensures r.prompt == "" || Some(r.prompt) in {local, sync, legacy}
    ensures local.None? && !localOnly && sync.Some? && sync.value != "" ==>
      r.prompt == sync.value && r.cacheLocally == Some(r.prompt) && !r.migrate
    ensures local.None? && !(!localOnly && sync.Some? && sync.value != "") && legacy.Some? && legacy.value != "" ==>
      r.prompt == legacy.value && r.cacheLocally == Some(r.prompt) && r.migrate
    ensures local.None? && !(!localOnly && sync.Some? && sync.value != "") && !(legacy.Some? && legacy.value != "") ==>
      r == Loaded("", None, false)
  {
    if local.Some? then Loaded(local.value, None, false)
    else if !localOnly && sync.Some? && |sync.value| > 0 then Loaded(sync.value, Some(sync.value), false)
    else if legacy.Some? && |legacy.value| > 0 then Loaded(legacy.value, Some(legacy.value), true)
    else Loaded("", None, false)
  }

  /** Save then load: the local copy always gives the prompt back; without
      it, the sync copy does when the prompt fits and is non-empty, and
      otherwise the loader falls through to the legacy prompt. */
  lemma SaveThenLoad(cs: seq<Config>, k: nat, legacy: Option<string>)
    requires k < |cs| && forall j :: k < j < |cs| ==> cs[j].id != cs[k].id
    ensures var c, p := cs[k], PromptOf(cs[k]);
      var local, sync := LocalPayload(cs), SyncPayload(cs);
      && PromptKey(c.id) in local && LoadPrompt(Some(local[PromptKey(c.id)]), None, false, legacy).prompt == p
      && PromptKey(c.id) in sync && sync[PromptKey(c.id)].Text?
      && LocalOnlyKey(c.id) in sync && sync[LocalOnlyKey(c.id)].Flag?
      && var fromSync := LoadPrompt(None, Some(sync[PromptKey(c.id)].text), sync[LocalOnlyKey(c.id)].flag, legacy);
         && (Fits(p) && p != "" ==> fromSync.prompt == p)
         && (!Fits(p) ==> fromSync.prompt == if legacy.Some? then legacy.value else "")
  {
    PayloadsOfConfig(cs, k);
  }
}
