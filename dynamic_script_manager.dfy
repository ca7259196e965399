/**
 * `DynamicScriptManager`: the registry of dynamic script producers, the log
 * of when each script name last changed, the change subscribers, and the
 * staleness rule that decides whether a cached rendering may be served.
 *
 * The clock (`DateTime.UtcNow`) is a counter that every reading advances.
 * What a producer renders (`GetScript`) and whether it grants access
 * (`CheckRights`) are inputs of the operations that would call them.
 */
module DynamicScripts {
  import opened Basics
  import opened Strings
  import opened Utf8
  import opened TwoLevelCaching

  /** Which producer a registration holds. */
  datatype ScriptKind =
    | RegisteredScriptsList
    | Producer(id: string)
    | LocalText(package: string, includes: string, culture: string, pending: bool)

  /**
   * The capabilities of an `IDynamicScript`: its `GroupKey`, its
   * `Expiration` (in ticks) and, when it implements `ICacheSuffix`, its
   * `CacheSuffix`.
   */
  datatype DynamicScript = DynamicScript(
    kind: ScriptKind, groupKey: Option<string>, expiration: nat, cacheSuffix: Option<string>)

  /** A cached rendering: UTF-8 bytes, the instant they were made, and whether they are worth compressing. */
  datatype ScriptContent = ScriptContent(content: seq<byte>, time: nat, canCompress: bool)

  /** A registry entry: the name as first registered, and the producer. */
  datatype Registration = Registration(name: string, script: DynamicScript)

  /** What a `LocalText.<package>.<culture>.<flag>` name asks for. */
  datatype LocalTextRequest = LocalTextRequest(package: string, includes: string, culture: string, pending: bool)

  datatype ScriptError = ArgumentNull | RenderFailed | AccessDenied

  /** The outcome of a lookup by name: `null` in the source is `NotFound`. */
  datatype Lookup<T> = Found(value: T) | NotFound | Failed(error: ScriptError)

  type Subscriber = nat

  /** One invocation of a `ScriptChanged` handler. */
  datatype Notification = Notification(subscriber: Subscriber, name: string)

  const RegisteredScriptsName: string := "RegisteredScripts"
  const CacheKeyPrefix: string := "DynamicScript:"
  const LocalTextPrefix: string := "LocalText."
  const CompressThreshold: nat := 4096

  const KnownCultureIdentifiers: set<string> := {
    "de", "de-DE", "en", "en-GB", "en-UK", "en-US", "es", "es-ES", "fa-IR", "fr",
    "it-IT", "pt-BR", "pt-PT", "ru", "ru-RU", "tr", "tr-TR", "vi-VN", "zh-CN"
  }

  // ---------------------------------------------------------------------
  // Cache keys
  // ---------------------------------------------------------------------

  /** The cache key of a script: `"DynamicScript:" + name`, then `":" + suffix` when it has one. */
  function CacheKey(name: string, suffix: Option<string>): string {
    CacheKeyPrefix + name + (if suffix.Some? then ":" + suffix.value else "")
  }

  /** The characters of `s` before its first colon. */
  function BeforeColon(s: string): string {
    if s == [] || s[0] == ':' then [] else [s[0]] + BeforeColon(s[1..])
  }

  lemma {:induction false} BeforeColonOf(a: string, x: string)
    requires ':' !in a && (x == [] || x[0] == ':')
    ensures BeforeColon(a + x) == a
  {
    if a != [] {
      assert (a + x)[0] == a[0];
      assert (a + x)[1..] == a[1..] + x;
      BeforeColonOf(a[1..], x);
    } else {
      assert a + x == x;
    }
  }

  /**
   * For names without a colon the key determines the name and the suffix:
   * two scripts share a cache entry only when both agree.
   */
  lemma CacheKeyInjective(n1: string, s1: Option<string>, n2: string, s2: Option<string>)
    requires ':' !in n1 && ':' !in n2
    requires CacheKey(n1, s1) == CacheKey(n2, s2)
    ensures n1 == n2 && s1 == s2
  {
    var p := |CacheKeyPrefix|;
    var k := CacheKey(n1, s1);
    var x1 := if s1.Some? then ":" + s1.value else "";
    var x2 := if s2.Some? then ":" + s2.value else "";
    assert k[p..] == n1 + x1 && k[p..] == n2 + x2;
    BeforeColonOf(n1, x1);
    BeforeColonOf(n2, x2);
    assert n1 == n2;
    assert x1 == (n1 + x1)[|n1|..] == (n2 + x2)[|n2|..] == x2;
    assert s1.None? <==> x1 == [];
    assert s2.None? <==> x2 == [];
    if s1.Some? && s2.Some? {
      assert s1.value == x1[1..] == x2[1..] == s2.value;
    }
  }

  // ---------------------------------------------------------------------
  // Resolving LocalText names
  // ---------------------------------------------------------------------

  /** A culture the manager accepts: a known identifier or a system culture, compared ignoring case. */
  predicate IsKnownCulture(culture: string, systemCultures: set<string>) {
    (exists k | k in KnownCultureIdentifiers :: EqualsIgnoreCase(k, culture))
    || (exists k | k in systemCultures :: EqualsIgnoreCase(k, culture))
  }

  /**
   * The producer request a `LocalText.<package>.<culture>.<flag>` name
   * stands for, when the package is configured and the culture known.
   */
  function LocalTextName(name: string, packages: Option<map<string, string>>, systemCultures: set<string>)
    : Option<LocalTextRequest>
  {
    if !StartsWithIgnoreCase(name, LocalTextPrefix) then None
    else
      var parts := Split(name, '.');
      if |parts| == 4 && packages.Some? && parts[1] in packages.value
        && IsKnownCulture(parts[2], systemCultures)
      then Some(LocalTextRequest(parts[1], packages.value[parts[1]], parts[2], EqualsIgnoreCase(parts[3], "Pending")))
      else None
  }

  /**
   * An unregistered name resolves exactly when it starts with `LocalText.`
   * (ignoring case), has exactly three dots, names a configured package in
   * its second part and a known culture in its third.
   */
  lemma LocalTextNameIff(name: string, packages: Option<map<string, string>>, systemCultures: set<string>)
    ensures |Split(name, '.')| == 4 <==> Count(name, '.') == 3
    ensures LocalTextName(name, packages, systemCultures).Some? <==>
      && StartsWithIgnoreCase(name, LocalTextPrefix)
      && |Split(name, '.')| == 4
      && packages.Some? && Split(name, '.')[1] in packages.value
      && IsKnownCulture(Split(name, '.')[2], systemCultures)
    ensures LocalTextName(name, packages, systemCultures).Some? ==>
      var parts := Split(name, '.');
      var r := LocalTextName(name, packages, systemCultures).value;
      && name == parts[0] + "." + r.package + "." + r.culture + "." + parts[3]
      && r.includes == packages.value[r.package]
      && (r.pending <==> EqualsIgnoreCase(parts[3], "Pending"))
  {
    SplitCount(name, '.');
    if |Split(name, '.')| == 4 {
      JoinFour(name);
    }
  }

  /** A name with three dots is its four parts joined by dots. */
  lemma JoinFour(name: string)
    requires |Split(name, '.')| == 4
    ensures var parts := Split(name, '.'); name == parts[0] + "." + parts[1] + "." + parts[2] + "." + parts[3]
  {
    JoinSplit(name, '.');
    JoinOfFour(Split(name, '.'), '.');
  }

  lemma JoinOfFour(parts: seq<string>, c: char)
    requires |parts| == 4
    ensures Join(parts, c) == parts[0] + [c] + parts[1] + [c] + parts[2] + [c] + parts[3]
  {
    var p1 := parts[1..];
    var p2 := p1[1..];
    assert Join(p2[1..], c) == parts[3];
    assert Join(p2, c) == parts[2] + [c] + parts[3];
    assert Join(p1, c) == parts[1] + [c] + (parts[2] + [c] + parts[3]);
  }

  // ---------------------------------------------------------------------
  // Subscriber lists
  // ---------------------------------------------------------------------

  /** The handler invocations `scriptChanged?.Invoke(name)` makes, in subscription order. */
  function Notify(subscribers: seq<Subscriber>, name: string): (r: seq<Notification>)
    ensures |r| == |subscribers|
    ensures forall i | 0 <= i < |r| :: r[i] == Notification(subscribers[i], name)
  {
    seq(|subscribers|, i requires 0 <= i < |subscribers| => Notification(subscribers[i], name))
  }

  /** The handlers of a list made of two parts are told in the order of the parts. */
  lemma NotifyAppend(a: seq<Subscriber>, b: seq<Subscriber>, name: string)
    ensures Notify(a + b, name) == Notify(a, name) + Notify(b, name)
  {
  }

  /**
   * After a handler is removed, a change tells that handler once less and
   * every other handler as often as before.
   */
  lemma {:induction false} NotifyAfterRemoveLast(subscribers: seq<Subscriber>, s: Subscriber, name: string)
    ensures multiset(Notify(RemoveLast(subscribers, s), name))
         == multiset(Notify(subscribers, name)) - multiset{Notification(s, name)}
  {
    if subscribers != [] {
      var n := |subscribers| - 1;
      var init, last := subscribers[..n], subscribers[n];
      assert subscribers == init + [last];
      NotifyAppend(init, [last], name);
      var told := multiset(Notify(init, name));
      assert multiset(Notify(subscribers, name)) == told + multiset{Notification(last, name)};
      if last == s {
        assert RemoveLast(subscribers, s) == init;
      } else {
        assert RemoveLast(subscribers, s) == RemoveLast(init, s) + [last];
        NotifyAfterRemoveLast(init, s, name);
        NotifyAppend(RemoveLast(init, s), [last], name);
        MultisetSwap(told, Notification(last, name), Notification(s, name));
      }
    }
  }

  /** Adding one element and taking out a different one commute. */
  lemma MultisetSwap(t: multiset<Notification>, x: Notification, y: Notification)
    requires x != y
    ensures (t + multiset{x}) - multiset{y} == (t - multiset{y}) + multiset{x}
  {
  }

  /** `Delegate.Remove`: the last occurrence of `s` leaves the invocation list. */
  function RemoveLast(subscribers: seq<Subscriber>, s: Subscriber): seq<Subscriber> {
    if subscribers == [] then []
    else if subscribers[|subscribers| - 1] == s then subscribers[..|subscribers| - 1]
    else RemoveLast(subscribers[..|subscribers| - 1], s) + [subscribers[|subscribers| - 1]]
  }

  /** Removing a handler takes exactly one copy of it out of the list, when there is one. */
  lemma {:induction false} RemoveLastMultiset(subscribers: seq<Subscriber>, s: Subscriber)
    ensures multiset(RemoveLast(subscribers, s)) == multiset(subscribers) - multiset{s}
  {
    if subscribers != [] {
      var n := |subscribers| - 1;
      assert subscribers == subscribers[..n] + [subscribers[n]];
      if subscribers[n] != s {
        RemoveLastMultiset(subscribers[..n], s);
      }
    }
  }

  /** Unsubscribing right after subscribing restores the list. */
  lemma SubscribeThenUnsubscribe(subscribers: seq<Subscriber>, s: Subscriber)
    ensures RemoveLast(subscribers + [s], s) == subscribers
  {
    assert (subscribers + [s])[..|subscribers|] == subscribers;
  }

  /** The entry a fresh rendering of `text` made at `time` becomes. */
  function NewContent(text: string, time: nat): (r: ScriptContent)
    ensures Decode(r.content) == text && r.time == time
    ensures r.canCompress <==> |r.content| > CompressThreshold
  {
    DecodeEncode(text);
    var bytes := Encode(text);
    ScriptContent(bytes, time, |bytes| > CompressThreshold)
  }

  // ---------------------------------------------------------------------
  // The manager
  // ---------------------------------------------------------------------

  class DynamicScriptManager {
    /** Keyed by `FoldCase(name)`: the registry compares names ignoring case. */
    var registeredScripts: map<string, Registration>
    /** Keyed by the name exactly as given: this map compares names ordinally. */
    var scriptLastChange: map<string, nat>
    var subscribers: seq<Subscriber>
    /** Every handler invocation so far, oldest first. */
    var notifications: seq<Notification>
    var clock: nat

    const cache: TwoLevelCache<ScriptContent>
    /** `IOptions<LocalTextPackages>`: package name to include pattern, or none configured. */
    const localTextPackages: Option<map<string, string>>
    /** The names `CultureInfo.GetCultures(CultureTypes.AllCultures)` returns. */
    const systemCultures: set<string>
    /** `ScriptContent.Hash`. */
    const contentHash: seq<byte> -> string
    /** `string.GetHashCode(StringComparison.Ordinal)`. */
    const suffixHash: string -> int
    /** The `LocalTextScript` built for a resolved LocalText name. */
    const makeLocalText: LocalTextRequest -> DynamicScript

    /** Every registration sits under the folded form of its name. */
    ghost predicate NamesKeyed()
      reads this`registeredScripts
    {
      forall k | k in registeredScripts :: FoldCase(registeredScripts[k].name) == k
    }

    ghost predicate Valid()
      reads this, cache
    {
      && NamesKeyed()
      && FoldCase(RegisteredScriptsName) in registeredScripts
      && registeredScripts[FoldCase(RegisteredScriptsName)].name == RegisteredScriptsName
      && (forall n | n in scriptLastChange :: scriptLastChange[n] < clock)
      && (forall k | k in cache.entries :: cache.entries[k].value.time < clock)
    }

    /** The names as registered, each in the casing it was first registered with. */
    function RegisteredNames(): set<string>
      reads this`registeredScripts
    {
      set k | k in registeredScripts :: registeredScripts[k].name
    }

    /** The staleness rule: a change at or after the rendering's instant makes it stale. */
    predicate IsStale(name: string, content: ScriptContent)
      reads this`scriptLastChange
    {
      name in scriptLastChange && scriptLastChange[name] >= content.time
    }

    /** The rendering `entries` hold under `key`, when there is one and it is not stale for `name`. */
    function FreshIn(entries: map<string, CacheItem<ScriptContent>>, name: string, key: string): Option<ScriptContent>
      reads this`scriptLastChange
    {
      if key in entries && !IsStale(name, entries[key].value) then Some(entries[key].value)
      else None
    }

    /** The cached rendering under `key`, when there is one and it is not stale for `name`. */
    function FreshEntry(name: string, key: string): Option<ScriptContent>
      reads this`scriptLastChange, cache`entries
    {
      FreshIn(cache.entries, name, key)
    }

    /** The version token minted when no fresh rendering exists. */
    function FallbackToken(script: DynamicScript, ticks: nat): string
    {
      if script.cacheSuffix.Some? then "-" + IntToString(suffixHash(script.cacheSuffix.value))
      else NatToString(ticks)
    }

    /**
     * What `PeekScriptHash` gives for `name`: the hash of the fresh
     * rendering, nothing changed; or else the fallback token, the entry
     * under the key dropped and the clock read once.
     */
    function Peeked(name: string, script: DynamicScript): (string, map<string, CacheItem<ScriptContent>>, nat)
      reads this`scriptLastChange, this`clock, cache`entries
    {
      var key := CacheKey(name, script.cacheSuffix);
      match FreshEntry(name, key)
      case Some(c) => (contentHash(c.content), cache.entries, clock)
      case None => (FallbackToken(script, clock), cache.entries - {key}, clock + 1)
    }

    /**
     * What `EnsureScriptContent` serves, and the cache and clock it leaves:
     * the fresh rendering, nothing changed; or else the entry under the key
     * is dropped and, unless rendering fails, the new rendering stored there
     * under the script's group.
     */
    function Ensured(name: string, script: DynamicScript, rendered: Option<string>)
      : (Result<ScriptContent, ScriptError>, map<string, CacheItem<ScriptContent>>, nat)
      reads this`scriptLastChange, this`clock, cache`entries
    {
      var key := CacheKey(name, script.cacheSuffix);
      match FreshEntry(name, key)
      case Some(c) => (Ok(c), cache.entries, clock)
      case None =>
        if rendered == None then (Err(RenderFailed), cache.entries - {key}, clock)
        else
          var c := NewContent(rendered.value, clock);
          (Ok(c), cache.entries[key := CacheItem(c, script.groupKey)], clock + 1)
    }

    /** The registry once `name` is looked up: a LocalText name that validates is added. */
    function RegistryAfterLookup(name: string): map<string, Registration>
      reads this`registeredScripts
    {
      var req := LocalTextName(name, localTextPackages, systemCultures);
      if FoldCase(name) !in registeredScripts && req.Some?
      then registeredScripts[FoldCase(name) := Registration(name, makeLocalText(req.value))]
      else registeredScripts
    }

    /** The producer a name resolves to, registering nothing. */
    function Resolve(name: string): Option<DynamicScript>
      reads this`registeredScripts
    {
      if FoldCase(name) in registeredScripts then Some(registeredScripts[FoldCase(name)].script)
      else
        match LocalTextName(name, localTextPackages, systemCultures)
        case None => None
        case Some(req) => Some(makeLocalText(req))
    }

    constructor (cache: TwoLevelCache<ScriptContent>, localTextPackages: Option<map<string, string>>,
                 systemCultures: set<string>, contentHash: seq<byte> -> string, suffixHash: string -> int,
                 makeLocalText: LocalTextRequest -> DynamicScript, listScript: DynamicScript, startTime: nat)
      requires forall k | k in cache.entries :: cache.entries[k].value.time < startTime
      ensures Valid()
      ensures this.cache == cache && this.localTextPackages == localTextPackages
      ensures this.systemCultures == systemCultures && this.contentHash == contentHash
      ensures this.suffixHash == suffixHash && this.makeLocalText == makeLocalText
      ensures registeredScripts == map[FoldCase(RegisteredScriptsName) := Registration(RegisteredScriptsName, listScript)]
      ensures scriptLastChange == map[] && subscribers == [] && notifications == [] && clock == startTime
    {
      this.cache := cache;
      this.localTextPackages := localTextPackages;
      this.systemCultures := systemCultures;
      this.contentHash := contentHash;
      this.suffixHash := suffixHash;
      this.makeLocalText := makeLocalText;
      registeredScripts := map[FoldCase(RegisteredScriptsName) := Registration(RegisteredScriptsName, listScript)];
      scriptLastChange := map[];
      subscribers := [];
      notifications := [];
      clock := startTime;
    }

    /**
     * The constructor's argument checks: a missing cache, permission service
     * or text registry is an `ArgumentNullException`; the localizer and the
     * package options may be missing.
     */
    static method Create(cache: TwoLevelCache?<ScriptContent>, permissions: object?, textRegistry: object?,
                         localTextPackages: Option<map<string, string>>,
                         systemCultures: set<string>, contentHash: seq<byte> -> string, suffixHash: string -> int,
                         makeLocalText: LocalTextRequest -> DynamicScript, listScript: DynamicScript, startTime: nat)
      returns (r: Result<DynamicScriptManager, ScriptError>)
      requires cache != null ==> forall k | k in cache.entries :: cache.entries[k].value.time < startTime
      ensures (cache == null || permissions == null || textRegistry == null) <==> r.Err?
      ensures r.Err? ==> r.error == ArgumentNull
      ensures r.Ok? ==> fresh(r.value) && r.value.Valid() && r.value.cache == cache
      ensures r.Ok? ==> r.value.RegisteredNames() == {RegisteredScriptsName}
    {
      if cache == null || permissions == null || textRegistry == null {
        return Err(ArgumentNull);
      }
      var m := new DynamicScriptManager(cache, localTextPackages, systemCultures, contentHash, suffixHash,
                                        makeLocalText, listScript, startTime);
      assert m.RegisteredNames() == {RegisteredScriptsName} by {
        assert FoldCase(RegisteredScriptsName) in m.registeredScripts;
      }
      r := Ok(m);
    }

    /** `DateTime.UtcNow`: the current instant; the next reading is later. */
    method Now() returns (t: nat)
      requires Valid()
      modifies this`clock
      ensures t == old(clock) && clock == old(clock) + 1
      ensures Valid()
    {
      t := clock;
      clock := clock + 1;
    }

    /** `IsRegistered`: some registered name equals `name` ignoring case. */
    function IsRegistered(name: string): (r: bool)
      requires Valid()
      reads this, cache
      ensures r <==> exists n | n in RegisteredNames() :: EqualsIgnoreCase(n, name)
    {
      if FoldCase(name) in registeredScripts then
        assert EqualsIgnoreCase(registeredScripts[FoldCase(name)].name, name);
        true
      else
        false
    }

    /**
     * `Changed`: a missing name is rejected and nothing changes; any other
     * name, the empty one included, is stamped with the current instant and
     * every subscriber is told, in subscription order.
     */
    method Changed(name: Option<string>) returns (r: Outcome<ScriptError>)
      requires Valid()
      modifies this`scriptLastChange, this`clock, this`notifications
      ensures Valid()
      ensures name == None ==> r == Fail(ArgumentNull) && scriptLastChange == old(scriptLastChange)
                               && clock == old(clock) && notifications == old(notifications)
      ensures name != None ==> r == Pass && scriptLastChange == old(scriptLastChange)[name.value := old(clock)]
                               && clock == old(clock) + 1
                               && notifications == old(notifications) + Notify(subscribers, name.value)
      ensures name != None ==> forall k | k in cache.entries :: IsStale(name.value, cache.entries[k].value)
    {
      if name == None {
        return Fail(ArgumentNull);
      }
      var t := Now();
      scriptLastChange := scriptLastChange[name.value := t];
      notifications := notifications + Notify(subscribers, name.value);
      r := Pass;
    }

    /**
     * `IfNotRegistered`: an existing registration, under any casing, stays
     * as it is and the callback is not invoked; otherwise the producer the
     * callback makes is registered under `name`.
     */
    method IfNotRegistered(name: string, made: DynamicScript) returns (invoked: bool)
      requires Valid()
      modifies this`registeredScripts
      ensures Valid()
      ensures invoked <==> FoldCase(name) !in old(registeredScripts)
      ensures registeredScripts == if invoked then old(registeredScripts)[FoldCase(name) := Registration(name, made)]
                                   else old(registeredScripts)
    {
      invoked := FoldCase(name) !in registeredScripts;
      if invoked {
        registeredScripts := registeredScripts[FoldCase(name) := Registration(name, made)];
      }
    }

    /**
     * `Register`: a missing name or script is rejected and the registry is
     * left as it was; otherwise `script` replaces any producer registered
     * under `name` ignoring case, keeping the casing of the first registration.
     */
    method Register(name: Option<string>, script: Option<DynamicScript>) returns (r: Outcome<ScriptError>)
      requires Valid()
      modifies this`registeredScripts
      ensures Valid()
      ensures (name == None || script == None) <==> r == Fail(ArgumentNull)
      ensures r.Fail? ==> registeredScripts == old(registeredScripts)
      ensures r.Pass? ==>
        var key := FoldCase(name.value);
        var kept := if key in old(registeredScripts) then old(registeredScripts)[key].name else name.value;
        registeredScripts == old(registeredScripts)[key := Registration(kept, script.value)]
      ensures r.Pass? ==> Resolve(name.value) == Some(script.value)
    {
      if name == None || script == None {
        return Fail(ArgumentNull);
      }
      var key := FoldCase(name.value);
      var kept := if key in registeredScripts then registeredScripts[key].name else name.value;
      registeredScripts := registeredScripts[key := Registration(kept, script.value)];
      r := Pass;
    }

    /** `ScriptChanged += handler`. */
    method Subscribe(s: Subscriber)
      requires Valid()
      modifies this`subscribers
      ensures Valid()
      ensures subscribers == old(subscribers) + [s]
    {
      subscribers := subscribers + [s];
    }

    /** `ScriptChanged -= handler`. */
    method Unsubscribe(s: Subscriber)
      requires Valid()
      modifies this`subscribers
      ensures Valid()
      ensures subscribers == RemoveLast(old(subscribers), s)
    {
      subscribers := RemoveLast(subscribers, s);
    }

    /**
     * `PeekScriptHash`: the hash of the cached rendering when it is not stale;
     * otherwise a stale rendering is dropped and a fallback token minted. It
     * never renders and never stores.
     */
    method PeekScriptHash(name: Option<string>, script: DynamicScript) returns (r: Result<string, ScriptError>)
      requires Valid()
      modifies this`clock, cache
      ensures Valid()
      ensures name == None ==> r == Err(ArgumentNull) && cache.entries == old(cache.entries) && clock == old(clock)
      ensures name != None ==>
        var (h, entries, ticks) := old(Peeked(name.value, script));
        r == Ok(h) && cache.entries == entries && clock == ticks
      ensures Shrunk(old(cache.entries), cache.entries)
    {
      if name == None {
        return Err(ArgumentNull);
      }
      var key := CacheKey(name.value, script.cacheSuffix);
      var content := cache.TryGet(key);
      if content.Some? && IsStale(name.value, content.value) {
        cache.Remove(key);
        content := None;
      }
      var hash: string;
      if content.Some? {
        hash := contentHash(content.value.content);
      } else {
        var ticks := Now();
        hash := NatToString(ticks);
        if script.cacheSuffix.Some? {
          hash := "-" + IntToString(suffixHash(script.cacheSuffix.value));
        }
        assert cache.entries == old(cache.entries) - {key};
      }
      r := Ok(hash);
    }

    /** `getOrCreate`: the cached rendering under `key`, or a new rendering stored there. */
    method GetOrCreate(key: string, script: DynamicScript, rendered: Option<string>)
      returns (r: Result<ScriptContent, ScriptError>)
      requires Valid()
      modifies this`clock, cache
      ensures Valid()
      ensures key in old(cache.entries) ==>
        r == Ok(old(cache.entries[key].value)) && cache.entries == old(cache.entries) && clock == old(clock)
      ensures key !in old(cache.entries) && rendered == None ==>
        r == Err(RenderFailed) && cache.entries == old(cache.entries) && clock == old(clock)
      ensures key !in old(cache.entries) && rendered != None ==>
        && r == Ok(NewContent(rendered.value, old(clock)))
        && cache.entries == old(cache.entries)[key := CacheItem(r.value, script.groupKey)]
        && clock == old(clock) + 1
    {
      var existing := cache.TryGet(key);
      if existing.Some? {
        return Ok(existing.value);
      }
      if rendered == None {
        return Err(RenderFailed);
      }
      var t := Now();
      var content := NewContent(rendered.value, t);
      cache.Set(key, content, script.groupKey);
      r := Ok(content);
    }

    /**
     * `EnsureScriptContent`: a cached rendering that is not stale is served
     * as it is; a stale one is removed and the script rendered once more,
     * and that rendering is served without a further check. What is served
     * is never stale.
     */
    method EnsureScriptContent(name: string, script: DynamicScript, rendered: Option<string>)
      returns (r: Result<ScriptContent, ScriptError>)
      requires Valid()
      modifies this`clock, cache
      ensures Valid()
      ensures r.Ok? ==> !IsStale(name, r.value)
      ensures (r, cache.entries, clock) == old(Ensured(name, script, rendered))
    {
      var key := CacheKey(name, script.cacheSuffix);
      var first := GetOrCreate(key, script, rendered);
      if first.Ok? && IsStale(name, first.value) {
        assert key in old(cache.entries) && old(FreshEntry(name, key)) == None;
        cache.Remove(key);
        r := GetOrCreate(key, script, rendered);
        assert rendered != None ==>
          cache.entries == old(cache.entries)[key := CacheItem(r.value, script.groupKey)];
        return;
      }
      assert key !in old(cache.entries) ==> old(cache.entries) - {key} == old(cache.entries);
      r := first;
    }

    /** The producer a registered name holds. */
    function ScriptOf(n: string): DynamicScript
      requires NamesKeyed() && n in RegisteredNames()
      reads this`registeredScripts
    {
      RegisteredNameKey(n);
      registeredScripts[FoldCase(n)].script
    }

    /** Every registered name sits under its own folded key. */
    lemma RegisteredNameKey(n: string)
      requires NamesKeyed() && n in RegisteredNames()
      ensures FoldCase(n) in registeredScripts && registeredScripts[FoldCase(n)].name == n
    {
      var k :| k in registeredScripts && registeredScripts[k].name == n;
    }

    /** The cache key a registered name's renderings are kept under. */
    function KeyOf(n: string): string
      requires NamesKeyed() && n in RegisteredNames()
      reads this`registeredScripts
    {
      CacheKey(n, ScriptOf(n).cacheSuffix)
    }

    /** No other registered name keeps its renderings under the key of `n`. */
    predicate OwnsKey(n: string)
      requires NamesKeyed() && n in RegisteredNames()
      reads this`registeredScripts
    {
      forall m | m in RegisteredNames() && m != n :: KeyOf(m) != KeyOf(n)
    }

    /** When no registered name has a colon, every registered name owns its cache key. */
    lemma ColonFreeNamesOwnKeys()
      requires NamesKeyed() && forall m | m in RegisteredNames() :: ':' !in m
      ensures forall n | n in RegisteredNames() :: OwnsKey(n)
    {
      forall n, m | n in RegisteredNames() && m in RegisteredNames() && m != n
        ensures KeyOf(m) != KeyOf(n)
      {
        if KeyOf(m) == KeyOf(n) {
          CacheKeyInjective(m, ScriptOf(m).cacheSuffix, n, ScriptOf(n).cacheSuffix);
        }
      }
    }

    /**
     * What `GetRegisteredScripts` may report for `n`, given the cache
     * `entries` it started from: a fallback token when no fresh rendering
     * was cached; the hash of the fresh rendering when there was one, unless
     * another name sharing the key dropped that entry first.
     */
    ghost predicate TokenFits(entries: map<string, CacheItem<ScriptContent>>, n: string, h: string)
      requires NamesKeyed() && n in RegisteredNames()
      reads this`registeredScripts, this`scriptLastChange
    {
      match FreshIn(entries, n, KeyOf(n))
      case None => IsFallbackToken(ScriptOf(n), h)
      case Some(c) => h == contentHash(c.content) || (!OwnsKey(n) && IsFallbackToken(ScriptOf(n), h))
    }

    /** Every token of `result` is one of a registered name that fits. */
    ghost predicate TokensFit(entries: map<string, CacheItem<ScriptContent>>, result: map<string, string>)
      requires NamesKeyed()
      reads this`registeredScripts, this`scriptLastChange
    {
      forall n | n in result :: n in RegisteredNames() && TokenFits(entries, n, result[n])
    }

    /** A fitting token of a registered name can join tokens that fit. */
    lemma TokensFitAdd(entries: map<string, CacheItem<ScriptContent>>, result: map<string, string>, n: string, h: string)
      requires NamesKeyed() && n in RegisteredNames()
      requires TokensFit(entries, result) && TokenFits(entries, n, h)
      ensures TokensFit(entries, result[n := h])
    {
    }

    /**
     * When no registered name has a colon, a token that fits is exactly the
     * one `PeekScriptHash` would give first: the fresh rendering's hash, or
     * a fallback token when there is none.
     */
    lemma ColonFreeTokenExact(entries: map<string, CacheItem<ScriptContent>>, n: string, h: string)
      requires NamesKeyed() && n in RegisteredNames() && forall m | m in RegisteredNames() :: ':' !in m
      requires TokenFits(entries, n, h)
      ensures match FreshIn(entries, n, KeyOf(n))
              case Some(c) => h == contentHash(c.content)
              case None => IsFallbackToken(ScriptOf(n), h)
    {
      ColonFreeNamesOwnKeys();
    }

    /**
     * A token read off a cache that only lost entries since `entries`,
     * where the key of `n` is as it was when `n` owns it, fits `entries`.
     */
    lemma PeekedTokenFits(entries: map<string, CacheItem<ScriptContent>>,
                          now: map<string, CacheItem<ScriptContent>>, n: string, h: string)
      requires NamesKeyed() && n in RegisteredNames()
      requires Shrunk(entries, now)
      requires OwnsKey(n) ==> (KeyOf(n) in now <==> KeyOf(n) in entries)
      requires match FreshIn(now, n, KeyOf(n))
               case Some(c) => h == contentHash(c.content)
               case None => IsFallbackToken(ScriptOf(n), h)
      ensures TokenFits(entries, n, h)
    {
      var key := KeyOf(n);
      if FreshIn(now, n, key).Some? {
        assert FreshIn(entries, n, key) == FreshIn(now, n, key);
      }
    }

    /**
     * A token `PeekScriptHash` may mint without a fresh rendering: the
     * suffix's hash for a script with a cache suffix, else a tick count.
     */
    predicate IsFallbackToken(script: DynamicScript, h: string)
    {
      if script.cacheSuffix.Some? then h == "-" + IntToString(suffixHash(script.cacheSuffix.value))
      else h != [] && forall i | 0 <= i < |h| :: IsDigit(h[i])
    }

    /**
     * `Reset`: every registered name, in its registered casing, is stamped
     * with an instant of this call; no other name changes and no subscriber
     * is told.
     */
    method Reset()
      requires Valid()
      modifies this`scriptLastChange, this`clock
      ensures Valid()
      ensures scriptLastChange.Keys == old(scriptLastChange).Keys + RegisteredNames()
      ensures forall n | n in RegisteredNames() :: old(clock) <= scriptLastChange[n]
      ensures forall n | n in old(scriptLastChange) && n !in RegisteredNames() ::
        scriptLastChange[n] == old(scriptLastChange)[n]
      ensures forall n, k | n in RegisteredNames() && k in cache.entries :: IsStale(n, cache.entries[k].value)
    {
      var names := RegisteredNames();
      var todo := names;
      while todo != {}
        invariant Valid()
        invariant todo <= names
        invariant old(clock) <= clock
        invariant scriptLastChange.Keys == old(scriptLastChange).Keys + (names - todo)
        invariant forall n | n in names - todo :: old(clock) <= scriptLastChange[n]
        invariant forall n | n in old(scriptLastChange) && n !in names - todo ::
          scriptLastChange[n] == old(scriptLastChange)[n]
        decreases todo
      {
        var n :| n in todo;
        var t := Now();
        scriptLastChange := scriptLastChange[n := t];
        todo := todo - {n};
      }
    }

    /**
     * The cache keys that visiting the names `ns` with `PeekScriptHash`
     * drops from `entries`: the key of each name that had no fresh
     * rendering there.
     */
    ghost function Dropped(entries: map<string, CacheItem<ScriptContent>>, ns: set<string>): set<string>
      requires NamesKeyed() && ns <= RegisteredNames()
      reads this`registeredScripts, this`scriptLastChange
    {
      set m | m in ns && FreshIn(entries, m, KeyOf(m)).None? :: KeyOf(m)
    }

    /** Visiting one more name drops its key exactly when it had no fresh rendering. */
    lemma DroppedAdd(entries: map<string, CacheItem<ScriptContent>>, ns: set<string>, n: string)
      requires NamesKeyed() && ns <= RegisteredNames() && n in RegisteredNames()
      ensures Dropped(entries, ns + {n})
           == Dropped(entries, ns) + (if FreshIn(entries, n, KeyOf(n)).None? then {KeyOf(n)} else {})
    {
    }

    /** The key of a name that owns its key is dropped only by visiting that name. */
    lemma OwnedKeyNotDropped(entries: map<string, CacheItem<ScriptContent>>, ns: set<string>, n: string)
      requires NamesKeyed() && ns <= RegisteredNames() && n in RegisteredNames() && n !in ns
      requires OwnsKey(n)
      ensures KeyOf(n) !in Dropped(entries, ns)
    {
    }

    /**
     * The cache left by `PeekScriptHash` on `n`, when the cache was
     * `entries` less `dropped`, is `entries` less `dropped` and, when `n`
     * had no fresh rendering in `entries`, its key.
     */
    lemma DropStep(entries: map<string, CacheItem<ScriptContent>>, dropped: set<string>, n: string)
      requires NamesKeyed() && n in RegisteredNames()
      ensures (if FreshIn(entries - dropped, n, KeyOf(n)).None? then (entries - dropped) - {KeyOf(n)}
               else entries - dropped)
           == entries - (dropped + if FreshIn(entries, n, KeyOf(n)).None? then {KeyOf(n)} else {})
    {
      var now, key := entries - dropped, KeyOf(n);
      if FreshIn(now, n, key).Some? {
        assert FreshIn(entries, n, key).Some?;
      } else if FreshIn(entries, n, key).Some? {
        assert key in dropped;
        assert now - {key} == now;
      }
    }

    /** Taking `n` off the names still to visit adds it to the visited ones, unless it is skipped. */
    static lemma VisitOne(names: set<string>, todo: set<string>, n: string, skipped: string)
      requires n in todo && todo <= names
      ensures (names - (todo - {n})) - {skipped}
           == ((names - todo) - {skipped}) + (if n == skipped then {} else {n})
    {
    }

    /** With nothing left to visit, every name but the skipped one was visited. */
    static lemma VisitAll(names: set<string>, skipped: string)
      ensures (names - {}) - {skipped} == names - {skipped}
    {
    }

    /**
     * `GetRegisteredScripts`: the version token of every registered name
     * except `RegisteredScripts`, as `PeekScriptHash` gives it name after
     * name; nothing is rendered and nothing is stored, and the cache loses
     * exactly the keys of the names that had no fresh rendering.
     */
    method GetRegisteredScripts() returns (result: map<string, string>)
      requires Valid()
      modifies this`clock, cache
      ensures Valid()
      ensures result.Keys == RegisteredNames() - {RegisteredScriptsName}
      ensures Shrunk(old(cache.entries), cache.entries)
      ensures forall n | n in result :: TokenFits(old(cache.entries), n, result[n])
      ensures cache.entries == old(cache.entries) - Dropped(old(cache.entries), RegisteredNames() - {RegisteredScriptsName})
    {
      var names := RegisteredNames();
      result := map[];
      var todo := names;
      ghost var dropped: set<string> := {};
      assert (names - todo) - {RegisteredScriptsName} == {};
      while todo != {}
        invariant Valid()
        invariant todo <= names
        invariant Scanned(old(cache.entries), todo, result, dropped)
        decreases todo
      {
        var n :| n in todo;
        ghost var visited := (names - todo) - {RegisteredScriptsName};
        VisitOne(names, todo, n, RegisteredScriptsName);
        if n != RegisteredScriptsName {
          result := AddToken(n, result, old(cache.entries), visited, dropped);
          dropped := Dropped(old(cache.entries), visited + {n});
        }
        todo := todo - {n};
      }
      VisitAll(names, RegisteredScriptsName);
    }

    /**
     * The state `GetRegisteredScripts` keeps while the names `todo` are left
     * to visit, starting from the cache `entries`: the visited names have
     * fitting tokens in `result`, and the cache lost exactly the keys
     * `dropped` of the visited names without a fresh rendering.
     */
    ghost predicate Scanned(entries: map<string, CacheItem<ScriptContent>>, todo: set<string>,
                            result: map<string, string>, dropped: set<string>)
      requires NamesKeyed() && todo <= RegisteredNames()
      reads this`registeredScripts, this`scriptLastChange, cache`entries
    {
      var visited := (RegisteredNames() - todo) - {RegisteredScriptsName};
      && result.Keys == visited
      && TokensFit(entries, result)
      && dropped == Dropped(entries, visited)
      && cache.entries == entries - dropped
    }

    /**
     * One pass of the loop of `GetRegisteredScripts`: the token of `n` joins
     * `result`, and the cache loses the key of `n` when `n` had no fresh
     * rendering in `entries`.
     */
    method AddToken(n: string, result: map<string, string>, ghost entries: map<string, CacheItem<ScriptContent>>,
                    ghost visited: set<string>, ghost dropped: set<string>)
      returns (added: map<string, string>)
      requires Valid() && n in RegisteredNames() && n !in visited && visited <= RegisteredNames()
      requires dropped == Dropped(entries, visited) && cache.entries == entries - dropped
      requires TokensFit(entries, result)
      modifies this`clock, cache
      ensures Valid()
      ensures added.Keys == result.Keys + {n}
      ensures TokensFit(entries, added)
      ensures cache.entries == entries - Dropped(entries, visited + {n})
    {
      var h := PeekRegistered(n);
      PeekStep(entries, visited, dropped, n, h, cache.entries);
      TokensFitAdd(entries, result, n, h);
      added := result[n := h];
    }

    /**
     * One visit in terms of the cache `entries` the loop started from: the
     * token `h` and the cache `after` that `PeekScriptHash` leaves on the
     * cache `entries` less `dropped` are a fitting token and `entries` less
     * the keys dropped so far and the key of `n` when it had no fresh
     * rendering.
     */
    lemma PeekStep(entries: map<string, CacheItem<ScriptContent>>, visited: set<string>, dropped: set<string>,
                   n: string, h: string, after: map<string, CacheItem<ScriptContent>>)
      requires NamesKeyed() && n in RegisteredNames() && n !in visited && visited <= RegisteredNames()
      requires dropped == Dropped(entries, visited)
      requires match FreshIn(entries - dropped, n, KeyOf(n))
               case Some(c) => h == contentHash(c.content)
               case None => IsFallbackToken(ScriptOf(n), h)
      requires after == if FreshIn(entries - dropped, n, KeyOf(n)).None? then (entries - dropped) - {KeyOf(n)}
                        else entries - dropped
      ensures TokenFits(entries, n, h)
      ensures after == entries - Dropped(entries, visited + {n})
    {
      DropStep(entries, dropped, n);
      DroppedAdd(entries, visited, n);
      if OwnsKey(n) {
        OwnedKeyNotDropped(entries, visited, n);
      }
      PeekedTokenFits(entries, entries - dropped, n, h);
    }

    /**
     * `PeekScriptHash` on the registered name `n`: the fresh rendering's
     * hash, or a fallback token and the cache less the key of `n`.
     */
    method PeekRegistered(n: string) returns (h: string)
      requires Valid() && n in RegisteredNames()
      modifies this`clock, cache
      ensures Valid()
      ensures match old(FreshIn(cache.entries, n, KeyOf(n)))
              case Some(c) => h == contentHash(c.content)
              case None => IsFallbackToken(ScriptOf(n), h)
      ensures cache.entries == if old(FreshIn(cache.entries, n, KeyOf(n))).None? then old(cache.entries) - {KeyOf(n)}
                               else old(cache.entries)
    {
      var r := PeekScriptHash(Some(n), ScriptOf(n));
      h := r.value;
    }

    /**
     * `GetRegisteredScriptByName`: a registered name resolves to its
     * producer; an unregistered LocalText name whose package and culture
     * validate gets its producer registered and resolves to it; any other
     * name resolves to nothing and registers nothing.
     */
    method GetRegisteredScriptByName(name: string) returns (r: Option<DynamicScript>)
      requires Valid()
      modifies this`registeredScripts
      ensures Valid()
      ensures r == old(Resolve(name)) && r == Resolve(name)
      ensures registeredScripts == old(RegistryAfterLookup(name))
    {
      var key := FoldCase(name);
      if key in registeredScripts {
        return Some(registeredScripts[key].script);
      }
      if !StartsWithIgnoreCase(name, LocalTextPrefix) {
        return None;
      }
      var parts := Split(name, '.');
      if |parts| == 4 && localTextPackages.Some? && parts[1] in localTextPackages.value
        && IsKnownCulture(parts[2], systemCultures)
      {
        var includes := localTextPackages.value[parts[1]];
        var req := LocalTextRequest(parts[1], includes, parts[2], EqualsIgnoreCase(parts[3], "Pending"));
        var _ := IfNotRegistered(name, makeLocalText(req));
        if key in registeredScripts {
          return Some(registeredScripts[key].script);
        }
      }
      r := None;
    }

    /** `CheckScriptRights`: an unresolvable name passes; a resolved one passes exactly when its producer grants access. */
    method CheckScriptRights(name: string, rightsGranted: bool) returns (r: Outcome<ScriptError>)
      requires Valid()
      modifies this`registeredScripts
      ensures Valid()
      ensures r == if old(Resolve(name)).Some? && !rightsGranted then Fail(AccessDenied) else Pass
      ensures registeredScripts == old(RegistryAfterLookup(name))
    {
      var script := GetRegisteredScriptByName(name);
      if script.Some? && !rightsGranted {
        return Fail(AccessDenied);
      }
      r := Pass;
    }

    /**
     * `GetScriptText`: not found for a name that does not resolve; otherwise
     * the text of the fresh cached rendering, or of a new rendering, with
     * the cache and the clock left as `EnsureScriptContent` leaves them.
     */
    method GetScriptText(name: string, rendered: Option<string>) returns (r: Lookup<string>)
      requires Valid()
      modifies this`registeredScripts, this`clock, cache
      ensures Valid()
      ensures registeredScripts == old(RegistryAfterLookup(name))
      ensures r == NotFound <==> old(Resolve(name)) == None
      ensures old(Resolve(name)) == None ==> cache.entries == old(cache.entries) && clock == old(clock)
      ensures old(Resolve(name)) != None ==>
        var (served, entries, ticks) := old(Ensured(name, Resolve(name).value, rendered));
        && cache.entries == entries && clock == ticks
        && r == if served.Ok? then Found(Decode(served.value.content)) else Failed(served.error)
      ensures old(Resolve(name)) != None ==>
        var key := CacheKey(name, old(Resolve(name)).value.cacheSuffix);
        match old(FreshEntry(name, key))
        case Some(c) => r == Found(Decode(c.content))
        case None => r == if rendered == None then Failed(RenderFailed) else Found(rendered.value)
    {
      var script := GetRegisteredScriptByName(name);
      if script == None {
        return NotFound;
      }
      var content := EnsureScriptContent(name, script.value, rendered);
      if content.Err? {
        return Failed(content.error);
      }
      r := Found(Decode(content.value.content));
    }

    /**
     * `ReadScriptContent`: not found for a name that does not resolve; access
     * is checked on every call, before any cache access; then the script's
     * content is ensured.
     */
    method ReadScriptContent(name: string, rightsGranted: bool, rendered: Option<string>)
      returns (r: Lookup<ScriptContent>)
      requires Valid()
      modifies this`registeredScripts, this`clock, cache
      ensures Valid()
      ensures registeredScripts == old(RegistryAfterLookup(name))
      ensures r == NotFound <==> old(Resolve(name)) == None
      ensures old(Resolve(name)) == None ==> cache.entries == old(cache.entries) && clock == old(clock)
      ensures old(Resolve(name)) != None && !rightsGranted ==>
        r == Failed(AccessDenied) && cache.entries == old(cache.entries) && clock == old(clock)
      ensures old(Resolve(name)) != None && rightsGranted ==>
        var (served, entries, ticks) := old(Ensured(name, Resolve(name).value, rendered));
        && cache.entries == entries && clock == ticks
        && r == if served.Ok? then Found(served.value) else Failed(served.error)
    {
      var script := GetRegisteredScriptByName(name);
      if script == None {
        return NotFound;
      }
      if !rightsGranted {
        return Failed(AccessDenied);
      }
      var content := EnsureScriptContent(name, script.value, rendered);
      if content.Err? {
        return Failed(content.error);
      }
      r := Found(content.value);
    }

    /**
     * `GetScriptInclude`: the name itself when it does not resolve;
     * otherwise `name + extension + "?v=" + token`, the token coming from
     * `PeekScriptHash`.
     */
    method GetScriptInclude(name: string, extension: string) returns (r: string)
      requires Valid()
      modifies this`registeredScripts, this`clock, cache
      ensures Valid()
      ensures registeredScripts == old(RegistryAfterLookup(name))
      ensures r == name <==> old(Resolve(name)) == None
      ensures old(Resolve(name)) == None ==> cache.entries == old(cache.entries) && clock == old(clock)
      ensures old(Resolve(name)) != None ==>
        var (token, entries, ticks) := old(Peeked(name, Resolve(name).value));
        r == name + extension + "?v=" + token && cache.entries == entries && clock == ticks
      ensures Shrunk(old(cache.entries), cache.entries)
    {
      var script := GetRegisteredScriptByName(name);
      if script == None {
        return name;
      }
      var hash := PeekScriptHash(Some(name), script.value);
      r := name + extension + "?v=" + hash.value;
      assert |r| > |name|;
    }
  }
}
