/**
 * The requests the `LocalText` script tests send, and the change-then-read
 * sequence the staleness rule exists for, stated against the model.
 */
module DynamicScriptScenarios {
  import opened Basics
  import opened Strings
  import opened Utf8
  import opened TwoLevelCaching
  import opened DynamicScripts

  /** The package configuration of the tests: one package, `Site`. */
  const SitePattern: string := "^(Controls|Db|Dialogs|Enums|Forms|Permission|Site|Validation)\\."
  const SitePackages: Option<map<string, string>> := Some(map["Site" := SitePattern])

  /** Four dot-free parts joined by dots split back into those parts. */
  lemma SplitOfFour(a: string, b: string, c: string, d: string)
    requires '.' !in a && '.' !in b && '.' !in c && '.' !in d
    ensures Split(a + "." + b + "." + c + "." + d, '.') == [a, b, c, d]
  {
    var parts := [a, b, c, d];
    JoinOfFour(parts, '.');
    SplitJoin(parts, '.');
  }

  /** How a `LocalText.<package>.<culture>.<flag>` name resolves, for dot-free parts. */
  lemma LocalTextNameOfParts(package: string, culture: string, flag: string,
                             packages: Option<map<string, string>>, systemCultures: set<string>)
    requires '.' !in package && '.' !in culture && '.' !in flag
    ensures LocalTextName("LocalText" + "." + package + "." + culture + "." + flag, packages, systemCultures)
      == if packages.Some? && package in packages.value && IsKnownCulture(culture, systemCultures)
         then Some(LocalTextRequest(package, packages.value[package], culture, EqualsIgnoreCase(flag, "Pending")))
         else None
  {
    var name := "LocalText" + "." + package + "." + culture + "." + flag;
    SplitOfFour("LocalText", package, culture, flag);
    LocalTextPrefixOf(package, culture, flag);
    LocalTextNameOfSplit(name, ["LocalText", package, culture, flag], packages, systemCultures);
  }

  /** A name built from `LocalText.` starts with the prefix. */
  lemma LocalTextPrefixOf(package: string, culture: string, flag: string)
    ensures StartsWithIgnoreCase("LocalText" + "." + package + "." + culture + "." + flag, LocalTextPrefix)
  {
    var name := "LocalText" + "." + package + "." + culture + "." + flag;
    assert name[..|LocalTextPrefix|] == LocalTextPrefix;
  }

  /** One unfolding of `LocalTextName` for a prefixed name of four parts. */
  lemma LocalTextNameOfSplit(name: string, parts: seq<string>,
                             packages: Option<map<string, string>>, systemCultures: set<string>)
    requires StartsWithIgnoreCase(name, LocalTextPrefix) && Split(name, '.') == parts && |parts| == 4
    ensures LocalTextName(name, packages, systemCultures)
      == if packages.Some? && parts[1] in packages.value && IsKnownCulture(parts[2], systemCultures)
         then Some(LocalTextRequest(parts[1], packages.value[parts[1]], parts[2], EqualsIgnoreCase(parts[3], "Pending")))
         else None
  {
  }

  lemma PublicName()
    ensures "LocalText.Site.en-US.Public" == "LocalText" + "." + "Site" + "." + "en-US" + "." + "Public"
  {
  }

  lemma PendingName()
    ensures "LocalText.Site.en-US.pending" == "LocalText" + "." + "Site" + "." + "en-US" + "." + "pending"
  {
  }

  lemma InvalidCultureName()
    ensures "LocalText.Site.invalid-S.Public" == "LocalText" + "." + "Site" + "." + "invalid-S" + "." + "Public"
  {
  }

  lemma InvalidPackageName()
    ensures "LocalText.Invalid.en-US.Public" == "LocalText" + "." + "Invalid" + "." + "en-US" + "." + "Public"
  {
  }

  lemma EnUsIsKnown(systemCultures: set<string>)
    ensures IsKnownCulture("en-US", systemCultures)
  {
    assert "en-US" in KnownCultureIdentifiers;
  }

  /** `LocalText.Site.en-US.Public` names the public texts of package `Site` in culture `en-US`. */
  lemma SiteEnUsPublicResolves(systemCultures: set<string>)
    ensures LocalTextName("LocalText.Site.en-US.Public", SitePackages, systemCultures)
            == Some(LocalTextRequest("Site", SitePattern, "en-US", false))
  {
    PublicName();
    LocalTextNameOfParts("Site", "en-US", "Public", SitePackages, systemCultures);
    EnUsIsKnown(systemCultures);
    PublicFlag();
  }

  lemma PublicFlag()
    ensures !EqualsIgnoreCase("Public", "Pending")
  {
    assert FoldCase("Public")[1] != FoldCase("Pending")[1];
  }

  /** The flag part is compared ignoring case: `pending` asks for pending texts. */
  lemma SiteEnUsPendingResolves(systemCultures: set<string>)
    ensures LocalTextName("LocalText.Site.en-US.pending", SitePackages, systemCultures)
            == Some(LocalTextRequest("Site", SitePattern, "en-US", true))
  {
    PendingFlag();
    PendingName();
    LocalTextNameOfParts("Site", "en-US", "pending", SitePackages, systemCultures);
    EnUsIsKnown(systemCultures);
  }

  lemma PendingFlag()
    ensures EqualsIgnoreCase("pending", "Pending")
  {
    assert "pending" == ['p'] + "ending" && "Pending" == ['P'] + "ending";
    FirstLetterIgnoringCase('p', 'P', "ending");
  }

  lemma FirstLetterIgnoringCase(x: char, y: char, rest: string)
    requires ToUpperChar(x) == ToUpperChar(y)
    ensures EqualsIgnoreCase([x] + rest, [y] + rest)
  {
    assert forall i | 0 <= i < |rest| + 1 :: FoldCase([x] + rest)[i] == FoldCase([y] + rest)[i];
  }

  /** No known culture identifier is longer than five characters. */
  lemma KnownCulturesShort()
    ensures forall k | k in KnownCultureIdentifiers :: |k| <= 5
  {
  }

  /** An unknown culture does not resolve. */
  lemma InvalidCultureDoesNotResolve(systemCultures: set<string>)
    requires forall k | k in systemCultures :: !EqualsIgnoreCase(k, "invalid-S")
    ensures LocalTextName("LocalText.Site.invalid-S.Public", SitePackages, systemCultures) == None
  {
    InvalidCultureName();
    LocalTextNameOfParts("Site", "invalid-S", "Public", SitePackages, systemCultures);
    InvalidCultureNotKnown();
  }

  /** `invalid-S` is, ignoring case, none of the known culture identifiers. */
  lemma InvalidCultureNotKnown()
    ensures forall k | k in KnownCultureIdentifiers :: !EqualsIgnoreCase(k, "invalid-S")
  {
    KnownCulturesShort();
    forall k | k in KnownCultureIdentifiers ensures !EqualsIgnoreCase(k, "invalid-S") {
      assert |FoldCase(k)| != |FoldCase("invalid-S")|;
    }
  }

  /** A package that is not configured does not resolve. */
  lemma InvalidPackageDoesNotResolve(systemCultures: set<string>)
    ensures LocalTextName("LocalText.Invalid.en-US.Public", SitePackages, systemCultures) == None
  {
    InvalidPackageName();
    LocalTextNameOfParts("Invalid", "en-US", "Public", SitePackages, systemCultures);
    assert "Invalid" !in SitePackages.value;
  }

  /** A name without the `LocalText.` prefix does not resolve. */
  lemma InvalidPrefixDoesNotResolve(systemCultures: set<string>)
    ensures LocalTextName("InvalidPrefix.Site.en-US.Public", SitePackages, systemCultures) == None
  {
    var name := "InvalidPrefix.Site.en-US.Public";
    var head := name[..|LocalTextPrefix|];
    assert head[0] == 'I';
    assert FoldCase(head)[0] == 'I' && FoldCase(LocalTextPrefix)[0] == 'L';
  }

  /**
   * After `Changed`, the next read renders the script anew, even though a
   * rendering made before the change is still cached.
   */
  method ChangedForcesRerender(m: DynamicScriptManager, name: string, script: DynamicScript,
                               before: string, after: string)
    returns (first: Result<ScriptContent, ScriptError>, second: Result<ScriptContent, ScriptError>)
    requires m.Valid()
    modifies m, m.cache
    ensures first.Ok? && second.Ok?
    ensures Decode(second.value.content) == after
    ensures m.Valid()
  {
    first := m.EnsureScriptContent(name, script, Some(before));
    var _ := m.Changed(Some(name));
    second := m.EnsureScriptContent(name, script, Some(after));
  }

  /** Without a change in between, the second read serves the first rendering. */
  method RepeatedReadIsCached(m: DynamicScriptManager, name: string, script: DynamicScript,
                              before: string, after: string)
    returns (first: Result<ScriptContent, ScriptError>, second: Result<ScriptContent, ScriptError>)
    requires m.Valid()
    modifies m, m.cache
    ensures first.Ok? && second == first
    ensures Decode(second.value.content) == before || !old(m.FreshEntry(name, CacheKey(name, script.cacheSuffix))).None?
  {
    first := m.EnsureScriptContent(name, script, Some(before));
    second := m.EnsureScriptContent(name, script, Some(after));
  }

  /**
   * Two `GetScriptText` calls with no change in between give the same text:
   * the second is served from what the first cached, so a rendering
   * offered the second time is not used.
   */
  method RepeatedTextIsCached(m: DynamicScriptManager, name: string, before: string, after: string)
    returns (first: Lookup<string>, second: Lookup<string>)
    requires m.Valid() && m.Resolve(name).Some?
    modifies m, m.cache
    ensures first.Found? && second == first
    ensures first == Found(before) || old(m.FreshEntry(name, CacheKey(name, m.Resolve(name).value.cacheSuffix))).Some?
  {
    first := m.GetScriptText(name, Some(before));
    second := m.GetScriptText(name, Some(after));
  }
}
