# Serenity core, modelled in Dafny

This project models four parts of the Serenity application framework and
proves properties of the model.

- **`DynamicScriptManager`**, the registry of dynamic scripts. It holds a
  registry of script producers whose names compare ignoring case. It holds
  a change log whose names compare ordinally, and a list of change
  subscribers. It serves scripts from a two-level cache under a staleness
  rule. A rendering made at or before the script's last change is stale.
  `EnsureScriptContent` removes a stale rendering and renders once more.
  `PeekScriptHash` mints a version token and never renders.
  `LocalText.<package>.<culture>.<flag>` producers are created lazily once
  the package and the culture validate.
- **`FileUploadBehavior`**, the behaviour behind upload editor fields.
  `ActivateFor` checks the field and the row and derives the filename
  format; a missing format defaults to the row type's name. The parser
  reads the `|field|` and `|field:format|` placeholders.
  `ProcessReplaceFields` replaces the placeholders. `OnBeforeSave` decides
  whether to keep, clear, reject or accept the new filename.
  `DeleteOldFile` registers an old file and archives it. `OnAfterDelete`
  sends a deleted row's file to `DeleteOldFile`.
- **`MultipleOutputHelper.WriteFiles`**, the code generator's writer. It
  skips a file whose content is already there, compared after trimming and
  dropping carriage returns. It converts line endings as asked. It then
  deletes the files that match the delete patterns under the output root
  and were not generated in the call.
- **`BaseUserRetrieveService`**, user lookups by id and by user name.
  Lookups are cache-aside under one cache group. Invalid input never
  reaches the cache. The removal operations delete exactly the keys the
  lookups use.

Modules:

- `Basics`: `Option`, `Result`, `Outcome`.
- `Strings`: the .NET string operations the core calls.
  - `Trim` over .NET white space.
  - `Split`, `Join` and `Replace`.
  - Ordinal comparison, ignore-case comparison and `ToLowerInvariant`.
  - Number formatting.
- `Utf8`: an encoder and a decoder proved to round-trip.
- `TwoLevelCaching`: the local store of `ITwoLevelCache`.
- `DynamicScripts` and `DynamicScriptScenarios`: the manager, and the
  requests of the LocalText tests.
- `UploadFormat` and `FileUploads`: the filename format, and the
  behaviour.
- `MultipleOutput`: the file writer.
- `UserRetrieve`: the user lookup service.

State the source changes in place is a class with `modifies` clauses:
- the manager;
- the cache;
- the upload storage;
- the save and delete handlers;
- the behaviour's activation fields;
- the file system;
- the user service.

The collaborators are plain state. The cache is one map from key to
value and group; `TryGet` reads it. The upload storage is a set of files, a
list of archived files and a map of original names; `FileExists` and
`GetOriginalName` read them. The file system is a set of directories and a
map from file to text; `FileExists`, `DirectoryExists` and `ReadAllText`
read them.

Each such method is proved against a pure specification function, and the
properties are proved about those functions:
- `Peeked` for `PeekScriptHash`, `GetScriptInclude` and the tokens of
  `GetRegisteredScripts`;
- `Ensured` for `EnsureScriptContent`, `GetScriptText` and
  `ReadScriptContent`;
- `RegistryAfterLookup` for the registry that every lookup by name leaves;
- `Activate` for `ActivateFor`;
- `DecideSave` for `OnBeforeSave`;
- `ReplaceFieldsOf` for `ParseReplaceFields`;
- `ReplaceAll` for `ProcessReplaceFields`;
- `WriteStep`, `WriteAll` and `Doomed` for `WriteFiles`.

What the model reads as inputs:

- **The clock.** `DateTime.UtcNow` is a counter that every reading
  advances.
- **Producers and collaborators.** These are inputs of the operations that
  call them:
  - what a producer renders, `None` when rendering throws;
  - whether `CheckRights` grants access;
  - the path `CopyTemporaryFile` returns;
  - the loaders of the user service.
- **Foreign functions.** These are fixed functions held in `const` fields
  or parameters:
  - `ScriptContent.Hash`;
  - `string.GetHashCode`;
  - `CultureInfo.GetCultures`;
  - `FindFieldByPropertyName ?? FindField`;
  - the filename sanitizer;
  - `string.Format` of a field value;
  - `PathHelper.ToUrl`;
  - `GetFullPath`, `Combine`, `GetDirectoryName`;
  - the pattern match of `GetFiles`.

The model follows the code in these places:

- `ByUsername` validates its argument with `IsValidUserId`, as the code
  does.
- `Changed` rejects only a missing name; the empty name is stamped.
- `Reset` stamps every registered name and notifies no subscriber.
- In `OnBeforeSave`, the early return for a blank old filename in the
  clearing branch can never run. A filename is cleared only when it
  differs from the old one after trimming, so the old filename is never
  blank there. `FileUploads.ClearingHasOldFile` proves this.

## Model

| member | source | states |
|---|---|---|
| DynamicScripts.DynamicScriptManager.constructor | src/Serenity.Net.Web/DynamicScript/DynamicScript/DynamicScriptManager.cs:24-27 | the registry starts with `RegisteredScripts` only, and the change log and subscriber list start empty |
| DynamicScripts.DynamicScriptManager.Create | src/Serenity.Net.Web/DynamicScript/DynamicScript/DynamicScriptManager.cs:18-28 | a null cache, permission service or text registry is an argument-null error, and the other arguments may be null; otherwise the fresh manager is valid and lists only `RegisteredScripts` |
| DynamicScripts.DynamicScriptManager.IsRegistered | src/Serenity.Net.Web/DynamicScript/DynamicScript/DynamicScriptManager.cs:53-56 | true exactly when some registered name equals the argument ignoring case |
| DynamicScripts.DynamicScriptManager.Changed | src/Serenity.Net.Web/DynamicScript/DynamicScript/DynamicScriptManager.cs:58-65 | a null name fails and changes nothing; any other name, the empty one included, is stamped with the current instant, every subscriber is told in order, and every cached rendering becomes stale for that name |
| DynamicScripts.NotifyAppend | src/Serenity.Net.Web/DynamicScript/DynamicScript/DynamicScriptManager.cs:64 | the handlers of an invocation list made of two parts are told in the order of the parts |
| DynamicScripts.DynamicScriptManager.IfNotRegistered | src/Serenity.Net.Web/DynamicScript/DynamicScript/DynamicScriptManager.cs:67-70 | the callback runs exactly when no name equal ignoring case is registered; an existing registration is left untouched |
| DynamicScripts.DynamicScriptManager.Register | src/Serenity.Net.Web/DynamicScript/DynamicScript/DynamicScriptManager.cs:77-82 | a null name or script fails and leaves the registry unchanged; otherwise the script replaces the earlier producer under that name, compared ignoring case, and the name now resolves to it |
| DynamicScripts.DynamicScriptManager.GetRegisteredScripts | src/Serenity.Net.Web/DynamicScript/DynamicScript/DynamicScriptManager.cs:84-96 | the keys are the registered names except `RegisteredScripts`; a name with no fresh cached rendering gets a fallback token; a name with one gets its hash, unless a name sharing its cache key dropped the entry first, when it gets a fallback token; the cache loses exactly the keys of the names without a fresh rendering (`Dropped`), so no entry is created or replaced and every fresh entry stays |
| DynamicScripts.CacheKeyInjective | src/Serenity.Net.Web/DynamicScript/DynamicScript/DynamicScriptManager.cs:108-110 | for names without a colon, two scripts share a cache key only when their names and their cache suffixes agree |
| DynamicScripts.DynamicScriptManager.ColonFreeNamesOwnKeys | src/Serenity.Net.Web/DynamicScript/DynamicScript/DynamicScriptManager.cs:108-110 | when no registered name has a colon, no two registered names share a cache key |
| DynamicScripts.DynamicScriptManager.ColonFreeTokenExact | src/Serenity.Net.Web/DynamicScript/DynamicScript/DynamicScriptManager.cs:84-96 | when no registered name has a colon, every token `GetRegisteredScripts` reports is the hash of the fresh cached rendering, or a fallback token exactly when there is none |
| DynamicScripts.DynamicScriptManager.PeekScriptHash | src/Serenity.Net.Web/DynamicScript/DynamicScript/DynamicScriptManager.cs:103-141 | a null name fails; otherwise the token, cache and clock are what `Peeked` gives: a fresh cached rendering gives its hash and nothing changes; otherwise a stale entry is removed, the clock is read once and the fallback is minted: the suffix hash after `-` when the script has a suffix, else the tick count; it never renders or stores |
| DynamicScripts.NewContent | src/Serenity.Net.Web/DynamicScript/DynamicScript/DynamicScriptManager.cs:152-156 | a rendering's bytes decode back to the rendered text, it carries the instant it was made, and it may be compressed exactly when it is longer than 4096 bytes |
| Utf8.DecodeEncode | src/Serenity.Net.Web/DynamicScript/DynamicScript/DynamicScriptManager.cs:154 | UTF-8 encoding then decoding gives back the text, so `GetScriptText` returns what was rendered (for text of Unicode scalar values) |
| DynamicScripts.DynamicScriptManager.GetOrCreate | src/Serenity.Net.Web/DynamicScript/DynamicScript/DynamicScriptManager.cs:160-166 | a cached entry is returned and nothing changes; otherwise the rendering is stored under the script's group, or a rendering error leaves the cache alone |
| DynamicScripts.DynamicScriptManager.EnsureScriptContent | src/Serenity.Net.Web/DynamicScript/DynamicScript/DynamicScriptManager.cs:143-181 | what is served, the cache and the clock are what `Ensured` gives: a fresh cached rendering is served unchanged; a stale or missing one is removed and the script rendered and stored once more under its group; what is served is never stale |
| DynamicScripts.DynamicScriptManager.Reset | src/Serenity.Net.Web/DynamicScript/DynamicScript/DynamicScriptManager.cs:183-187 | every registered name is stamped with an instant of the call and makes every cached rendering stale; the other names keep their stamps, and no subscriber is told |
| DynamicScripts.DynamicScriptManager.CheckScriptRights | src/Serenity.Net.Web/DynamicScript/DynamicScript/DynamicScriptManager.cs:189-193 | an unresolvable name passes; a resolved one fails exactly when its producer denies access; the registry is left as the lookup leaves it (`RegistryAfterLookup`) |
| DynamicScripts.DynamicScriptManager.GetScriptText | src/Serenity.Net.Web/DynamicScript/DynamicScript/DynamicScriptManager.cs:195-202 | not found exactly when the name does not resolve, and then the cache and clock are unchanged; otherwise the text of the fresh cached rendering or exactly the newly rendered text, with the cache and clock as `Ensured` leaves them; the registry as the lookup leaves it |
| DynamicScripts.DynamicScriptManager.GetScriptInclude | src/Serenity.Net.Web/DynamicScript/DynamicScript/DynamicScriptManager.cs:204-212 | the name itself exactly when it does not resolve, and then the cache and clock are unchanged; otherwise `name + extension + "?v=" + token`, with the token, cache and clock as `PeekScriptHash` leaves them; the registry as the lookup leaves it |
| DynamicScripts.DynamicScriptManager.GetRegisteredScriptByName | src/Serenity.Net.Web/DynamicScript/DynamicScript/DynamicScriptManager.cs:214-238 | a registered name gives its producer; an unregistered LocalText name that validates registers its producer and gives it; any other name gives nothing and registers nothing (the new registry is `RegistryAfterLookup`) |
| DynamicScripts.LocalTextNameIff | src/Serenity.Net.Web/DynamicScript/DynamicScript/DynamicScriptManager.cs:219-230 | an unregistered name resolves exactly when it starts with `LocalText.` ignoring case, has four dot-separated parts, names a configured package and names a known culture; the request carries those parts, the package's includes, and the pending flag given by the fourth part matching `Pending` ignoring case |
| Strings.SplitCount | src/Serenity.Net.Web/DynamicScript/DynamicScript/DynamicScriptManager.cs:222-223 | splitting gives one more part than there are separators, so four parts means three dots |
| Strings.JoinSplit | src/Serenity.Net.Web/DynamicScript/DynamicScript/DynamicScriptManager.cs:222 | joining the parts of a split with the separator gives back the string |
| Strings.SplitJoin | src/Serenity.Net.Web/DynamicScript/DynamicScript/DynamicScriptManager.cs:222 | splitting separator-free parts joined by the separator gives back the parts |
| DynamicScripts.DynamicScriptManager.ReadScriptContent | src/Serenity.Net.Web/DynamicScript/DynamicScript/DynamicScriptManager.cs:240-248 | not found exactly when the name does not resolve; a denied check fails before any cache access; otherwise the content, cache and clock as `Ensured` gives them; in every case the registry as the lookup leaves it |
| DynamicScripts.DynamicScriptManager.Subscribe | src/Serenity.Net.Web/DynamicScript/DynamicScript/DynamicScriptManager.cs:252-256 | the handler joins the end of the invocation list |
| DynamicScripts.DynamicScriptManager.Unsubscribe | src/Serenity.Net.Web/DynamicScript/DynamicScript/DynamicScriptManager.cs:257-261 | the last occurrence of the handler leaves the invocation list |
| DynamicScripts.RemoveLastMultiset | src/Serenity.Net.Web/DynamicScript/DynamicScript/DynamicScriptManager.cs:257-261 | removing a handler takes exactly one copy of it out of the list, when there is one |
| DynamicScripts.NotifyAfterRemoveLast | src/Serenity.Net.Web/DynamicScript/DynamicScript/DynamicScriptManager.cs:257-261 | once a handler is removed, a change tells that handler once less and every other handler as often as before |
| DynamicScripts.SubscribeThenUnsubscribe | src/Serenity.Net.Web/DynamicScript/DynamicScript/DynamicScriptManager.cs:252-261 | unsubscribing right after subscribing restores the list |
| DynamicScriptScenarios.SiteEnUsPublicResolves | tests/Serenity.Net.Web.Tests/DynamicScript/DynamicScriptTests.LocalTexts.cs:15-20 | with package `Site` configured, `LocalText.Site.en-US.Public` asks for the public texts of `Site` in `en-US` |
| DynamicScriptScenarios.SiteEnUsPendingResolves | src/Serenity.Net.Web/DynamicScript/DynamicScript/DynamicScriptManager.cs:230 | the flag `pending` in any casing asks for pending texts |
| DynamicScriptScenarios.InvalidCultureDoesNotResolve | tests/Serenity.Net.Web.Tests/DynamicScript/DynamicScriptTests.LocalTexts.cs:43-48 | `invalid-S` is not a known culture, so `LocalText.Site.invalid-S.Public` resolves to nothing |
| DynamicScriptScenarios.InvalidPackageDoesNotResolve | tests/Serenity.Net.Web.Tests/DynamicScript/DynamicScriptTests.LocalTexts.cs:51-56 | an unconfigured package does not resolve |
| DynamicScriptScenarios.InvalidPrefixDoesNotResolve | tests/Serenity.Net.Web.Tests/DynamicScript/DynamicScriptTests.LocalTexts.cs:59-64 | a name without the `LocalText.` prefix does not resolve |
| DynamicScriptScenarios.ChangedForcesRerender | src/Serenity.Net.Web/DynamicScript/DynamicScript/DynamicScriptManager.cs:168-180 | after `Changed`, the next read serves a new rendering even though the one made before the change is still cached |
| DynamicScriptScenarios.RepeatedReadIsCached | src/Serenity.Net.Web/DynamicScript/DynamicScript/DynamicScriptManager.cs:168-180 | with no change in between, a second read serves what the first served |
| DynamicScriptScenarios.RepeatedTextIsCached | src/Serenity.Net.Web/DynamicScript/DynamicScript/DynamicScriptManager.cs:195-202 | two `GetScriptText` calls with no change in between give the same text, the first call's rendering when nothing fresh was cached |
| TwoLevelCaching.TwoLevelCache.Set | src/Serenity.Net.Web/DynamicScript/DynamicScript/DynamicScriptManager.cs:162-165 | a created value is stored under its key and group |
| TwoLevelCaching.TwoLevelCache.Remove | src/Serenity.Net.Web/DynamicScript/DynamicScript/DynamicScriptManager.cs:124-127 | exactly the given key leaves the cache |
| TwoLevelCaching.WithoutGroupIdempotent | common-features/src/extensions/Modules/Authorization/BaseUserRetrieveService.cs:50 | expiring a group twice is expiring it once |
| TwoLevelCaching.WithoutGroupAfterSet | common-features/src/extensions/Modules/Authorization/BaseUserRetrieveService.cs:31-50 | an entry stored under the group is gone after the group expires, and an entry stored under another group survives it |
| TwoLevelCaching.TwoLevelCache.ExpireGroupItems | common-features/src/extensions/Modules/Authorization/BaseUserRetrieveService.cs:50 | the cache keeps exactly the entries of other groups |
| FileUploads.FileUploadBehavior.constructor | src/Serenity.Net.Web/Upload/FileUploadBehavior.cs:17-34 | the behaviour holds its storage, processor and sanitizer, and nothing is activated yet |
| FileUploads.FileUploadBehavior.Create | src/Serenity.Net.Web/Upload/FileUploadBehavior.cs:26-28 | a null storage fails first, then a null upload processor; a missing sanitizer falls back to the default one |
| FileUploads.OriginalNameFieldOf | src/Serenity.Net.Web/Upload/FileUploadBehavior.cs:62-74 | no original-name field exactly when the property is null or empty; otherwise it is the string field the row finds for that property, an error when the row has none |
| FileUploads.ActivationIff | src/Serenity.Net.Web/Upload/FileUploadBehavior.cs:37-88 | activation succeeds exactly when the field has an enabled, single-file upload editor, is a string field of an id row, its original-name field resolves, and its format parses; it declines exactly when the target has no such editor; a success records the field and row names, a format without `~`, and the parsed placeholders |
| FileUploads.FileUploadBehavior.ActivateFor | src/Serenity.Net.Web/Upload/FileUploadBehavior.cs:37-88 | the result and the new activation fields are those `Activate` gives from the old ones, checks made in the source's order |
| FileUploads.DefaultActivation | src/Serenity.Net.Web/Upload/FileUploadBehavior.cs:76-86 | an eligible field without file options on a row type whose name has no bar activates, with the expanded default format and no placeholders |
| FileUploads.OddBarsFailActivation | src/Serenity.Net.Web/Upload/FileUploadBehavior.cs:85-86 | a format with an odd number of bars makes activation fail |
| UploadFormat.DefaultFilenameFormat | src/Serenity.Net.Web/Upload/FileUploadBehavior.cs:77-83 | the default format ends in `/~` |
| UploadFormat.ExpandFormatProperties | src/Serenity.Net.Web/Upload/FileUploadBehavior.cs:85 | no `~` survives the expansion, and it adds no bar |
| UploadFormat.DefaultFormatExpanded | src/Serenity.Net.Web/Upload/FileUploadBehavior.cs:76-85 | the default format is the type name without a trailing `Row`, a slash, and `{1:00000}/{0:00000000}_{2}` |
| UploadFormat.DefaultFormatHasNoPlaceholders | src/Serenity.Net.Web/Upload/FileUploadBehavior.cs:79-93 | for a row type name without a bar, the default format has no placeholders, so the parser gives nothing |
| UploadFormat.DefaultFormatOfCustomerRow | src/Serenity.Net.Web/Upload/FileUploadBehavior.cs:79-85 | `CustomerRow` files are split by id under `Customer/` |
| UploadFormat.ParseReplaceFields | src/Serenity.Net.Web/Upload/FileUploadBehavior.cs:90-128 | the scanning loop produces what `ReplaceFieldsOf` gives: nothing without a bar, the first error met, or the placeholder dictionary in scanning order |
| UploadFormat.ReplaceFieldsOfShape | src/Serenity.Net.Web/Upload/FileUploadBehavior.cs:92-122 | the parser gives nothing exactly for a format without a bar; a dictionary it gives has, for every placeholder, the key made of that placeholder between two bars, and no other key, each mapped to the field that its name before any colon finds |
| UploadFormat.FieldsOfOkIff | src/Serenity.Net.Web/Upload/FileUploadBehavior.cs:98-121 | parsing succeeds exactly when the bars pair up and every placeholder is non-empty and names a field of the row |
| UploadFormat.OddBarsRejected | src/Serenity.Net.Web/Upload/FileUploadBehavior.cs:100-107 | an unmatched final bar is always an error |
| UploadFormat.EvenPartsRejected | src/Serenity.Net.Web/Upload/FileUploadBehavior.cs:100-107 | when the bars split a format into an even number of pieces, the last bar has no partner, and parsing fails whatever was read before |
| UploadFormat.FieldsOfGet | src/Serenity.Net.Web/Upload/FileUploadBehavior.cs:115-122 | each placeholder's key maps to the field its name finds, and every other key keeps what it had |
| UploadFormat.FieldsOfKeys | src/Serenity.Net.Web/Upload/FileUploadBehavior.cs:122 | the parse adds exactly the placeholder keys |
| UploadFormat.ActualName | src/Serenity.Net.Web/Upload/FileUploadBehavior.cs:110-113 | the field name is the placeholder's prefix before its first colon, or the whole placeholder when it has no colon |
| UploadFormat.Get | src/Serenity.Net.Web/Upload/FileUploadBehavior.cs:170 | a dictionary lookup finds exactly the stored keys |
| UploadFormat.Put | src/Serenity.Net.Web/Upload/FileUploadBehavior.cs:122 | the dictionary indexer stores the field under the key and changes no other key |
| UploadFormat.ReplaceFieldsWellFormed | src/Serenity.Net.Web/Upload/FileUploadBehavior.cs:122 | every key the parser makes is a bar, a bar-free placeholder, and a bar |
| UploadFormat.StripKeyOfPlaceholder | src/Serenity.Net.Web/Upload/FileUploadBehavior.cs:173-184 | stripping a parsed key gives the field name it was parsed for; the value format is what follows the colon up to the closing bar, and there is none without a colon |
| UploadFormat.ProcessReplaceFields | src/Serenity.Net.Web/Upload/FileUploadBehavior.cs:130-194 | without placeholders the text comes back unchanged; a null sanitizer fails; otherwise every key is replaced in dictionary order by its sanitized value, and the result is sanitized once |
| UploadFormat.ReplaceAllAbsent | src/Serenity.Net.Web/Upload/FileUploadBehavior.cs:168-191 | a text that contains no key is changed only by the final sanitizing |
| FileUploads.KeepOldIff | src/Serenity.Net.Web/Upload/FileUploadBehavior.cs:222-228 | the old value is kept exactly when the old and new filenames agree once blank values count as null and the rest is trimmed |
| Strings.TrimmedSameIffTrimToNullEqual | src/Serenity.Net.Web/Upload/FileUploadBehavior.cs:224 | two values are trimmed-same exactly when they trim to the same value, blank counting as null |
| Strings.TrimToNull | src/Serenity.Net.Web/Upload/FileUploadBehavior.cs:222 | a null or blank value becomes null; any other value is trimmed and non-empty |
| FileUploads.ClearingHasOldFile | src/Serenity.Net.Web/Upload/FileUploadBehavior.cs:233-236 | a filename is cleared only when the old one is neither null nor blank, so the early return there never runs |
| FileUploads.AcceptedIsTemporary | src/Serenity.Net.Web/Upload/FileUploadBehavior.cs:246-247 | an accepted new filename is trimmed, non-empty, starts with `temporary/` ignoring case, and differs from the old one |
| FileUploads.OldFilesOf | src/Serenity.Net.Web/Upload/FileUploadBehavior.cs:265-267 | at most one old file is registered, and one exactly when the old filename is neither null nor empty |
| FileUploads.FileUploadBehavior.DeleteOldFile | src/Serenity.Net.Web/Upload/FileUploadBehavior.cs:263-275 | a non-empty old filename is registered for deletion; it is archived only when copying to history and when the file exists; no file is removed |
| FileUploads.FileUploadBehavior.OnBeforeSave | src/Serenity.Net.Web/Upload/FileUploadBehavior.cs:214-261 | a fresh files-to-delete list is registered with the unit of work and the state bag; an unchanged filename restores the old value; a cleared one empties the file and original-name fields; a name not under `temporary/` fails; an accepted one takes the stored original name, and on update the copied path; the old file is handed to `DeleteOldFile` unless kept |
| FileUploads.FileUploadBehavior.OnAfterDelete | src/Serenity.Net.Web/Upload/FileUploadBehavior.cs:278-290 | a row that is only marked deleted changes nothing; otherwise a fresh list is registered and the row's file goes to `DeleteOldFile` |
| FileUploads.UploadStorage.ArchiveFile | src/Serenity.Net.Web/Upload/FileUploadBehavior.cs:272 | the file is archived and stays stored |
| FileUploads.FilesToDelete.RegisterOldFile | src/Serenity.Net.Web/Upload/FileUploadBehavior.cs:267 | the file joins the end of the list of old files |
| MultipleOutput.NormalizeConvertEol | src/Serenity.Net.CodeGenerator/Helpers/MultipleOutputHelper.cs:28-48 | converting line endings never changes the compared form, so a file just written compares equal to its text |
| Strings.TrimRemoveCrCommute | src/Serenity.Net.CodeGenerator/Helpers/MultipleOutputHelper.cs:28-29 | dropping carriage returns after trimming is the same as trimming after dropping them |
| MultipleOutput.ConvertEolShape | src/Serenity.Net.CodeGenerator/Helpers/MultipleOutputHelper.cs:42-48 | `lf` in any casing writes no `\r`; `crlf` writes a text in which every `\n` follows a `\r` and every `\r` precedes a `\n`; any other setting writes the text as it is |
| MultipleOutput.AddCrIsCrlf | src/Serenity.Net.CodeGenerator/Helpers/MultipleOutputHelper.cs:46 | putting `\r` before each `\n` of a text without `\r` leaves only `\r\n` line ends |
| MultipleOutput.FileSystem.CreateDirectory | src/Serenity.Net.CodeGenerator/Helpers/MultipleOutputHelper.cs:33 | the directory exists afterwards; no file changes |
| MultipleOutput.FileSystem.WriteAllText | src/Serenity.Net.CodeGenerator/Helpers/MultipleOutputHelper.cs:48 | the file holds the text afterwards; nothing else changes |
| MultipleOutput.FileSystem.DeleteFile | src/Serenity.Net.CodeGenerator/Helpers/MultipleOutputHelper.cs:69 | exactly that file is gone |
| MultipleOutput.WriteFile | src/Serenity.Net.CodeGenerator/Helpers/MultipleOutputHelper.cs:23-48 | one pass of the writing loop changes the disk as `WriteStep` says |
| MultipleOutput.WriteStepEffect | src/Serenity.Net.CodeGenerator/Helpers/MultipleOutputHelper.cs:23-48 | after one pass the file exists with its text in compared form, skipped or written; a new file's parent directory exists; no other file changes and no directory goes |
| MultipleOutput.WriteStepIdempotent | src/Serenity.Net.CodeGenerator/Helpers/MultipleOutputHelper.cs:24-30 | writing the same file twice in a row changes nothing the second time |
| MultipleOutput.WriteAllContent | src/Serenity.Net.CodeGenerator/Helpers/MultipleOutputHelper.cs:19-49 | after all writes, every generated file that is not written again later holds its text in compared form |
| MultipleOutput.GeneratedMembers | src/Serenity.Net.CodeGenerator/Helpers/MultipleOutputHelper.cs:17-21 | the generated set holds exactly the URL forms of the generated paths, compared ignoring case |
| MultipleOutput.Candidates | src/Serenity.Net.CodeGenerator/Helpers/MultipleOutputHelper.cs:54-56 | the files the patterns list are existing files |
| MultipleOutput.OutRoot | src/Serenity.Net.CodeGenerator/Helpers/MultipleOutputHelper.cs:58 | the output root is the URL form of the directory with its trailing slashes, however many, replaced by exactly one |
| MultipleOutput.Doomed | src/Serenity.Net.CodeGenerator/Helpers/MultipleOutputHelper.cs:51-61 | only existing files are deleted |
| MultipleOutput.NoPatternNoDelete | src/Serenity.Net.CodeGenerator/Helpers/MultipleOutputHelper.cs:51-52 | without a delete pattern nothing is deleted |
| MultipleOutput.DoomedNotGenerated | src/Serenity.Net.CodeGenerator/Helpers/MultipleOutputHelper.cs:58-61 | a deleted file lies under the output root, and its path relative to the root differs, ignoring case, from every path generated in the call |
| MultipleOutput.DeleteExtraFiles | src/Serenity.Net.CodeGenerator/Helpers/MultipleOutputHelper.cs:58-70 | exactly the listed files under the output root whose relative path was not generated are deleted; nothing else changes |
| MultipleOutput.WriteFiles | src/Serenity.Net.CodeGenerator/Helpers/MultipleOutputHelper.cs:7-71 | a null file system fails; otherwise the output directory is created, the files are written as `WriteAll` says, the `Doomed` files and only they are deleted, and the rest keep what was written |
| UserRetrieve.UserRetrieveService.constructor | common-features/src/extensions/Modules/Authorization/BaseUserRetrieveService.cs:3-5 | the service holds its cache, group key and loaders |
| UserRetrieve.UserRetrieveService.Create | common-features/src/extensions/Modules/Authorization/BaseUserRetrieveService.cs:5 | a null cache fails; otherwise a fresh service over that cache |
| UserRetrieve.UserRetrieveService.ById | common-features/src/extensions/Modules/Authorization/BaseUserRetrieveService.cs:7-13 | a null or empty id gives no user and leaves the cache alone; otherwise a cached user is returned unchanged, or the loader's result is stored under the id key and the group |
| UserRetrieve.UserRetrieveService.ByUsername | common-features/src/extensions/Modules/Authorization/BaseUserRetrieveService.cs:15-21 | as `ById`, under the lowered user name key; the name is validated by `IsValidUserId` |
| UserRetrieve.IdCacheKeyInjective | common-features/src/extensions/Modules/Authorization/BaseUserRetrieveService.cs:26 | two ids share a cache entry exactly when they are equal |
| UserRetrieve.UsernameCacheKeyIgnoresCase | common-features/src/extensions/Modules/Authorization/BaseUserRetrieveService.cs:27 | two user names share a cache entry exactly when they are equal ignoring case |
| Strings.LowerEqIffEqualsIgnoreCase | common-features/src/extensions/Modules/Authorization/BaseUserRetrieveService.cs:27 | two strings lower to the same string exactly when they are equal ignoring case |
| UserRetrieve.KeysNeverCollide | common-features/src/extensions/Modules/Authorization/BaseUserRetrieveService.cs:26-27 | an id key never equals a user name key |
| UserRetrieve.UserRetrieveService.GetLocalStoreOnly | common-features/src/extensions/Modules/Authorization/BaseUserRetrieveService.cs:31-32 | a cached value is returned and nothing changes; on a miss the loader runs and its value is stored under the service's group |
| UserRetrieve.UserRetrieveService.GetCachedById | common-features/src/extensions/Modules/Authorization/BaseUserRetrieveService.cs:29-33 | the id loader runs only on a miss of the id key |
| UserRetrieve.UserRetrieveService.GetCachedByUsername | common-features/src/extensions/Modules/Authorization/BaseUserRetrieveService.cs:35-39 | the user name loader runs only on a miss of the lowered user name key |
| UserRetrieve.UserRetrieveService.RemoveAll | common-features/src/extensions/Modules/Authorization/BaseUserRetrieveService.cs:48-51 | every entry of the service's group goes, and every other entry stays |
| UserRetrieve.UserRetrieveService.RemoveCachedUser | common-features/src/extensions/Modules/Authorization/BaseUserRetrieveService.cs:53-60 | the id key goes for a valid id and the user name key for a valid user name; nothing else changes |
| UserRetrieve.RemovedUserMisses | common-features/src/extensions/Modules/Authorization/BaseUserRetrieveService.cs:53-60 | after `RemoveCachedUser`, the removed id and the user name in any casing miss, so the next lookup loads again |

## Left out

- Concurrency. The model is sequential and leaves out three things:
  - the atomicity of `ConcurrentDictionary`;
  - the lock around `ScriptChanged`;
  - races between renderings.
- Expiration in the two-level cache. Entries are never removed by time,
  `Expiration` and `GetCacheDuration` are not interpreted, and the
  distributed level is not modelled.
- The memory cache and the local store of the two-level cache are one map.
  Its entries carry a group tag, and an entry without a group is one
  stored through `Memory`.
- `GetRegisteredScriptNames` is not modelled; it is outside the core.
- `DynamicScriptManager`: the `localizer` constructor argument and the
  `RegisteredScripts` producer's own output are not modelled.
- `CheckRights` is an input: a boolean per call, not a permission service.
- DynamicScripts.DynamicScriptManager.IsRegistered: the name is never null.
  In the source a null name makes `ContainsKey` throw
  `ArgumentNullException`.
- DynamicScripts.DynamicScriptManager.IfNotRegistered: the name is never
  null, where the source's `GetOrAdd` throws `ArgumentNullException`. The
  callback is modelled by the producer it would make, and that producer is
  never null; the source stores whatever the callback returns, null
  included.
- FileUploads.FilesToDeleteKey: the state bag key starts with the fixed
  name `Serenity.Services.FileUploadBehavior`. The source uses
  `GetType().FullName`, which differs for a subclass of the behaviour.
- DynamicScripts.DynamicScriptManager.GetRegisteredScriptByName: the name
  is never null. In the source a null name makes `TryGetValue` throw
  `ArgumentNullException`; the same holds, through it, for
  `CheckScriptRights`, `GetScriptText`, `ReadScriptContent` and
  `GetScriptInclude`.
- DynamicScripts.DynamicScriptManager.CheckScriptRights: a null name, which
  throws in the source, is not modelled.
- DynamicScripts.DynamicScriptManager.GetScriptText: a null name, which
  throws in the source, is not modelled. Text is a sequence of Unicode
  scalar values; a .NET string with a lone surrogate, which `GetBytes`
  turns into U+FFFD, is not modelled, so "returns what was rendered" holds
  only for well-formed text.
- DynamicScripts.DynamicScriptManager.ReadScriptContent: a null name, which
  throws in the source, is not modelled.
- DynamicScripts.DynamicScriptManager.GetScriptInclude: a null name, which
  throws in the source, is not modelled, and the extension has no default;
  the source's default is `".js"`.
- DynamicScripts.DynamicScriptManager.EnsureScriptContent: the clock is a
  counter that strictly increases. `DateTime.UtcNow` can give a change and
  a later rendering the same instant, or go backwards; then the source
  serves a rendering that is stale by its own rule. "What is served is never
  stale", and `ChangedForcesRerender`, depend on the strict clock.
- `LocalTextScript` is not modelled. Its construction is the
  `makeLocalText` function of the resolved request.
- Ignoring case and `ToLowerInvariant` are modelled for ASCII letters only.
  Characters outside ASCII compare ordinally.
- MultipleOutput.WriteFiles: `StartsWith(outRoot)` compares by the
  current culture in the source; the model compares ordinally.
- MultipleOutput.WriteFiles: UTF-8 reading and writing with a byte order
  mark is not modelled. Files hold text.
- MultipleOutput.WriteFiles: the source lists candidate files lazily,
  after all writes. The model lists them after all writes too, as a set,
  so `Distinct` holds by construction.
- MultipleOutput.FileSystem.CreateDirectory: only the given directory is
  added. Parent directories that `CreateDirectory` would also create are
  not modelled.
- Console output in `WriteFiles` is left out.
- `FileUploadBehavior`:
  - `CopyTemporaryFile` (storage copying, the upload processor, file
    metadata) is not modelled. Its result path is the `copiedPath` input
    of `OnBeforeSave`.
  - `OnAfterSave` is not modelled. It copies the temporary file and
    updates the row by SQL.
  - `OnPrepareQuery` and the row reload by SQL in `ProcessReplaceFields`
    are not modelled. They only select extra columns and read the
    database.
  - The processor is held as an object and never called.
- FileUploads.FileUploadBehavior.OnAfterDelete: the three soft-delete row
  interfaces are one boolean of the handler.
- UploadFormat.ProcessReplaceFields: the value of each field comes from
  the `formatValue` input. `string.Format` and `Convert.ToString` are not
  interpreted.
- The messages of the thrown exceptions are not modelled. Each exception
  is an error value of its kind. The dynamic-script manager's argument-null
  error does not say which argument was null. The argument-null errors of
  the upload behaviour, the upload format, the code generator's file
  writer and the user service carry the parameter's name, as the source's
  `nameof(...)` does.
- UserRetrieve.UserRetrieveService: the loaders are fixed functions, so
  a user database that changes between calls is not modelled.
