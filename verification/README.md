# Workload Automation: resources, APK helpers and target descriptors in Dafny

This project models three parts of Workload Automation (WA). It proves
properties of each model.

* **Resource resolution** (`wa/framework/resource.py`).
  - The closed family of resource requests: `File`, `Executable`,
    `ReventFile`, `JarFile` and `ApkFile`, each with its path predicate.
  - The APK predicate language: exact, list and loose version match,
    inclusive version range, variant name, package, ABI and the
    UI-automation flag.
  - The `ResourceResolver`: sources registered with a priority, and `get`,
    where the first source that answers wins.
* **Android helpers** (`wa/utils/android.py`).
  - The persistent `ApkInfoCache`, as an explicit state machine over an
    in-memory map, the last-seen file stamp and the persisted file.
  - `get_cacheable_apk_info` and its `"<path>-<mtime>"` key.
  - `ApkInfo.to_pod`/`from_pod`.
  - The logcat line parser and its level-letter table.
  - `build_apk_launch_command`, together with the POSIX shell quoting it
    applies to string extras.
* **Target descriptors** (`wa/framework/target/descriptor.py`).
  - `_override_params`.
  - `TargetDescription.get_default_config`.
  - `list_target_descriptions` and `get_target_description`.
  - The parameter routing of `instantiate_target` and
    `instantiate_assistant`.
  - The platform × target descriptions generated by
    `DefaultTargetDescriptor.get_descriptions`.

Python dictionaries appear throughout as ordered sequences of key/value
pairs (`Dicts`). Assigning to a present key replaces its value in place;
assigning to a new key appends it. Supporting modules:

* `Text` covers the string built-ins used: `os.path.basename`, `str.split`
  and `str.join`, `str.strip`, `split(None, n)`, substring search, and
  `int()` with `str()`.
* `Values` holds the dynamic values passed as parameters, and their
  truthiness.
* `Wrappers` holds `Option` and `Result`; a raised exception is an `Err`.

Files, one module each:

| file | module | models |
|---|---|---|
| wrappers.dfy | `Wrappers` | optional values and results |
| text.dfy | `Text` | string built-ins |
| values.dfy | `Values` | dynamic values, truthiness |
| dicts.dfy | `Dicts` | insertion-ordered dictionaries |
| versions.dfy | `Versions` | version tuples, loose and range matching |
| apkinfo.dfy | `ApkInfos` | `ApkInfo` and its pod form |
| apkcache.dfy | `ApkCache` | `ApkInfoCache`, `get_cacheable_apk_info` |
| resource.dfy | `Resources` | resource kinds and match predicates |
| resolver.dfy | `Resolver` | source priorities, `register`, `get` |
| logcat.dfy | `Logcat` | `LogcatParser` |
| launch.dfy | `Launch` | `build_apk_launch_command` |
| descriptor.dfy | `Descriptors` | descriptions, overrides, default config, listing |
| instantiate.dfy | `Instantiation` | `instantiate_target`, `instantiate_assistant` |
| descriptions.dfy | `DefaultDescriptor` | `DefaultTargetDescriptor.get_descriptions` |

Some helpers are imported from files that are not part of this model. Each
one is modelled as a stated stand-in:

* `version_tuple` gives one integer per dot-separated segment: the value of
  the segment's leading digits.
* `prioritylist` is assumed to be a stable order by descending priority.
* `get_config_point_map` maps every parameter name and alias to its
  parameter, with later parameters overwriting earlier ones.
* `list_or_string` turns a string into a one-element list.

Several inputs are parameters of the model:

* APK metadata: the matchers receive the looked-up `Option<ApkInfo>`, and the
  cache receives the extraction function.
* The timestamp parser of `parse_line`.
* The regular-expression search of `file_name_matches`.
* The tables `CONNECTION_PARAMS`, `ASSISTANTS` and the assistants'
  parameter lists.

## Model

| member | source | states |
|---|---|---|
| Resources.MatchPath | wa/framework/resource.py:84-175 | `File` matches only the identical path; `Executable` compares only the basename with `filename`; `ReventFile` with more than two name parts matches iff the first two are target and stage, otherwise iff the first is the stage; `JarFile` matches everything; `ApkFile` iff the extension is `.apk` ignoring case |
| Resources.ReventParts | wa/framework/resource.py:130-132 | the base name split on `.` has at least one part |
| Resources.Match | wa/framework/resource.py:68-72 | a non-APK resource matches exactly by its path predicate; an APK request by its `match` |
| Resources.ExecutableIgnoresAbi | wa/framework/resource.py:112-113 | the ABI of an executable request never affects matching |
| Resources.JarAcceptsEverything | wa/framework/resource.py:147-150 | a jar request matches every path |
| Resources.ReventPartsOfJoin | wa/framework/resource.py:130-132 | the name parts of `dir/a.b.c` are exactly `[a, b, c]` |
| Resources.ReventNaming | wa/framework/resource.py:130-138 | `dir/<target>.<stage>.revent` matches the request for that stage and target |
| Resources.ReventNamingWithoutTarget | wa/framework/resource.py:130-138 | `dir/<stage>.revent` matches the target-less request for that stage |
| Resources.ExtensionOf | wa/framework/resource.py:174 | the extension of a base name is empty or starts with its last dot, holds no further dot, and is a suffix of the name |
| Resources.Extension | wa/framework/resource.py:174 | `os.path.splitext(path)[1]` is empty or starts with a dot |
| Resources.ExtensionOfStem | wa/framework/resource.py:174 | the extension of `stem.ext` is `.ext` when the stem does not start with a dot |
| Resources.ApkExtensionRecognised | wa/framework/resource.py:173-175 | any case variant of `.apk` after a non-dot stem is accepted |
| Resources.TextFileIsNotApkByName | wa/framework/resource.py:173-175 | a `.txt` path fails the APK path predicate |
| Resources.ApkVersionMatches | wa/framework/resource.py:310-322 | true iff the metadata exists and some requested version equals the version name or code, or loosely matches the name |
| Resources.ApkVersionMatchesRange | wa/framework/resource.py:325-331 | true only when the metadata exists and has a non-empty version name |
| Resources.ListOrString | wa/framework/resource.py:314 | a single version becomes the one-element list, a list stays as it is |
| Resources.FileNameMatches | wa/framework/resource.py:370-379 | true iff the basename contains the variant or the regular-expression search succeeds |
| Resources.UiautoTestMatches | wa/framework/resource.py:382-389 | false without metadata; otherwise true iff the flag agrees with the package containing `com.arm.wa.uiauto` |
| Resources.PackageNameMatches | wa/framework/resource.py:392-399 | true iff the metadata exists and its package equals the requested one |
| Resources.ApkAbiMatches | wa/framework/resource.py:402-421 | false without metadata; true when the APK has no native code; with `exact_abi` true iff the first requested ABI is listed; otherwise true iff any requested ABI is listed |
| Resources.AnyAbiListed | wa/framework/resource.py:418-421 | the loop without `exact_abi` is true iff some requested ABI is in the native code |
| Resources.ExactAbiIsStricter | wa/framework/resource.py:402-421 | an exact ABI match implies a non-exact one |
| Resources.ExactAbiLooksAtFirstOnly | wa/framework/resource.py:415-416 | an exact ABI match does not depend on the ABIs after the first |
| Resources.ApkMatch | wa/framework/resource.py:177-198 | the conjunction of the supplied predicates, each unsupplied one counting as true, and of the UI-automation predicate, always evaluated; a match needs metadata |
| Resources.FileNameInDirectory | wa/framework/resource.py:370-379 | a variant pattern sees only the base name, so the directory never changes the outcome |
| Resources.UiautoExactlyOne | wa/framework/resource.py:382-389 | with metadata, exactly one of a UI-automation and an ordinary request accepts the APK; without, neither |
| Resources.PackageNameUnique | wa/framework/resource.py:392-399 | at most one package name matches an APK |
| Resources.ApkMatchPackage | wa/framework/resource.py:191-192 | a request naming package `p` matches only APKs whose metadata names `p` |
| Resources.ApkMatchUiauto | wa/framework/resource.py:183-198 | a UI-automation request matches only packages containing `com.arm.wa.uiauto`, any other request only packages without it |
| Resources.NarrowingKeepsRejections | wa/framework/resource.py:177-198 | supplying further criteria, keeping the supplied ones, never turns a rejected APK into a match |
| Resources.MatchIgnoresMetadata | wa/framework/resource.py:68-72 | only APK requests consult the metadata or the search; other kinds match on the path alone |
| Resources.DefaultRequestChecksOnlyUiauto | wa/framework/resource.py:177-198 | a request with every option at its default checks only that the package is not a UI-automation one |
| Resources.ApkMatchIgnoresExtension | wa/framework/resource.py:177-198 | `match` does not consult the `.apk` extension check |
| Versions.TupleLessMeansBelow | wa/framework/resource.py:340-349 | the tuple comparison means a proper prefix, or first difference smaller |
| Versions.VersionTuple | wa/framework/resource.py:341-359 | the stand-in for `version_tuple` has one integer per dot-separated segment, and `None` gives the empty tuple |
| Versions.TupleLessIrreflexive | wa/framework/resource.py:340-349 | no version tuple is below itself |
| Versions.TupleLessTransitive | wa/framework/resource.py:340-349 | the tuple order is transitive |
| Versions.TupleLessTrichotomy | wa/framework/resource.py:340-349 | any two tuples are equal or exactly one is below the other |
| Versions.NotGreaterIsLeq | wa/framework/resource.py:340-349 | "not above" is "at most" |
| Versions.TupleLeqTransitive | wa/framework/resource.py:340-349 | "at most" is transitive |
| Versions.SegmentsEqualFromMeansPrefix | wa/framework/resource.py:361-367 | the segment-by-segment comparison loop succeeds iff the requested tuple is a prefix of the APK tuple |
| Versions.LooseVersionMatching | wa/framework/resource.py:354-367 | true iff the requested version's tuple is a prefix of the APK version's tuple |
| Versions.RangeVersionMatching | wa/framework/resource.py:334-351 | false for an empty or absent APK version; otherwise true iff the tuple is at most the maximum and at least the minimum, both inclusive, an absent bound imposing nothing |
| Versions.RangeIsConvex | wa/framework/resource.py:334-351 | a version between two accepted versions is accepted |
| Versions.PointRange | wa/framework/resource.py:334-351 | the range from `v` to `v` accepts exactly the versions whose tuple equals that of `v` |
| Resolver.PriorityValue | wa/framework/resource.py:30-31 | the priorities are multiples of 10 from 0 to 40 |
| Resolver.Add | wa/framework/resource.py:283 | inserting into the priority list adds exactly the new entry |
| Resolver.AddKeepsSorted | wa/framework/resource.py:283 | inserting a later registration keeps the priority list in its order |
| Resolver.Registered | wa/framework/resource.py:277-283 | the priority list holds one entry per registration |
| Resolver.Register | wa/framework/resource.py:277-283 | `register` adds the source with its priority value |
| Resolver.RegisteredHoldsEvery | wa/framework/resource.py:277-283 | every registration is in the priority list |
| Resolver.RegisteredHoldsOnly | wa/framework/resource.py:277-283 | only registrations are in the priority list |
| Resolver.RegisteredIsSorted | wa/framework/resource.py:277-283 | the priority list runs from higher to lower priority, and in registration order within one priority |
| Resolver.SortedIsUnique | wa/framework/resource.py:295 | two sorted lists with the same entries are equal |
| Resolver.RegisteredIsDetermined | wa/framework/resource.py:277-295 | the iteration order of the sources is the unique sorted list of the registrations |
| Resolver.RegisterExtends | wa/framework/resource.py:277-283 | registering one more source gives the list of the extended registrations |
| Resolver.RegistrationOrderExample | wa/framework/resource.py:277-283 | a `perferred` source registered after two `local` ones comes first, and the `local` ones keep their order |
| Resolver.FirstHit | wa/framework/resource.py:295-303 | the position of the first source that answers; every source before it returns `None` |
| Resolver.FirstHitIs | wa/framework/resource.py:295-303 | a position with an answer and no earlier answer is the first hit |
| Resolver.LaterSourcesIgnored | wa/framework/resource.py:295-303 | the sources after the one that answers are not consulted |
| Resolver.Get | wa/framework/resource.py:285-307 | returns the first source's answer in iteration order; with no answer raises `ResourceError` when strict and returns `None` otherwise |
| Resolver.HighestPriorityAnswers | wa/framework/resource.py:277-307 | when some source can answer, the answering source is that one or precedes it in priority order |
| ApkInfos.ToPod | wa/utils/android.py:133-149 | the pod carries the serialization version 1 |
| ApkInfos.FromPod | wa/utils/android.py:111-127 | a pod without one of the eleven field keys is rejected with that key; `native_code` may be `None` |
| ApkInfos.FromPodToPod | wa/utils/android.py:111-149 | reading back the pod of an `ApkInfo` gives the same record |
| ApkCache.UpdateCache | wa/utils/android.py:201-210 | no effect when the file is absent; otherwise records its stamp, and changes the state only by reloading when the stamp differs |
| ApkCache.UpdateCacheIdempotent | wa/utils/android.py:201-210 | syncing twice is syncing once |
| ApkCache.NewCache | wa/utils/android.py:172-177 | a new cache is empty with no stamp when the file is absent, and holds the file's map and stamp otherwise |
| ApkCache.Store | wa/utils/android.py:179-189 | after a sync, a present key without `overwrite` raises, naming the record's path, and changes nothing; otherwise the key maps to the pod of the record, the file is rewritten with the map and its stamp is remembered |
| ApkCache.GetInfo | wa/utils/android.py:191-199 | a lookup syncs the cache and leaves the file alone; an absent key or empty pod gives `None`, a non-empty pod gives what `from_pod` reads from it, or its error |
| ApkCache.StoreThenGet | wa/utils/android.py:179-199 | a lookup right after a store returns the stored record without reloading |
| ApkCache.OverwriteReplaces | wa/utils/android.py:179-189 | with `overwrite` a second store replaces the first |
| ApkCache.DuplicateRejected | wa/utils/android.py:183-185 | storing a present key without `overwrite` raises and leaves the map and file unchanged |
| ApkCache.StoreKeepsOtherKeys | wa/utils/android.py:179-199 | a store does not change the lookup of any other key |
| ApkCache.StoreVisibleToNewInstance | wa/utils/android.py:172-199 | a new cache opened on the written file finds the stored record |
| ApkCache.GetCacheableApkInfo | wa/utils/android.py:213-237 | `None` for an empty or absent path with no effect; `FileNotFound` with no effect when `os.stat` fails; otherwise extraction runs iff the lookup under `"<path>-<mtime>"` misses, and then the extracted record is returned and stored under that key with the file rewritten |
| ApkCache.CacheMissExtractsAndStores | wa/utils/android.py:224-236 | on a miss the APK is extracted, its record returned, and a cache opened afresh on the written file finds it under the key |
| ApkCache.CacheHitSkipsExtraction | wa/utils/android.py:224-231 | on a cache hit the cached record is returned without extraction |
| ApkCache.SecondLookupHits | wa/utils/android.py:213-237 | a second call with an unchanged modification time is a hit with the same result and no further effect |
| ApkCache.IdentityKey | wa/utils/android.py:223 | the key is the path, one dash, then the modification time |
| ApkCache.IdentityKeyInjective | wa/utils/android.py:223 | with dash-free modification times, distinct path/time pairs give distinct keys |
| ApkCache.LastDashAt | wa/utils/android.py:223 | the key's last dash separates the path from the modification time |
| Logcat.LevelName | wa/utils/android.py:29 | each level name is non-empty and starts with a lower-case letter |
| Logcat.Letter | wa/utils/android.py:31 | each level's letter is in the level table |
| Logcat.LevelTable | wa/utils/android.py:29-31 | the table `VDIWEA` holds the upper-cased initials of the levels in order, and the levels are numbered from 2 |
| Logcat.LevelOf | wa/utils/android.py:94 | a level token is accepted iff it is a single letter of the table, and then it is that level's letter |
| Logcat.LevelAsWritten | wa/utils/android.py:94 | as written, a token is accepted iff it occurs anywhere in `VDIWEA` |
| Logcat.LevelOfLetter | wa/utils/android.py:94 | each level's letter reads back as that level |
| Logcat.LevelLookupsAgreeOnLetters | wa/utils/android.py:94 | on one-character tokens the written and corrected lookups agree |
| Logcat.TwoLetterTokenAccepted | wa/utils/android.py:94 | as written, the token `WE` is read as `warn`; corrected, it is rejected |
| Logcat.ParseLineWith | wa/utils/android.py:82-86 | an event comes only from a line that is non-blank after stripping, does not start with `-`, and contains `": "`; its message is everything after the first `": "` of the stripped line, and its tag is stripped |
| Logcat.ParseMetadata | wa/utils/android.py:88-101 | an event carries the message and a stripped tag |
| Logcat.ReadParts | wa/utils/android.py:89-95 | reading the split fields in `pop(0)` order gives an event carrying the message and a stripped tag |
| Logcat.ParseLineAsWritten | wa/utils/android.py:78-101 | `parse_line` as written, with the substring level lookup: an accepted line is non-empty after `strip`, does not start with `-`, and its message is the text after its first `": "`; `Logcat.AsWrittenAcceptsTwoLetterLevel` exhibits where it differs from the corrected parser |
| Logcat.ParseLine | wa/utils/android.py:78-101 | corrected `parse_line`: it only drops lines, since every event it finds is the one the source finds |
| Logcat.LetterLookupAgrees | wa/utils/android.py:94 | a token the one-letter lookup accepts reads as the same level as written |
| Logcat.CorrectedLineAsWritten | wa/utils/android.py:78-101 | a line the corrected parser accepts parses to the same event as written |
| Logcat.FirstSeparator | wa/utils/android.py:86 | the message starts after the first `": "` |
| Logcat.SplitAtSeparator | wa/utils/android.py:82-86 | a stripped line whose metadata holds no `": "` is split at the `": "` that ends the metadata |
| Logcat.NoSeparatorAppend | wa/utils/android.py:86 | two texts without `": "` joined hold none, unless the first ends in a colon |
| Logcat.LayoutSplits | wa/utils/android.py:88 | `split(None, n)` of `n` words, each followed by a whitespace run of any length, and a last part starting with no whitespace gives the words and that part, trailing whitespace included |
| Logcat.LayoutHasNoSeparator | wa/utils/android.py:86-88 | such metadata holds no `": "` when no word ends in a colon and the last part holds none; colons inside a word, as in `12:34:56.789`, are allowed |
| Logcat.ReadSixParts | wa/utils/android.py:89-95 | six fields are read as timestamp, pid, tid, level and the stripped last field as the tag; rejected iff the level token is |
| Logcat.ReadFields | wa/utils/android.py:88-101 | laid-out metadata, whatever its whitespace runs and tag padding, is read back as timestamp, pid, tid, level and tag; rejected iff the level token is |
| Logcat.ParseLaidOut | wa/utils/android.py:78-101 | a line whose fields are separated by whitespace runs of any length, with a padded tag that may hold inner spaces, parses back to its fields iff its level token is accepted |
| Logcat.ThreadtimeSeps | wa/utils/android.py:88 | the threadtime layout `%s %5d %5d %c %-8s` separates the fields by non-empty whitespace runs |
| Logcat.FormatLine | wa/utils/android.py:85 | the threadtime line of an event ends with its message, and for a printable date, time and tag the line's first `": "` is the one right before the message, where `split(': ', 1)` cuts it (`Logcat.ParseFormatLine` states that `parse_line` inverts the whole line) |
| Logcat.LaidOutSeparator | wa/utils/android.py:85 | whatever whitespace runs separate the metadata fields and pad the tag, the first `": "` of the line is the one after the tag's padding |
| Logcat.ParseFormatted | wa/utils/android.py:78-101 | a threadtime line, pid and tid right-aligned in five columns and the tag left-aligned in eight, parses iff its level token is accepted |
| Logcat.ParseFormatLine | wa/utils/android.py:78-101 | the threadtime line of an event parses back to the same event, for date and time fields without spaces or a trailing colon, a date not starting with `-`, a non-empty tag without surrounding whitespace, `": "` or a final colon, and a message not ending in whitespace |
| Logcat.ParseRealLine | wa/utils/android.py:78-101 | the threadtime line for pid 123, tid 4567, level `I`, tag `Zygote` and message `Start proc` parses to its event |
| Logcat.RealLineLayout | wa/utils/android.py:88 | that line is `03-15 12:34:56.789   123  4567 I Zygote  : Start proc`: three spaces before the pid, two before the tid, two after the tag |
| Logcat.AsWrittenAcceptsTwoLetterLevel | wa/utils/android.py:94 | as written, a line with level token `WE` yields a `warn` event; corrected, the line is rejected |
| Logcat.Collect | wa/utils/android.py:72-76 | the events a line parser finds number no more than the lines |
| Logcat.ParseWith | wa/utils/android.py:68-76 | `parse` for either level lookup: no more events than lines |
| Logcat.Parse | wa/utils/android.py:68-76 | the corrected `parse`: no more events than lines |
| Logcat.ParseAsWritten | wa/utils/android.py:68-76 | `parse` as written: no more events than lines |
| Logcat.ParseEvents | wa/utils/android.py:68-76 | an event is produced iff some line parses to it |
| Logcat.EventSource | wa/utils/android.py:72-76 | every event comes from a line that parses to it |
| Logcat.EventOfLine | wa/utils/android.py:72-76 | every line that parses contributes its event |
| Logcat.CorrectedEventsAsWritten | wa/utils/android.py:68-101 | every event the corrected parser finds in a file, the source finds too |
| Logcat.AsWrittenParseKeepsTwoLetterLevel | wa/utils/android.py:68-94 | as written, `parse` yields a `warn` event for a line with level field `WE`; corrected, it yields nothing |
| Logcat.ParseOne | wa/utils/android.py:68-76 | one line yields its event when it parses and nothing otherwise, for either lookup |
| Logcat.ParseAppend | wa/utils/android.py:68-76 | parsing two runs of lines is parsing each and concatenating, for either lookup |
| Logcat.CollectAppend | wa/utils/android.py:72-76 | collecting events distributes over concatenation of the lines |
| Launch.EscapeSingle | wa/utils/android.py:253 | a string without single quotes is left as is; escaping never shortens |
| Launch.Quote | wa/utils/android.py:253 | the quoted form is non-empty, and equals the string iff the string is non-empty and of safe characters only |
| Launch.ReadSafe | wa/utils/android.py:253 | the shell reads a safe word as itself |
| Launch.ReadQuote | wa/utils/android.py:253 | the shell reads the quoted form of any string back as that string |
| Launch.EncodeValue | wa/utils/android.py:251-261 | strings, floats, booleans and integers are encoded; any other value raises with that value |
| Launch.DecodeEncode | wa/utils/android.py:251-263 | every encoded value is read back as itself by `DecodeExtra`, the decoder assumed for `am`; booleans come back as booleans and not integers |
| Launch.ArgumentsDecode | wa/utils/android.py:263 | each argument is ` <flag> <key> <value>` and its value reads back |
| Launch.Fragment | wa/utils/android.py:263 | an argument's text raises iff its value cannot be encoded, with that error (its form is `Launch.ArgumentsDecode`) |
| Launch.DecodeExtra | wa/utils/android.py:251-263 | the reader assumed for `am` (no contract of its own; `Launch.DecodeEncode` states that it inverts the encoding) |
| Launch.ArgsString | wa/utils/android.py:249-263 | the argument string raises iff some value cannot be encoded |
| Launch.ArgsStringFirstError | wa/utils/android.py:249-261 | the error names the first value that cannot be encoded |
| Launch.ArgsStringPrefixError | wa/utils/android.py:249-263 | an error within a prefix of the arguments is the error of all of them |
| Launch.FirstUnencodable | wa/utils/android.py:250-261 | the position of the first value that cannot be encoded |
| Launch.BuildArgsString | wa/utils/android.py:249-263 | the loop builds exactly the argument string |
| Launch.BuildApkLaunchCommand | wa/utils/android.py:243-270 | the command starts with `am start -W `, then names `-n <package>/<activity>` when an activity is given and the package alone otherwise, ends with the argument string, raises iff the arguments do, and never raises without arguments |
| Launch.PackageText | wa/utils/android.py:265-268 | `str(package)`: `None` renders as `None` (no contract of its own; `Launch.LaunchExample` shows it in a command) |
| Launch.LaunchComponent | wa/utils/android.py:265-268 | with an activity and a `/`-free package, the first `/` of the component separates the package from the activity |
| Launch.FalsyOptionalsIgnored | wa/utils/android.py:249-268 | an empty activity is no activity, and empty arguments are no arguments |
| Launch.LaunchExample | wa/utils/android.py:243-270 | the command for one integer extra with an activity is `am start -W -n com.a/Main  --ei n 3` |
| Descriptors.OverrideParams | wa/framework/target/descriptor.py:792-803 | a falsy override list returns the input unchanged |
| Descriptors.Replace | wa/framework/target/descriptor.py:799-801 | the replacement loop (no contract of its own; `Descriptors.ReplaceKeys` and `Descriptors.ReplaceValues` characterise it) |
| Descriptors.ReplaceKeys | wa/framework/target/descriptor.py:799-801 | replacing by overrides keeps the keys, in order |
| Descriptors.ReplaceValues | wa/framework/target/descriptor.py:799-801 | a key holds its last override when it has one, and keeps its value otherwise; override names absent from the map are ignored |
| Descriptors.OverrideParamsSpec | wa/framework/target/descriptor.py:792-803 | with overrides: distinct names, exactly the input's names in first-occurrence order, and each the last parameter of that name among the input followed by the overrides |
| Descriptors.OverriddenEntry | wa/framework/target/descriptor.py:798-803 | each entry of the overridden map is the last parameter of its name in input then overrides |
| Descriptors.OverriddenValue | wa/framework/target/descriptor.py:798-803 | each input name maps to its last parameter in input then overrides |
| Descriptors.OverrideKeepsShape | wa/framework/target/descriptor.py:792-803 | on input with distinct names: same names in the same order, each parameter replaced by its last override when there is one |
| Descriptors.GetDefaultConfig | wa/framework/target/descriptor.py:177-188 | the configuration has distinct keys |
| Descriptors.DefaultAssignments | wa/framework/target/descriptor.py:184-187 | the assignments of the default loop (no contract of its own; `Descriptors.DefaultAssignmentsKeys` and `Descriptors.DefaultAssignmentsValues` characterise it) |
| Descriptors.DefaultAssignmentsKeys | wa/framework/target/descriptor.py:184-187 | a name is assigned iff some non-deprecated parameter has it |
| Descriptors.DefaultAssignmentsValues | wa/framework/target/descriptor.py:184-187 | the value assigned to a name last is the default of the last non-deprecated parameter with that name |
| Descriptors.DefaultConfigSpec | wa/framework/target/descriptor.py:177-188 | the configuration holds exactly the names of the non-deprecated parameters across the four lists, each with the default of the last such parameter |
| Descriptors.Collect | wa/framework/target/descriptor.py:47-56 | a successful pass appends the descriptor's descriptions |
| Descriptors.CollectError | wa/framework/target/descriptor.py:50-55 | the only failure is a duplicate target |
| Descriptors.CollectSpec | wa/framework/target/descriptor.py:47-56 | a pass succeeds iff the names stay distinct |
| Descriptors.ListTargetDescriptions | wa/framework/target/descriptor.py:42-57 | on success, all descriptions of all descriptors in order; the only error is a duplicate target |
| Descriptors.ListTargetDescriptionsSpec | wa/framework/target/descriptor.py:42-57 | listing succeeds iff the description names are pairwise distinct |
| Descriptors.FirstNamed | wa/framework/target/descriptor.py:64-66 | the position of the first description with the name, absent iff no description has it |
| Descriptors.GetTargetDescription | wa/framework/target/descriptor.py:60-67 | a found description has the name and is listed; when listing succeeds, failure is `Could not find` and no description has the name |
| Descriptors.FoundDescriptionIsUnique | wa/framework/target/descriptor.py:60-67 | the description found is the only one with its name |
| Instantiation.PointPairs | wa/framework/target/descriptor.py:76-79 | every pair maps a parameter's own name or one of its aliases to that parameter |
| Instantiation.PointMap | wa/framework/target/descriptor.py:76-79 | the point map has distinct keys |
| Instantiation.Seed | wa/framework/target/descriptor.py:85-88 | the pre-seeded arguments (no contract of its own; `Instantiation.SeedSpec` characterises it) |
| Instantiation.SeedSpec | wa/framework/target/descriptor.py:85-88 | a key is seeded with its default iff it is the parameter's own name and the default is truthy; alias keys are never seeded |
| Instantiation.DestinationOf | wa/framework/target/descriptor.py:90-104 | a name is unknown iff no map has it; it goes to the first map containing it, to the target only when not deprecated there |
| Instantiation.Route | wa/framework/target/descriptor.py:90-104 | the only failure is an unexpected parameter for this description |
| Instantiation.RouteOne | wa/framework/target/descriptor.py:90-104 | one pass fails iff the name is unknown to all four maps, and then reports that name for this description |
| Instantiation.RouteOkIffKnown | wa/framework/target/descriptor.py:90-104 | the loop succeeds iff every supplied name is known to some map |
| Instantiation.RouteErrNamesFirst | wa/framework/target/descriptor.py:90-104 | a failure names an unknown parameter all of whose predecessors are known |
| Instantiation.RouteOneValues | wa/framework/target/descriptor.py:90-99 | one pass sets the routed name in its destination map only and keeps every map's keys distinct |
| Instantiation.RouteFails | wa/framework/target/descriptor.py:90-104 | routing fails iff some supplied name is unknown, and names the first such |
| Instantiation.RouteValues | wa/framework/target/descriptor.py:90-99 | each map holds the supplied value of a name routed to it and its seed otherwise |
| Instantiation.AddExtra | wa/framework/target/descriptor.py:106-109 | the only failure is a platform parameter clash |
| Instantiation.AddExtraOk | wa/framework/target/descriptor.py:106-109 | with distinct extras, the loop succeeds iff no extra is already a platform parameter, and then appends them |
| Instantiation.AddExtraClash | wa/framework/target/descriptor.py:106-109 | a clash names a parameter that is both a platform parameter and an extra |
| Instantiation.AddExtraSpec | wa/framework/target/descriptor.py:106-109 | adding extras fails iff one is already a platform parameter, naming one in both; otherwise appends them |
| Instantiation.Finish | wa/framework/target/descriptor.py:110-117 | the arguments set after routing (no contract of its own; `Instantiation.FinishSpec` and `Instantiation.FinishWithoutConnection` characterise it) |
| Instantiation.FinishSpec | wa/framework/target/descriptor.py:110-117 | `platform` is set to the platform built from its parameters, the connection settings only when non-empty, the connection class when named, `connect` when given; other keys unchanged |
| Instantiation.FinishWithoutConnection | wa/framework/target/descriptor.py:110-117 | without a connection class, `conn_cls` keeps whatever the target's own arguments gave it |
| Instantiation.InstantiateTarget | wa/framework/target/descriptor.py:70-119 | a success builds the description's target class; failures are an unexpected parameter for this description or a platform clash |
| Instantiation.TargetArgument | wa/framework/target/descriptor.py:70-119 | each target keyword argument is the supplied value of a name routed to the target, or else its seeded default |
| Instantiation.RoutedTargetArgument | wa/framework/target/descriptor.py:85-99 | the routed target parameters give a name its supplied value when routed to the target, else its seed |
| Instantiation.ConnectionClassArgument | wa/framework/target/descriptor.py:113-114 | the connection class passed is the one the description was constructed with (`tdesc.connection`); without one, only a target parameter named `conn_cls` can supply it |
| Instantiation.NoTargetValue | wa/framework/target/descriptor.py:85-99 | a name no target parameter answers to gets no target argument |
| Instantiation.PlatformArguments | wa/framework/target/descriptor.py:106-111 | the platform is built from the routed platform parameters followed by the extras |
| Instantiation.AliasNotSeeded | wa/framework/target/descriptor.py:85-88 | an alias that is not supplied is not passed to the target |
| Instantiation.DeprecatedDropped | wa/framework/target/descriptor.py:91-93 | a supplied deprecated target parameter is dropped |
| Instantiation.UnknownRejected | wa/framework/target/descriptor.py:100-104 | a name in no map raises `Unexpected parameter` |
| Instantiation.InstantiateAssistant | wa/framework/target/descriptor.py:122-135 | the assistant built is the description's |
| Instantiation.AssistantArgs | wa/framework/target/descriptor.py:127-132 | the assistant's arguments (no contract of its own; `Instantiation.AssistantArgsKeys` and `Instantiation.AssistantArgsValues` characterise it) |
| Instantiation.AssistantArgsKeys | wa/framework/target/descriptor.py:127-132 | the assistant receives, once each, exactly its parameters that are supplied or have a truthy default |
| Instantiation.AssistantArgsValues | wa/framework/target/descriptor.py:127-132 | a supplied value wins; otherwise the default of the last parameter of that name with a truthy default |
| DefaultDescriptor.Describe | wa/framework/target/descriptor.py:773-788 | a description is named `<platform>_<target>`, built by the constructor with no connection class, and carries in `conn` the platform's connection when it names one and the target's otherwise, with that connection's parameters under the platform's connection defaults |
| DefaultDescriptor.PlatformLoopAsWritten | wa/framework/target/descriptor.py:765-789 | as written, at most one description per platform, each of this target and this descriptor, with no constructed connection and a `conn` |
| DefaultDescriptor.GetDescriptionsAsWritten | wa/framework/target/descriptor.py:758-790 | as written, every description is of this descriptor, with no constructed connection and a `conn` |
| DefaultDescriptor.DescribeFor | wa/framework/target/descriptor.py:766-788 | corrected: the same connection class is both `conn` and the constructed connection, and the target parameters are the target's own under that platform's overrides |
| DefaultDescriptor.PlatformLoop | wa/framework/target/descriptor.py:765-789 | corrected, at most one description per platform, each of this target and this descriptor, with the constructed connection equal to `conn` |
| DefaultDescriptor.GetDescriptions | wa/framework/target/descriptor.py:758-790 | corrected, every description is of this descriptor, with the constructed connection equal to `conn` |
| DefaultDescriptor.DescriptionConnections | wa/framework/target/descriptor.py:758-790 | every description's connection class and parameters are the platform's when it names a connection, else the target's |
| DefaultDescriptor.PlatformLoopConnectionsAsWritten | wa/framework/target/descriptor.py:765-789 | as written, every description of a target has no constructed connection class, and `conn` is that of one of its supported platforms |
| DefaultDescriptor.ConnectionLostAsWritten | wa/framework/target/descriptor.py:110-117 | as written, a default description's connection class never reaches the target constructor |
| DefaultDescriptor.ConnectionPassed | wa/framework/target/descriptor.py:782-788 | corrected, the target constructor receives the platform's connection class, or else the target's |
| DefaultDescriptor.PlatformLoopMembers | wa/framework/target/descriptor.py:765-789 | one description per platform the target supports, and no other |
| DefaultDescriptor.DescriptionsMembers | wa/framework/target/descriptor.py:758-790 | the descriptions are exactly those of the (target, platform) pairs whose platform class the target supports |
| DefaultDescriptor.DescriptionSource | wa/framework/target/descriptor.py:758-790 | every description is that of a (target, platform) pair whose platform the target supports |
| DefaultDescriptor.PairDescribed | wa/framework/target/descriptor.py:758-790 | every supported (target, platform) pair is described |
| DefaultDescriptor.PlatformLoopAppend | wa/framework/target/descriptor.py:765-789 | each platform's description depends only on that platform |
| DefaultDescriptor.NameInjective | wa/framework/target/descriptor.py:773 | for underscore-free target names, the description name determines platform and target |
| DefaultDescriptor.LastUnderscoreAt | wa/framework/target/descriptor.py:773 | the last underscore of the name ends the platform name |
| DefaultDescriptor.PlatformNamesDiffer | wa/framework/target/descriptor.py:773 | distinct platforms give distinct names for one target |
| DefaultDescriptor.PlatformLoopDistinct | wa/framework/target/descriptor.py:765-789 | one target's descriptions have distinct names |
| DefaultDescriptor.DescriptionNamesDistinct | wa/framework/target/descriptor.py:758-790 | with distinct platform names and distinct underscore-free target names, all names are distinct and listing the default descriptor succeeds |
| DefaultDescriptor.LoopsAgreeWithoutOverrides | wa/framework/target/descriptor.py:765-789 | with no platform target overrides, the platform loop as written and corrected differ only in the constructed connection class |
| DefaultDescriptor.AsWrittenAgreesWithoutOverrides | wa/framework/target/descriptor.py:758-790 | with no platform target overrides, as written and corrected differ only in the constructed connection class |
| DefaultDescriptor.OverridesLeakAsWritten | wa/framework/target/descriptor.py:772 | as written, one platform's target override reaches the next platform's description; corrected, it does not |
| Dicts.PutSpec | wa/framework/target/descriptor.py:801 | an assignment keeps keys distinct, sets the key and leaves every other key as it was |
| Dicts.Put | wa/framework/target/descriptor.py:801 | assigning to a present key keeps the keys; to a new key appends it |
| Dicts.Get | wa/framework/target/descriptor.py:129-130 | a lookup (`k in d`, then `d[k]`) answers iff the key is present |
| Dicts.FromPairsKeys | wa/framework/target/descriptor.py:798 | a dict comprehension has distinct keys, exactly the assigned ones |
| Dicts.FromPairsValues | wa/framework/target/descriptor.py:798 | each key of a dict comprehension holds the value assigned last |
| Dicts.FromPairsOrder | wa/framework/target/descriptor.py:798 | its keys come in the order of their first assignment |
| Dicts.FromDistinctPairs | wa/framework/target/descriptor.py:798 | assignments to distinct keys build their own list |
| Text.Basename | wa/framework/resource.py:113 | the base name is the slash-free suffix after the last slash |
| Text.LastIndexOf | wa/framework/resource.py:131 | the position of the last occurrence of a character, with none after it; absent iff the character is not there |
| Text.Split | wa/framework/resource.py:132 | `str.split(sep)` gives at least one part, none holding the separator |
| Text.JoinSplit | wa/framework/resource.py:132 | splitting on a separator and joining back gives the string |
| Text.SplitJoin | wa/framework/resource.py:132 | joining separator-free parts and splitting gives the parts |
| Text.SplitWsJoin | wa/utils/android.py:88 | `split(None, n)` of at most `n + 1` words joined by spaces gives the words |
| Text.SplitWsRun | wa/utils/android.py:88 | a word followed by a whitespace run of any length splits off as the first field |
| Text.SplitWsRest | wa/utils/android.py:88 | with no splits left, text not starting with whitespace is one field, trailing whitespace included |
| Text.StripPadded | wa/utils/android.py:82 | stripping removes exactly the surrounding whitespace |
| Text.Strip | wa/utils/android.py:82 | the stripped text neither starts nor ends with whitespace |
| Text.SplitWs | wa/utils/android.py:88 | `split(None, n)` gives at most `n + 1` fields, none empty |
| Text.FindSub | wa/utils/android.py:83-86 | the position of the first occurrence of a substring |
| Text.ParseRenderInt | wa/utils/android.py:92-93 | `int(str(i)) == i` |

## Left out

- Plugin loading and logging in `ResourceResolver.load` (wa/framework/resource.py:264-275): the resolver is given its sources, and what a source returns is a parameter.
- The null-owner object (wa/framework/resource.py:34-49): the owner is `NoOne` or a name, and it takes part in no predicate.
- The `__str__` and `kind` renderings of resources, and the representation of `LogcatEvent`: text for logs.
- `version_tuple`, `list_or_string` and `prioritylist`, whose definitions are not part of this model, are stand-ins as described above. `get_config_point_map` and `isiterable` are stand-ins too.
- `Resources.ApkVersionMatchesRange`: stated only as needing metadata with a version name; its full meaning is the contract of `Versions.RangeVersionMatching`, which it applies to the APK's version name.
- `Resources.ApkAbiMatches`: requires a non-empty ABI list when `exact_abi` is set, because the source then indexes the first element and raises `IndexError` on an empty list. Its only caller passes the list only when it is non-empty.
- Filesystem effects of the cache: `os.path.exists`, `os.stat`, `os.makedirs`, `atomic_write_path` and `read_pod`/`write_pod`. The cache file is an abstract pair of a stamp and a map. The new stamp after a write is a parameter.
- `os.stat` on a missing APK raises `FileNotFoundError` in `get_cacheable_apk_info`; the model returns that error.
- Extracting APK metadata (devlib's `ApkInfo(path)`) is a parameter.
- `datetime.strptime` and the current year in `parse_line` are a partial-function parameter. `int()` is modelled on whitespace-free tokens, which is all `split` yields: ASCII digits with an optional sign and single underscores between digits. Other Unicode digits are not modelled.
- `LogcatParser.parse` reads its lines from a file; the model takes the lines.
- `Logcat.Parse`: this is `parse` with the corrected one-letter level lookup, so a line whose level field is a longer run of `VDIWEA` yields no event (see Findings); `Logcat.ParseAsWritten` is the source's `parse`. The contracts of both bound only the number of events. Which events they yield is `Logcat.ParseEvents`, and their order is `Logcat.ParseOne` with `Logcat.ParseAppend`.
- `Logcat.ParseFormatLine`: the round trip is proved for logcat's threadtime layout, and by `Logcat.ParseLaidOut` for any whitespace runs between the fields. It needs a tag that is non-empty, has no surrounding whitespace and holds no `": "`. The tag must not end in a colon, which its padding would turn into the separator. The message must not end in whitespace, which `strip` removes. An empty tag and logcat's other output formats are not covered.
- `build_apk_launch_command` renders floats with Python's `repr`; the model keeps a float as the text it renders to.
- `Launch.DecodeEncode`: the reading side is `DecodeExtra`, a decoder assumed for `am`; the integer width `am` accepts for `--ei` and its float syntax for `--ef` are not modelled.
- `Launch.EscapeSingle`: states only the no-quote case and the length; the round trip is `Launch.ReadQuote`.
- `TargetDescription._set` (wa/framework/target/descriptor.py:190-203): a description holds the parameter lists `_set` produces, and `None` is the empty list. The `ValueError` for a non-iterable is not modelled.
- `TargetDescription` fields that matter only to output (`description`) are not modelled.
- Instantiating the target, platform, connection and assistant classes is not modelled. `instantiate_target` returns the class name and the keyword arguments it would pass, and `instantiate_assistant` returns the assistant class and its arguments.
- Looking up `CONNECTION_PARAMS`, `ASSISTANTS` and `assistant.parameters` uses tables that are parameters of the model, so a missing key (`KeyError`) is not modelled. The shipped table contents (wa/framework/target/descriptor.py:617-741) are not restated.
- `create_target_description`, the ad hoc descriptor and the MRO-based `_get_target_defaults` are not modelled.
- `Descriptors.GetDefaultConfig`: its own contract states only that the keys are distinct; the contents are `Descriptors.DefaultConfigSpec`.
- `Descriptors.OverrideParams`: its own contract states the falsy-override case; the overriding case is `Descriptors.OverrideParamsSpec` and `Descriptors.OverrideKeepsShape`.
- `Instantiation.InstantiateAssistant`: states only the class; the arguments are `Instantiation.AssistantArgsKeys` and `Instantiation.AssistantArgsValues`.
- `Instantiation.PointMap`: states only distinct keys, since `get_config_point_map` is a stand-in.
- `ApkInfos.FromPod`: Python's `from_pod` copies whatever value each key holds; the model's record has typed fields, so a value of another type (a number where a string or list belongs) is rejected as `IllTyped` instead of being copied. `None` is accepted for every optional field and for `native_code`.

## Findings

| source | as written | input that shows it | evidently intended | confidence | as-written member | corrected member |
|---|---|---|---|---|---|---|
| wa/framework/target/descriptor.py:772 | `target_params` is reassigned inside the platform loop, so one platform's target overrides carry over to every later platform of the same target | a target with parameter `x = 0`, then platform `juno` overriding `x = 1`, then platform `generic` with no overrides: `generic_linux` gets `x = 1` | each platform's overrides apply to that platform's description only, as the comment on the platform table says | not executed; latent, since the shipped platforms have no target overrides | DefaultDescriptor.OverridesLeakAsWritten | DefaultDescriptor.DescriptionsMembers |
| wa/framework/target/descriptor.py:774-788 | `get_descriptions` constructs each description with its name only and assigns the connection class to a new attribute `conn`, while `instantiate_target` reads `tdesc.connection` (line 114), which stays `None` | any platform that imposes a connection, for example a platform entry naming its own connection class: the target is built without `conn_cls` | the description is constructed with, or assigned, `connection` so that `conn_cls` is passed | not executed | DefaultDescriptor.ConnectionLostAsWritten | DefaultDescriptor.ConnectionPassed |
| wa/utils/android.py:94 | the level is found with `log_level_map.index(token)`, a substring search, so a multi-letter token that occurs in `VDIWEA` is accepted as the level of its first letter | a line whose level field is `WE` parses as a `warn` event, and `parse` yields that event (`Logcat.AsWrittenParseKeepsTwoLetterLevel`) | only a single level letter is accepted | not executed | Logcat.AsWrittenAcceptsTwoLetterLevel | Logcat.ParseFormatLine |
