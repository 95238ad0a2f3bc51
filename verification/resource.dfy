/** Resource requests and their match predicates
    (wa/framework/resource.py: File, Executable, ReventFile, JarFile, ApkFile
    and the APK matchers). The APK matchers receive the metadata lookup's
    result `info` instead of calling the cache themselves; the regular
    expression search of `file_name_matches` is the parameter `search`. */
module Resources {
  import opened Wrappers
  import Text
  import opened Values
  import opened Versions
  import opened ApkInfos

  /** Who asked for a resource; `NoOne` replaces the null-owner object. */
  datatype Owner = NoOne | Owner(name: string)

  /** The `version` attribute of an APK request: one string or a list. */
  datatype VersionSpec = OneVersion(v: string) | VersionList(vs: seq<string>)

  /** The attributes of an `ApkFile` request. */
  datatype ApkRequest = ApkRequest(
    variant: Option<string>,
    version: Option<VersionSpec>,
    package: Option<string>,
    uiauto: bool,
    exactAbi: bool,
    supportedAbi: Option<seq<Option<string>>>,
    minVersion: Option<string>,
    maxVersion: Option<string>)

  /** An `ApkFile` built with every optional argument left at its default. */
  const DefaultApkRequest: ApkRequest := ApkRequest(None, None, None, false, false, None, None, None)

  /** The closed family of resource kinds. */
  datatype Resource =
    | File(owner: Owner, path: string)
    | Executable(owner: Owner, abi: string, filename: string)
    | ReventFile(owner: Owner, stage: string, target: Option<string>)
    | JarFile(owner: Owner)
    | ApkFile(owner: Owner, request: ApkRequest)

  // ---------------------------------------------------------------------
  // Path predicates (`match_path`)

  /** The fields of a revent file name: its base name split on `.`. */
  function ReventParts(path: string): (parts: seq<string>)
    ensures |parts| >= 1
  {
    Text.Split(Text.Basename(path), '.')
  }

  /** `c.lower() == l` for one character, where `l` is a lower-case ASCII
      letter or punctuation: `c` is `l` itself, its ASCII capital, or, for
      `k`, the Kelvin sign that Python lowers to `k`. */
  predicate LowersTo(c: char, l: char) {
    || c == l
    || ('a' <= l <= 'z' && (c as int) == (l as int) - 32)
    || (l == 'k' && c == '\U{212A}')
  }

  /** The extension of a base name: from its last `.`, if a character other
      than `.` precedes that dot. */
  function ExtensionOf(name: string): (ext: string)
    ensures |ext| > 0 ==> ext[0] == '.' && '.' !in ext[1..]
    ensures |ext| <= |name| && ext == name[|name| - |ext|..]
  {
    match Text.LastIndexOf(name, '.')
    case None => ""
    case Some(i) =>
      if LeadingDots(name[..i]) then "" else name[i..]
  }

  /** `s` consists of dots only. */
  predicate LeadingDots(s: string) {
    forall j :: 0 <= j < |s| ==> s[j] == '.'
  }

  /** `os.path.splitext(path)[1]`: the extension of the base name. */
  function Extension(path: string): (ext: string)
    ensures |ext| > 0 ==> ext[0] == '.'
  {
    ExtensionOf(Text.Basename(path))
  }

  /** `ApkFile.match_path`: the extension, lowered, is `.apk`. */
  predicate HasApkExtension(path: string) {
    var ext := Extension(path);
    |ext| == 4 && ext[0] == '.' && LowersTo(ext[1], 'a') && LowersTo(ext[2], 'p') && LowersTo(ext[3], 'k')
  }

  /** `match_path` of each resource kind. */
  function MatchPath(res: Resource, path: string): (r: bool)
    ensures res.File? ==> (r <==> path == res.path)
    ensures res.Executable? ==> (r <==> Text.Basename(path) == res.filename)
    ensures res.ReventFile? && |ReventParts(path)| > 2 ==>
      (r <==> Some(ReventParts(path)[0]) == res.target && ReventParts(path)[1] == res.stage)
    ensures res.ReventFile? && |ReventParts(path)| <= 2 ==> (r <==> ReventParts(path)[0] == res.stage)
    ensures res.JarFile? ==> r
    ensures res.ApkFile? ==> (r <==> HasApkExtension(path))
  {
    match res
    case File(_, p) => p == path
    case Executable(_, _, filename) => filename == Text.Basename(path)
    case ReventFile(_, stage, target) =>
      var parts := ReventParts(path);
      if |parts| > 2 then Some(parts[0]) == target && parts[1] == stage
      else parts[0] == stage
    case JarFile(_) => true
    case ApkFile(_, _) => HasApkExtension(path)
  }

  // ---------------------------------------------------------------------
  // APK matchers

  /** `list_or_string`: a single version becomes a one-element list. */
  function ListOrString(v: VersionSpec): (vs: seq<string>)
    ensures v.OneVersion? ==> vs == [v.v]
    ensures v.VersionList? ==> vs == v.vs
  {
    match v
    case OneVersion(s) => [s]
    case VersionList(xs) => xs
  }

  /** Truthiness of the `version` attribute. */
  predicate VersionGiven(v: Option<VersionSpec>) {
    match v
    case None => false
    case Some(OneVersion(s)) => |s| > 0
    case Some(VersionList(xs)) => |xs| > 0
  }

  /** One requested version is satisfied by the metadata: it equals the
      version name or the version code, or loosely matches the name. */
  predicate AcceptsVersion(info: ApkInfo, v: string) {
    || Some(v) == info.versionName
    || Some(v) == info.versionCode
    || LooseVersionMatching(v, info.versionName)
  }

  /** `apk_version_matches`: some requested version is satisfied. */
  function ApkVersionMatches(info: Option<ApkInfo>, versions: seq<string>): (r: bool)
    ensures r <==> info.Some? && exists i :: 0 <= i < |versions| && AcceptsVersion(info.value, versions[i])
  {
    if |versions| == 0 then false
    else if info.Some? && AcceptsVersion(info.value, versions[0]) then true
    else
      var rest := ApkVersionMatches(info, versions[1..]);
      assert forall i :: 1 <= i < |versions| ==> versions[i] == versions[1..][i - 1];
      rest
  }

  /** `apk_version_matches_range`: range matching on the version name, an
      unknown APK counting as an empty version. */
  function ApkVersionMatchesRange(info: Option<ApkInfo>, min: Option<string>, max: Option<string>): (r: bool)
    ensures r ==> info.Some? && Given(info.value.versionName)
  {
    RangeVersionMatching(if info.Some? then info.value.versionName else Some(""), min, max)
  }

  /** `file_name_matches`: the pattern occurs in the base name, literally or
      as a regular expression found by `search(pattern, name)`. */
  function FileNameMatches(path: string, pattern: string, search: (string, string) -> bool): (r: bool)
    ensures Text.Contains(Text.Basename(path), pattern) ==> r
    ensures r <==> Text.Contains(Text.Basename(path), pattern) || search(pattern, Text.Basename(path))
  {
    var name := Text.Basename(path);
    Text.Contains(name, pattern) || search(pattern, name)
  }

  /** The namespace of UI-automation test packages. */
  const UiautoMarker: string := "com.arm.wa.uiauto"

  /** `uiauto_test_matches`: whether the package is a UI-automation test
      agrees with the request; never true without metadata. */
  function UiautoTestMatches(info: Option<ApkInfo>, uiauto: bool): (r: bool)
    ensures r ==> info.Some?
    ensures info.Some? ==> (r <==> (uiauto <==> Text.Contains(info.value.package.GetOr(""), UiautoMarker)))
  {
    if info.None? then false
    else uiauto == Text.Contains(info.value.package.GetOr(""), UiautoMarker)
  }

  /** `package_name_matches`. */
  function PackageNameMatches(info: Option<ApkInfo>, package: string): (r: bool)
    ensures r <==> info.Some? && info.value.package == Some(package)
  {
    if info.None? then false else info.value.package == Some(package)
  }

  /** A requested ABI (possibly `None`) is listed in the native code. */
  predicate AbiListed(abi: Option<string>, nativeCode: seq<string>) {
    abi.Some? && abi.value in nativeCode
  }

  /** The loop of `apk_abi_matches` without `exact_abi`. */
  function AnyAbiListed(abis: seq<Option<string>>, nativeCode: seq<string>): (r: bool)
    ensures r <==> exists i :: 0 <= i < |abis| && AbiListed(abis[i], nativeCode)
  {
    if |abis| == 0 then false
    else if AbiListed(abis[0], nativeCode) then true
    else
      var rest := AnyAbiListed(abis[1..], nativeCode);
      assert forall i :: 1 <= i < |abis| ==> abis[i] == abis[1..][i - 1];
      rest
  }

  /** `apk_abi_matches`. Python raises `IndexError` for an empty ABI list
      with `exact_abi`, so that call is excluded. */
  function ApkAbiMatches(info: Option<ApkInfo>, abis: seq<Option<string>>, exact: bool): (r: bool)
    requires exact ==> |abis| > 0
    ensures info.None? ==> !r
    ensures info.Some? && !HasNativeCode(info.value) ==> r
    ensures info.Some? && HasNativeCode(info.value) && exact ==> (r <==> AbiListed(abis[0], info.value.nativeCode.value))
    ensures info.Some? && HasNativeCode(info.value) && !exact ==>
      (r <==> exists i :: 0 <= i < |abis| && AbiListed(abis[i], info.value.nativeCode.value))
  {
    if info.None? then false
    else if !HasNativeCode(info.value) then true
    else if exact then AbiListed(abis[0], info.value.nativeCode.value)
    else AnyAbiListed(abis, info.value.nativeCode.value)
  }

  /** Whether each optional predicate of an APK request was supplied. */
  predicate AbiGiven(req: ApkRequest) {
    req.supportedAbi.Some? && |req.supportedAbi.value| > 0
  }

  /** `ApkFile.match`: the conjunction of the supplied predicates, each
      unsupplied one counting as true, and of the UI-automation predicate,
      which is always evaluated. */
  function ApkMatch(req: ApkRequest, path: string, info: Option<ApkInfo>, search: (string, string) -> bool): (r: bool)
    ensures r ==> info.Some?
    ensures r <==>
      && UiautoTestMatches(info, req.uiauto)
      && (VersionGiven(req.version) ==> ApkVersionMatches(info, ListOrString(req.version.value)))
      && (Given(req.minVersion) || Given(req.maxVersion) ==> ApkVersionMatchesRange(info, req.minVersion, req.maxVersion))
      && (Given(req.variant) ==> FileNameMatches(path, req.variant.value, search))
      && (Given(req.package) ==> PackageNameMatches(info, req.package.value))
      && (AbiGiven(req) ==> ApkAbiMatches(info, req.supportedAbi.value, req.exactAbi))
  {
    var uiautoMatches := UiautoTestMatches(info, req.uiauto);
    var versionMatches :=
      if VersionGiven(req.version) then ApkVersionMatches(info, ListOrString(req.version.value)) else true;
    var rangeMatches :=
      if Given(req.maxVersion) || Given(req.minVersion)
      then ApkVersionMatchesRange(info, req.minVersion, req.maxVersion) else true;
    var nameMatches := if Given(req.variant) then FileNameMatches(path, req.variant.value, search) else true;
    var packageMatches := if Given(req.package) then PackageNameMatches(info, req.package.value) else true;
    var abiMatches := if AbiGiven(req) then ApkAbiMatches(info, req.supportedAbi.value, req.exactAbi) else true;
    nameMatches && versionMatches && rangeMatches && uiautoMatches && packageMatches && abiMatches
  }

  /** `Resource.match`: APK requests use their own predicate, every other
      kind delegates to `match_path`. */
  function Match(res: Resource, path: string, info: Option<ApkInfo>, search: (string, string) -> bool): (r: bool)
    ensures !res.ApkFile? ==> r == MatchPath(res, path)
    ensures res.ApkFile? ==> r == ApkMatch(res.request, path, info, search)
  {
    match res
    case ApkFile(_, req) => ApkMatch(req, path, info, search)
    case _ => MatchPath(res, path)
  }

  // ---------------------------------------------------------------------
  // Properties of the APK matchers

  /** Only the base name counts: a file matches a variant pattern wherever
      its directory is. */
  lemma FileNameInDirectory(dir: string, name: string, pattern: string, search: (string, string) -> bool)
    requires |dir| == 0 || dir[|dir| - 1] == '/'
    requires '/' !in name
    ensures FileNameMatches(dir + name, pattern, search) == FileNameMatches(name, pattern, search)
  {
    Text.BasenameAfterDir(dir, name);
    Text.BasenameAfterDir("", name);
    assert "" + name == name;
  }

  /** For known metadata, exactly one of a UI-automation request and an
      ordinary request accepts the APK; for unknown metadata, neither. */
  lemma UiautoExactlyOne(info: Option<ApkInfo>)
    ensures info.Some? ==> UiautoTestMatches(info, true) != UiautoTestMatches(info, false)
    ensures info.None? ==> !UiautoTestMatches(info, true) && !UiautoTestMatches(info, false)
  {}

  /** At most one package name matches an APK. */
  lemma PackageNameUnique(info: Option<ApkInfo>, p: string, q: string)
    requires PackageNameMatches(info, p) && PackageNameMatches(info, q)
    ensures p == q
  {}

  /** An APK request naming a package matches only APKs whose metadata
      names that package. */
  lemma ApkMatchPackage(req: ApkRequest, path: string, info: Option<ApkInfo>, search: (string, string) -> bool)
    requires Given(req.package)
    requires ApkMatch(req, path, info, search)
    ensures info.Some? && info.value.package == req.package
  {}

  /** A UI-automation request matches only packages in the UI-automation
      namespace, and any other request only packages outside it. */
  lemma ApkMatchUiauto(req: ApkRequest, path: string, info: Option<ApkInfo>, search: (string, string) -> bool)
    requires ApkMatch(req, path, info, search)
    ensures info.Some?
    ensures req.uiauto <==> Text.Contains(info.value.package.GetOr(""), UiautoMarker)
  {}

  /** `narrow` asks for everything `req` asks for and possibly more: each
      criterion is either the same or not supplied in `req` (the version
      range counts as one criterion, as does the ABI list with its
      exactness). */
  predicate Narrows(narrow: ApkRequest, req: ApkRequest) {
    && narrow.uiauto == req.uiauto
    && (narrow.version == req.version || !VersionGiven(req.version))
    && ((narrow.minVersion == req.minVersion && narrow.maxVersion == req.maxVersion)
        || (!Given(req.minVersion) && !Given(req.maxVersion)))
    && (narrow.variant == req.variant || !Given(req.variant))
    && (narrow.package == req.package || !Given(req.package))
    && ((narrow.supportedAbi == req.supportedAbi && narrow.exactAbi == req.exactAbi) || !AbiGiven(req))
  }

  /** Supplying more criteria never turns a rejected APK into a match. */
  lemma NarrowingKeepsRejections(narrow: ApkRequest, req: ApkRequest, path: string, info: Option<ApkInfo>,
                                 search: (string, string) -> bool)
    requires Narrows(narrow, req)
    ensures ApkMatch(narrow, path, info, search) ==> ApkMatch(req, path, info, search)
  {}

  /** Only APK requests look at the metadata or the search: every other
      resource kind matches on the path alone. */
  lemma MatchIgnoresMetadata(res: Resource, path: string, i1: Option<ApkInfo>, i2: Option<ApkInfo>,
                             s1: (string, string) -> bool, s2: (string, string) -> bool)
    requires !res.ApkFile?
    ensures Match(res, path, i1, s1) == Match(res, path, i2, s2)
  {}

  // ---------------------------------------------------------------------
  // Properties

  /** An `Executable` never consults its ABI. */
  lemma ExecutableIgnoresAbi(owner: Owner, abi1: string, abi2: string, filename: string, path: string)
    ensures MatchPath(Executable(owner, abi1, filename), path) == MatchPath(Executable(owner, abi2, filename), path)
  {}

  /** A `JarFile` accepts every path. */
  lemma JarAcceptsEverything(owner: Owner, path: string, info: Option<ApkInfo>, search: (string, string) -> bool)
    ensures Match(JarFile(owner), path, info, search)
  {}

  /** The revent fields of a file named by joining dot-free fields in a
      directory are those fields. */
  lemma ReventPartsOfJoin(dir: string, fields: seq<string>)
    requires |dir| == 0 || dir[|dir| - 1] == '/'
    requires |fields| >= 1
    requires forall i :: 0 <= i < |fields| ==> '.' !in fields[i] && '/' !in fields[i]
    ensures ReventParts(dir + Text.Join(fields, '.')) == fields
  {
    Text.JoinWithout(fields, '.', '/');
    Text.BasenameAfterDir(dir, Text.Join(fields, '.'));
    Text.SplitJoin(fields, '.');
  }

  /** Revent captures are named `<target>.<stage>.revent` in a target's
      directory; that name is recognised. */
  lemma ReventNaming(dir: string, target: string, stage: string, owner: Owner)
    requires |dir| == 0 || dir[|dir| - 1] == '/'
    requires '.' !in target && '/' !in target && '.' !in stage && '/' !in stage
    ensures MatchPath(ReventFile(owner, stage, Some(target)), dir + Text.Join([target, stage, "revent"], '.'))
  {
    ReventPartsOfJoin(dir, [target, stage, "revent"]);
  }

  /** Without a target, `<stage>.revent` is recognised. */
  lemma ReventNamingWithoutTarget(dir: string, stage: string, owner: Owner)
    requires |dir| == 0 || dir[|dir| - 1] == '/'
    requires '.' !in stage && '/' !in stage
    ensures MatchPath(ReventFile(owner, stage, None), dir + Text.Join([stage, "revent"], '.'))
  {
    ReventPartsOfJoin(dir, [stage, "revent"]);
  }

  /** The extension of `stem + ext`, for a dot-free `ext` after a single
      dot and a stem not starting with a dot, is `ext`. */
  lemma ExtensionOfStem(stem: string, ext: string)
    requires |stem| > 0 && stem[0] != '.'
    requires |ext| > 0 && ext[0] == '.' && '.' !in ext[1..]
    ensures ExtensionOf(stem + ext) == ext
  {
    var name := stem + ext;
    forall j | |stem| < j < |name|
      ensures name[j] != '.'
    {
      assert name[j] == ext[1..][j - |stem| - 1];
    }
    Text.LastIndexOfAt(name, '.', |stem|);
    assert name[..|stem|][0] != '.';
    assert name[|stem|..] == ext;
  }

  /** A character that lowers to a letter is neither a dot nor a slash. */
  lemma LetterIsNotPunctuation(c: char, l: char)
    requires 'a' <= l <= 'z' && LowersTo(c, l)
    ensures c != '.' && c != '/'
  {}

  /** `stem.apk` in any directory has the APK extension, whatever the case
      of the extension, as long as the stem does not start with a dot. */
  lemma ApkExtensionRecognised(dir: string, stem: string, ext: string)
    requires |dir| == 0 || dir[|dir| - 1] == '/'
    requires |stem| > 0 && stem[0] != '.' && '/' !in stem
    requires |ext| == 4 && ext[0] == '.'
    requires LowersTo(ext[1], 'a') && LowersTo(ext[2], 'p') && LowersTo(ext[3], 'k')
    ensures HasApkExtension(dir + (stem + ext))
  {
    LetterIsNotPunctuation(ext[1], 'a');
    LetterIsNotPunctuation(ext[2], 'p');
    LetterIsNotPunctuation(ext[3], 'k');
    assert ext == [ext[0], ext[1], ext[2], ext[3]];
    assert ext[1..] == [ext[1], ext[2], ext[3]];
    Text.BasenameAfterDir(dir, stem + ext);
    ExtensionOfStem(stem, ext);
  }

  /** A `.txt` file is not an APK by its name. */
  lemma TextFileIsNotApkByName(stem: string)
    requires |stem| > 0 && stem[0] != '.' && '/' !in stem
    ensures !MatchPath(ApkFile(NoOne, DefaultApkRequest), stem + ".txt")
  {
    Text.BasenameAfterDir("", stem + ".txt");
    assert "" + (stem + ".txt") == stem + ".txt";
    ExtensionOfStem(stem, ".txt");
  }

  /** Every predicate an APK request leaves out counts as true, but the
      UI-automation check still applies. */
  lemma DefaultRequestChecksOnlyUiauto(path: string, info: Option<ApkInfo>, search: (string, string) -> bool)
    ensures ApkMatch(DefaultApkRequest, path, info, search) <==> UiautoTestMatches(info, false)
  {}

  /** `match` of an APK request does not look at the extension: a file
      with any name whose metadata lookup succeeds, for a package outside
      the UI-automation namespace, is accepted by the default request. */
  lemma ApkMatchIgnoresExtension(path: string, info: ApkInfo, search: (string, string) -> bool)
    requires !Text.Contains(info.package.GetOr(""), UiautoMarker)
    ensures Match(ApkFile(NoOne, DefaultApkRequest), path, Some(info), search)
  {
    DefaultRequestChecksOnlyUiauto(path, Some(info), search);
  }

  /** The exact ABI check is the stricter one. */
  lemma ExactAbiIsStricter(info: Option<ApkInfo>, abis: seq<Option<string>>)
    requires |abis| > 0
    ensures ApkAbiMatches(info, abis, true) ==> ApkAbiMatches(info, abis, false)
  {}

  /** With `exact_abi`, only the first requested ABI is looked at. */
  lemma ExactAbiLooksAtFirstOnly(info: Option<ApkInfo>, first: Option<string>, rest1: seq<Option<string>>, rest2: seq<Option<string>>)
    ensures ApkAbiMatches(info, [first] + rest1, true) == ApkAbiMatches(info, [first] + rest2, true)
  {}
}
