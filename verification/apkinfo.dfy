/** The APK metadata record and its plain-old-data form
    (wa/utils/android.py: ApkInfo.to_pod / ApkInfo.from_pod). */
module ApkInfos {
  import opened Wrappers

  /** Metadata extracted from an APK. Every field that the record may hold
      as `None` is optional, the native-code list included; the other list
      fields are lists of strings. */
  datatype ApkInfo = ApkInfo(
    path: Option<string>,
    package: Option<string>,
    activity: Option<string>,
    appLabel: Option<string>,
    versionName: Option<string>,
    versionCode: Option<string>,
    nativeCode: Option<seq<string>>,
    permissions: seq<string>,
    apkPath: Option<string>,
    activities: seq<string>,
    methods: seq<string>)

  /** A value inside a pod. */
  datatype PodValue = PNone | PInt(i: int) | PStr(s: string) | PList(items: seq<string>)

  /** The keys of an ApkInfo pod; `KeyName` gives the string Python uses. */
  datatype PodKey =
    | PodVersion | PathKey | PackageKey | ActivityKey | LabelKey
    | VersionNameKey | VersionCodeKey | NativeCodeKey | PermissionsKey
    | ApkPathKey | ActivitiesKey | MethodsKey

  function KeyName(k: PodKey): string {
    match k
    case PodVersion => "_pod_version"
    case PathKey => "path"
    case PackageKey => "package"
    case ActivityKey => "activity"
    case LabelKey => "label"
    case VersionNameKey => "version_name"
    case VersionCodeKey => "version_code"
    case NativeCodeKey => "native_code"
    case PermissionsKey => "permissions"
    case ApkPathKey => "_apk_path"
    case ActivitiesKey => "_activities"
    case MethodsKey => "_methods"
  }

  /** A pod: the dictionary that `write_pod` persists. */
  type Pod = map<PodKey, PodValue>

  const PodSerializationVersion: int := 1

  /** The eleven keys `from_pod` reads: all but the pod version. */
  predicate IsFieldKey(k: PodKey) {
    !k.PodVersion?
  }

  function OptionalToPod(v: Option<string>): PodValue {
    match v
    case None => PNone
    case Some(s) => PStr(s)
  }

  function OptionalListToPod(v: Option<seq<string>>): PodValue {
    match v
    case None => PNone
    case Some(xs) => PList(xs)
  }

  /** Whether the APK lists native code: `info.native_code` is truthy. */
  predicate HasNativeCode(info: ApkInfo) {
    info.nativeCode.Some? && |info.nativeCode.value| > 0
  }

  /** `ApkInfo.to_pod`: the base class contributes the pod version, and
      every field is stored under its own key. */
  function ToPod(info: ApkInfo): (pod: Pod)
    ensures PodVersion in pod && pod[PodVersion] == PInt(PodSerializationVersion)
  {
    map[
      PodVersion := PInt(PodSerializationVersion),
      PathKey := OptionalToPod(info.path),
      PackageKey := OptionalToPod(info.package),
      ActivityKey := OptionalToPod(info.activity),
      LabelKey := OptionalToPod(info.appLabel),
      VersionNameKey := OptionalToPod(info.versionName),
      VersionCodeKey := OptionalToPod(info.versionCode),
      NativeCodeKey := OptionalListToPod(info.nativeCode),
      PermissionsKey := PList(info.permissions),
      ApkPathKey := OptionalToPod(info.apkPath),
      ActivitiesKey := PList(info.activities),
      MethodsKey := PList(info.methods)
    ]
  }

  /** Why a pod could not be read back. */
  datatype PodError = MissingKey(key: PodKey) | IllTyped(key: PodKey)

  function OptionalField(pod: Pod, key: PodKey): Result<Option<string>, PodError> {
    if key !in pod then Err(MissingKey(key))
    else match pod[key]
      case PNone => Ok(None)
      case PStr(s) => Ok(Some(s))
      case _ => Err(IllTyped(key))
  }

  function OptionalListField(pod: Pod, key: PodKey): Result<Option<seq<string>>, PodError> {
    if key !in pod then Err(MissingKey(key))
    else match pod[key]
      case PNone => Ok(None)
      case PList(xs) => Ok(Some(xs))
      case _ => Err(IllTyped(key))
  }

  function ListField(pod: Pod, key: PodKey): Result<seq<string>, PodError> {
    if key !in pod then Err(MissingKey(key))
    else match pod[key]
      case PList(xs) => Ok(xs)
      case _ => Err(IllTyped(key))
  }

  /** `ApkInfo.from_pod`: reads the eleven field keys in order; a missing
      key is the `KeyError` Python raises. */
  function FromPod(pod: Pod): (r: Result<ApkInfo, PodError>)
    ensures r.Err? && r.error.MissingKey? ==> IsFieldKey(r.error.key) && r.error.key !in pod
    ensures (exists k :: IsFieldKey(k) && k !in pod) ==> r.Err?
  {
    var path :- OptionalField(pod, PathKey);
    var package :- OptionalField(pod, PackageKey);
    var activity :- OptionalField(pod, ActivityKey);
    var appLabel :- OptionalField(pod, LabelKey);
    var versionName :- OptionalField(pod, VersionNameKey);
    var versionCode :- OptionalField(pod, VersionCodeKey);
    var nativeCode :- OptionalListField(pod, NativeCodeKey);
    var permissions :- ListField(pod, PermissionsKey);
    var apkPath :- OptionalField(pod, ApkPathKey);
    var activities :- ListField(pod, ActivitiesKey);
    var methods :- ListField(pod, MethodsKey);
    Ok(ApkInfo(path, package, activity, appLabel, versionName, versionCode,
               nativeCode, permissions, apkPath, activities, methods))
  }

  /** `from_pod(to_pod(info))` carries every field across unchanged. */
  lemma FromPodToPod(info: ApkInfo)
    ensures FromPod(ToPod(info)) == Ok(info)
  {
    var pod := ToPod(info);
    assert OptionalField(pod, PathKey) == Ok(info.path);
    assert OptionalField(pod, PackageKey) == Ok(info.package);
    assert OptionalField(pod, ActivityKey) == Ok(info.activity);
    assert OptionalField(pod, LabelKey) == Ok(info.appLabel);
    assert OptionalField(pod, VersionNameKey) == Ok(info.versionName);
    assert OptionalField(pod, VersionCodeKey) == Ok(info.versionCode);
    assert OptionalListField(pod, NativeCodeKey) == Ok(info.nativeCode);
    assert ListField(pod, PermissionsKey) == Ok(info.permissions);
    assert OptionalField(pod, ApkPathKey) == Ok(info.apkPath);
    assert ListField(pod, ActivitiesKey) == Ok(info.activities);
    assert ListField(pod, MethodsKey) == Ok(info.methods);
  }
}
