/** The precondition and error-classification helpers of the Secret Service
    client: connection and path validation, their combined check, extraction
    of object-path lists from property values, the name of an object from its
    path, and the heuristic that recognises errors from a legacy-draft
    service. Every helper is total; failures are returned, never raised. */
module Funcs {
  import opened Wrappers
  import opened Strings
  import opened DBus
  import opened Errors

  /** Object paths of prompt objects start with this prefix (the Secret
      Service API places prompts under `/org/freedesktop/secrets/prompt/`). */
  const DbusPromptPrefix: string := "/org/freedesktop/secrets/prompt/"

  /** The `(ok bool, err error)` pair returned by the single checks. */
  datatype Check = Check(ok: bool, err: Option<Error>)

  /** What a path check accepts: a raw string, a typed object path, or any
      other dynamic value (which the check rejects). */
  datatype PathArg = PathString(s: string) | PathObject(p: ObjectPath) | PathOther

  /** The joint outcome of checking a connection and a path. */
  datatype ConnPathCheckResult = ConnPathCheckResult(connOK: bool, pathOK: bool)

  /** The `(cr *ConnPathCheckResult, err error)` pair of `validConnPath`. */
  datatype ConnPathOutcome = ConnPathOutcome(result: ConnPathCheckResult, err: Option<Error>)

  /** The `(paths []dbus.ObjectPath, err error)` pair of the property extractors. */
  datatype PathsOutcome = PathsOutcome(paths: seq<ObjectPath>, err: Option<Error>)

  /** The `(isLegacy, parsed bool)` pair of `CheckErrIsFromLegacy`. */
  datatype LegacyVerdict = LegacyVerdict(isLegacy: bool, parsed: bool)

  /** `isPrompt`: a pure prefix test, with no validation of the path. */
  function IsPrompt(path: ObjectPath): (prompt: bool)
    ensures prompt <==> |DbusPromptPrefix| <= |path| && path[..|DbusPromptPrefix|] == DbusPromptPrefix
  {
    HasPrefix(path, DbusPromptPrefix)
  }

  /** `connIsValid`: a connection is live iff it is present and reports at
      least one bus name; a dead one yields `ErrNoDbusConn`. */
  function ConnIsValid(conn: Conn): (r: Check)
    ensures r.ok <==> conn.Some? && |conn.value| >= 1
    ensures r.ok <==> r.err.None?
    ensures !r.ok ==> r.err == Some(NoDbusConn)
  {
    if conn.None? || |conn.value| < 1 then Check(false, Some(NoDbusConn))
    else Check(true, None)
  }

  /** `pathIsValid`: a typed object path must pass the structural check; a
      raw string is taken as is; then the path must not be blank after
      trimming whitespace. Any other argument, and any failure, yields
      `ErrBadDbusPath`. */
  function PathIsValid(path: PathArg): (r: Check)
    ensures r.ok <==> r.err.None?
    ensures !r.ok ==> r.err == Some(BadDbusPath)
    ensures path.PathString? ==> (r.ok <==> !AllSpace(path.s))
    ensures path.PathObject? ==> (r.ok <==> IsValidObjectPath(path.p) && !AllSpace(path.p))
    ensures path.PathOther? ==> !r.ok
  {
    var realPath: Option<string> :=
      match path
      case PathObject(p) => if IsValidObjectPath(p) then Some(p) else None
      case PathString(s) => Some(s)
      case PathOther => None;
    if realPath.None? || TrimSpace(realPath.value) == "" then Check(false, Some(BadDbusPath))
    else Check(true, None)
  }

  /** `validConnPath`: runs both checks without stopping at the first
      failure, collecting each failure in order into one aggregate error,
      which is returned only when it is not empty. */
  function ValidConnPath(conn: Conn, path: PathArg): (r: ConnPathOutcome)
    ensures r.result.connOK == ConnIsValid(conn).ok
    ensures r.result.pathOK == PathIsValid(path).ok
    ensures r.err.None? <==> r.result.connOK && r.result.pathOK
    ensures !r.result.connOK && !r.result.pathOK ==> r.err == Some(Aggregate([NoDbusConn, BadDbusPath]))
    ensures !r.result.connOK && r.result.pathOK ==> r.err == Some(Aggregate([NoDbusConn]))
    ensures r.result.connOK && !r.result.pathOK ==> r.err == Some(Aggregate([BadDbusPath]))
  {
    var connCheck := ConnIsValid(conn);
    var errs := AddError([], connCheck.err);
    var pathCheck := PathIsValid(path);
    var errs' := AddError(errs, pathCheck.err);
    assert !connCheck.ok && !pathCheck.ok ==> errs' == [NoDbusConn, BadDbusPath];
    var cr := ConnPathCheckResult(connCheck.ok, pathCheck.ok);
    if !IsEmpty(errs') then ConnPathOutcome(cr, Some(Aggregate(errs')))
    else ConnPathOutcome(cr, None)
  }

  /** `pathsFromProp`: a variant holding a list of object paths yields that
      list unchanged; any other shape, a single object path included, yields
      no paths and `ErrInvalidProperty`. */
  function PathsFromProp(prop: Variant): (r: PathsOutcome)
    ensures r.err.None? <==> prop.ObjectPaths?
    ensures prop.ObjectPaths? ==> r.paths == prop.paths
    ensures r.err.Some? ==> r.paths == [] && r.err.value == InvalidProperty
  {
    match prop
    case ObjectPaths(v) => PathsOutcome(v, None)
    case _ => PathsOutcome([], Some(InvalidProperty))
  }

  /** `pathsFromPath`: fetches the named property with `getProperty` (the
      bus object's `GetProperty`, the one bus round trip of these helpers)
      and narrows it. A fetch error is passed through unchanged, with no
      paths. */
  function PathsFromPath(getProperty: string -> Result<Variant, Error>, property: string): (r: PathsOutcome)
    ensures getProperty(property).Failure? ==> r == PathsOutcome([], Some(getProperty(property).error))
    ensures getProperty(property).Success? ==>
      var v := getProperty(property).value;
      && (r.err.None? <==> v.ObjectPaths?)
      && (v.ObjectPaths? ==> r.paths == v.paths)
      && (r.err.Some? ==> r.paths == [] && r.err.value == InvalidProperty)
  {
    match getProperty(property)
    case Failure(e) => PathsOutcome([], Some(e))
    case Success(v) => PathsFromProp(v)
  }

  /** `NameFromPath`: an object path that fails `pathIsValid` yields
      `ErrBadDbusPath`; a valid one yields its last '/'-separated segment,
      which contains no '/' and stands right after the path's last '/'. */
  function NameFromPath(path: ObjectPath): (r: Result<string, Error>)
    ensures r.Failure? <==> !PathIsValid(PathObject(path)).ok
    ensures r.Failure? ==> r.error == BadDbusPath
    ensures r.Success? ==>
      var name := r.value;
      && '/' !in name
      && |name| < |path|
      && path[|path| - |name|..] == name
      && path[|path| - |name| - 1] == '/'
  {
    var check := PathIsValid(PathObject(path));
    if check.err.Some? then Failure(check.err.value)
    else if !check.ok then Failure(BadDbusPath)
    else
      var strSplit := Split(path, '/');
      if |strSplit| < 1 then Failure(BadDbusPath)
      else
        JoinSplit(path, '/');
        JoinLastPiece(strSplit, '/');
        var name := strSplit[|strSplit| - 1];
        Success(name)
  }

  /** The position of the first member of `errs`, from `from` on, that is a
      D-Bus error named `UnknownProperty`, if there is one. */
  function FirstUnknownProperty(errs: seq<Error>, from: nat): (r: Option<nat>)
    requires from <= |errs|
    ensures r.Some? ==> from <= r.value < |errs| && IsUnknownProperty(errs[r.value])
    ensures r.Some? ==> forall j :: from <= j < r.value ==> !IsUnknownProperty(errs[j])
    ensures r.None? ==> forall j :: from <= j < |errs| ==> !IsUnknownProperty(errs[j])
    decreases |errs| - from
  {
    if from == |errs| then None
    else if IsUnknownProperty(errs[from]) then Some(from)
    else FirstUnknownProperty(errs, from + 1)
  }

  /** `CheckErrIsFromLegacy`: an aggregate is parsed and is legacy iff one of
      its members (nested aggregates are not looked into) is a D-Bus
      `UnknownProperty` error; a single D-Bus error is parsed and is legacy
      iff it is that error; anything else, nil included, is not parsed. A
      false `isLegacy` does not prove the service follows the current
      specification. */
  function CheckErrIsFromLegacy(err: Option<Error>): (r: LegacyVerdict)
    ensures r.isLegacy ==> r.parsed
    ensures r.parsed <==> err.Some? && (err.value.Aggregate? || err.value.BusError?)
    ensures err.Some? && err.value.Aggregate? ==>
      (r.isLegacy <==> exists i :: 0 <= i < |err.value.errors| && IsUnknownProperty(err.value.errors[i]))
    ensures err.Some? && err.value.BusError? ==> (r.isLegacy <==> err.value.name == UnknownPropertyName)
  {
    match err
    case Some(Aggregate(errs)) => LegacyVerdict(FirstUnknownProperty(errs, 0).Some?, true)
    case Some(BusError(name)) => LegacyVerdict(name == UnknownPropertyName, true)
    case _ => LegacyVerdict(false, false)
  }
}
