/** Properties that relate several helpers to each other, to the D-Bus rules
    for object paths, and to concrete Secret Service paths and calls. */
module Properties {
  import opened Wrappers
  import opened Strings
  import opened DBus
  import opened Errors
  import opened Funcs

  /** For a typed object path, the blank-after-trimming test adds nothing to
      the structural check: a structurally valid path starts with '/'. */
  lemma {:induction false} ObjectPathCheckIsStructural(p: ObjectPath)
    ensures PathIsValid(PathObject(p)).ok <==> IsValidObjectPath(p)
  {
    if IsValidObjectPath(p) {
      assert !IsSpace(p[0]);
    }
  }

  /** A raw string passes the path check exactly when trimming leaves
      something; the empty string and pure whitespace fail. */
  lemma {:induction false} StringCheckIsNonBlank(s: string)
    ensures PathIsValid(PathString(s)).ok <==> TrimSpace(s) != ""
    ensures PathIsValid(PathString("")).err == Some(BadDbusPath)
  {
  }

  /** Every prompt path is a non-blank string, and the empty path is never a
      prompt. */
  lemma {:induction false} PromptPathsAreNotBlank(p: ObjectPath)
    ensures IsPrompt(p) ==> PathIsValid(PathString(p)).ok
    ensures !IsPrompt("")
  {
    if IsPrompt(p) {
      assert p[0] == DbusPromptPrefix[0];
      assert !IsSpace(p[0]);
    }
  }

  /** Splitting a path that starts with '/' yields an empty first piece
      followed by the pieces of the rest. */
  lemma {:induction false} SplitAfterLeadingSlash(p: ObjectPath)
    requires |p| > 0 && p[0] == '/'
    ensures Split(p, '/') == [""] + Split(p[1..], '/')
  {
    assert p == [p[0]] + p[1..];
  }

  /** In a path that starts with '/', the last piece of the split is a
      '/'-free suffix standing right after a '/'. */
  lemma {:induction false} LastPieceFollowsSlash(p: ObjectPath)
    requires |p| > 0 && p[0] == '/'
    ensures var pieces := Split(p, '/'); var last := pieces[|pieces| - 1];
      && |last| < |p| && p[|p| - |last|..] == last
      && p[|p| - |last| - 1] == '/' && '/' !in last
  {
    var pieces := Split(p, '/');
    SplitAfterLeadingSlash(p);
    JoinSplit(p, '/');
    JoinLastPiece(pieces, '/');
  }

  /** The only '/'-free suffix of such a path that stands right after a '/'
      is the last piece of its split. */
  lemma {:induction false} SuffixAfterSlashIsLastPiece(p: ObjectPath, name: string)
    requires |p| > 0 && p[0] == '/'
    requires |name| < |p| && p[|p| - |name|..] == name && p[|p| - |name| - 1] == '/' && '/' !in name
    ensures var pieces := Split(p, '/'); name == pieces[|pieces| - 1]
  {
    var pieces := Split(p, '/');
    LastPieceFollowsSlash(p);
    SuffixAfterSepUnique(p, name, pieces[|pieces| - 1], '/');
  }

  /** A path that passes the check is named by the last piece of its split. */
  lemma {:induction false} NameIsLastPiece(p: ObjectPath)
    requires PathIsValid(PathObject(p)).ok
    ensures var pieces := Split(p, '/');
      NameFromPath(p) == Success(pieces[|pieces| - 1])
  {
    assert |p| > 0 && p[0] == '/';
    SuffixAfterSlashIsLastPiece(p, NameFromPath(p).value);
  }

  /** The name is characterised without splitting: for a path that passes
      the check it is the one '/'-free suffix that stands right after a '/'. */
  lemma {:induction false} NameIsUniqueSuffix(p: ObjectPath, name: string)
    requires PathIsValid(PathObject(p)).ok
    requires |name| < |p| && p[|p| - |name|..] == name && p[|p| - |name| - 1] == '/' && '/' !in name
    ensures NameFromPath(p) == Success(name)
  {
    var r := NameFromPath(p);
    SuffixAfterSepUnique(p, name, r.value, '/');
  }

  /** In a path that starts with '/', the last piece of the split is the
      last element after the leading '/'. */
  lemma {:induction false} LastPieceIsLastElement(p: ObjectPath)
    requires |p| > 0 && p[0] == '/'
    ensures var pieces := Split(p, '/'); var elements := Split(p[1..], '/');
      pieces[|pieces| - 1] == elements[|elements| - 1]
  {
    SplitAfterLeadingSlash(p);
  }

  /** For a structurally valid path other than the root, the name is its
      last element: non-empty and made of `[A-Za-z0-9_]` only. */
  lemma {:induction false} NameOfValidPathIsElement(p: ObjectPath)
    requires IsValidObjectPath(p) && p != "/"
    ensures NameFromPath(p).Success?
    ensures IsValidElement(NameFromPath(p).value)
  {
    ObjectPathCheckIsStructural(p);
    NameIsLastPiece(p);
    LastPieceIsLastElement(p);
    var elements := Split(p[1..], '/');
    assert IsValidElement(elements[|elements| - 1]);
  }

  /** The path of the child named `e` of `parent`. */
  function ChildPath(parent: ObjectPath, e: string): ObjectPath
  {
    if parent == "/" then "/" + e else parent + "/" + e
  }

  /** The child of a valid path by a valid element is a valid path whose
      last element is that element. */
  lemma {:induction false} ChildPathIsValid(parent: ObjectPath, e: string)
    requires IsValidObjectPath(parent) && IsValidElement(e)
    ensures IsValidObjectPath(ChildPath(parent, e))
    ensures var elements := Split(ChildPath(parent, e)[1..], '/'); elements[|elements| - 1] == e
  {
    var child := ChildPath(parent, e);
    assert '/' !in e;
    var elements := Split(child[1..], '/');
    if parent == "/" {
      assert child[1..] == e;
      SplitFreeHead(e, "", '/');
      assert e + "" == e;
      assert elements == [e];
    } else {
      assert child[1..] == parent[1..] + "/" + e;
      SplitAppendPiece(parent[1..], e, '/');
      var above := Split(parent[1..], '/');
      assert elements == above + [e];
      assert forall i :: 0 <= i < |above| ==> IsValidElement(above[i]);
    }
    assert forall i :: 0 <= i < |elements| ==> IsValidElement(elements[i]);
    ValidFromElements(child);
  }

  /** A valid path is named by its last element. */
  lemma {:induction false} NameIsLastElement(p: ObjectPath, e: string)
    requires IsValidObjectPath(p)
    requires var elements := Split(p[1..], '/'); elements[|elements| - 1] == e
    ensures NameFromPath(p) == Success(e)
  {
    ObjectPathCheckIsStructural(p);
    NameIsLastPiece(p);
    LastPieceIsLastElement(p);
  }

  /** Building a child path from a valid parent and a valid element gives a
      valid path whose name is that element. */
  lemma {:induction false} NameOfChildPath(parent: ObjectPath, e: string)
    requires IsValidObjectPath(parent) && IsValidElement(e)
    ensures IsValidObjectPath(ChildPath(parent, e))
    ensures NameFromPath(ChildPath(parent, e)) == Success(e)
  {
    ChildPathIsValid(parent, e);
    NameIsLastElement(ChildPath(parent, e), e);
  }

  /** The root path is valid and its name is empty. */
  lemma NameOfRootIsEmpty()
    ensures NameFromPath("/") == Success("")
  {
    ObjectPathCheckIsStructural("/");
    NameIsLastPiece("/");
    SplitAfterLeadingSlash("/");
    assert Split("", '/') == [""];
  }

  /** A path that starts with '/' and whose elements are all valid is a
      valid object path. */
  lemma {:induction false} ValidFromElements(p: ObjectPath)
    requires |p| > 0 && p[0] == '/'
    requires var elements := Split(p[1..], '/');
      forall i :: 0 <= i < |elements| ==> IsValidElement(elements[i])
    ensures IsValidObjectPath(p)
  {
  }

  /** The elements of the Secret Service's default `login` collection path
      are valid elements. */
  lemma CollectionPathElementsAreValid()
    ensures IsValidElement("org") && IsValidElement("freedesktop") && IsValidElement("secrets")
    ensures IsValidElement("collection") && IsValidElement("login")
  {
  }

  /** The name of the Secret Service's default collection path
      `/org/freedesktop/secrets/collection/login`, built here one element at
      a time from the root, is `login`. */
  lemma NameOfCollectionPath()
    ensures NameFromPath(
      ChildPath(ChildPath(ChildPath(ChildPath(ChildPath("/", "org"), "freedesktop"), "secrets"), "collection"), "login"))
      == Success("login")
  {
    var e1, e2, e3, e4, e5 := "org", "freedesktop", "secrets", "collection", "login";
    CollectionPathElementsAreValid();
    var root: ObjectPath := "/";
    assert IsValidObjectPath(root);
    ChildPathIsValid(root, e1);
    var c1 := ChildPath(root, e1);
    ChildPathIsValid(c1, e2);
    var c2 := ChildPath(c1, e2);
    ChildPathIsValid(c2, e3);
    var c3 := ChildPath(c2, e3);
    ChildPathIsValid(c3, e4);
    var c4 := ChildPath(c3, e4);
    NameOfChildPath(c4, e5);
  }

  /** The `ChildPath` steps from the root spell out the collection path,
      one element at a time. */
  lemma ChildPathOrg()
    ensures ChildPath("/", "org") == "/org"
  {
  }

  lemma ChildPathFreedesktop()
    ensures ChildPath("/org", "freedesktop") == "/org/freedesktop"
  {
  }

  lemma ChildPathSecrets()
    ensures ChildPath("/org/freedesktop", "secrets") == "/org/freedesktop/secrets"
  {
  }

  lemma ChildPathCollection()
    ensures ChildPath("/org/freedesktop/secrets", "collection") == "/org/freedesktop/secrets/collection"
  {
  }

  lemma ChildPathLogin()
    ensures ChildPath("/org/freedesktop/secrets/collection", "login") == "/org/freedesktop/secrets/collection/login"
  {
  }

  /** The name of `/org/freedesktop/secrets/collection/login`, written as
      one literal, is `login`. */
  lemma NameOfCollectionPathLiteral()
    ensures NameFromPath("/org/freedesktop/secrets/collection/login") == Success("login")
  {
    ChildPathOrg();
    ChildPathFreedesktop();
    ChildPathSecrets();
    ChildPathCollection();
    ChildPathLogin();
    NameOfCollectionPath();
  }

  /** The empty path is rejected. */
  lemma NameOfEmptyPathFails()
    ensures NameFromPath("") == Failure(BadDbusPath)
  {
    assert !IsValidObjectPath("");
  }

  /** A live connection and a blank path give a connection that passed, a
      path that failed, and one `BadDbusPath`. */
  lemma LiveConnBlankPathScenario(names: seq<string>)
    requires |names| >= 1
    ensures ValidConnPath(Some(names), PathString("")) ==
      ConnPathOutcome(ConnPathCheckResult(true, false), Some(Aggregate([BadDbusPath])))
  {
  }

  /** An aggregate produced by the combined check is always parsed by the
      legacy heuristic and never taken for a legacy symptom: it only ever
      holds the package's own sentinels. */
  lemma {:induction false} ValidationErrorsAreNotLegacy(conn: Conn, path: PathArg)
    requires ValidConnPath(conn, path).err.Some?
    ensures CheckErrIsFromLegacy(ValidConnPath(conn, path).err) == LegacyVerdict(false, true)
  {
    var errs := ValidConnPath(conn, path).err.value.errors;
    forall i | 0 <= i < |errs|
      ensures !IsUnknownProperty(errs[i])
    {
      assert errs[i] == NoDbusConn || errs[i] == BadDbusPath;
    }
  }

  /** The scan looks at the members of an aggregate only: an
      `UnknownProperty` error nested one aggregate deeper is not found, so
      the verdict is "parsed, not legacy". */
  lemma NestedAggregateIsNotInspected()
    ensures CheckErrIsFromLegacy(Some(Aggregate([Aggregate([BusError(UnknownPropertyName)])])))
      == LegacyVerdict(false, true)
  {
  }

  /** An `UnknownProperty` error anywhere among the members makes the
      aggregate legacy, whatever surrounds it; sentinel and transport
      errors on their own are never parsed. */
  lemma {:induction false} LegacySymptomAnywhereIsFound(before: seq<Error>, after: seq<Error>)
    ensures CheckErrIsFromLegacy(Some(Aggregate(before + [BusError(UnknownPropertyName)] + after)))
      == LegacyVerdict(true, true)
    ensures CheckErrIsFromLegacy(Some(BadDbusPath)) == LegacyVerdict(false, false)
    ensures CheckErrIsFromLegacy(None) == LegacyVerdict(false, false)
  {
    var errs := before + [BusError(UnknownPropertyName)] + after;
    assert IsUnknownProperty(errs[|before|]);
  }

  /** A single object path is not promoted to a one-element list, while a
      list of paths comes back unchanged. */
  lemma PathsFromPropNoPromotion(p: ObjectPath, ps: seq<ObjectPath>)
    ensures PathsFromProp(SingleObjectPath(p)) == PathsOutcome([], Some(InvalidProperty))
    ensures PathsFromProp(ObjectPaths(ps)) == PathsOutcome(ps, None)
  {
  }

  /** Fetching and narrowing agrees with narrowing the fetched value. */
  lemma {:induction false} PathsFromPathNarrowsFetched(getProperty: string -> Result<Variant, Error>, property: string)
    requires getProperty(property).Success?
    ensures PathsFromPath(getProperty, property) == PathsFromProp(getProperty(property).value)
  {
  }
}
