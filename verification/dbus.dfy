/** The D-Bus values the validation helpers consume: object paths,
    connections and property variants. Only their observable shape is
    modelled; the transport itself is not. */
module DBus {
  import opened Wrappers
  import opened Strings

  /** A D-Bus object path (`dbus.ObjectPath`), a string type of its own. */
  type ObjectPath = string

  /** A character allowed inside a path element: `[A-Za-z0-9_]`. */
  predicate IsElementChar(c: char) {
    || ('A' <= c <= 'Z') || ('a' <= c <= 'z') || ('0' <= c <= '9') || c == '_'
  }

  /** A path element is non-empty and made of element characters only. */
  predicate IsValidElement(e: string) {
    |e| > 0 && forall i :: 0 <= i < |e| ==> IsElementChar(e[i])
  }

  /** The structural check `ObjectPath.IsValid`, following "Valid Object
      Paths" in the D-Bus Specification: the path starts with '/', and unless
      it is the root path "/" the rest is a '/'-separated list of valid
      elements, so there is no empty element, no doubled '/' and no
      trailing '/'. */
  predicate IsValidObjectPath(p: ObjectPath) {
    && |p| > 0
    && p[0] == '/'
    && (p == "/" ||
        var elements := Split(p[1..], '/');
        forall i :: 0 <= i < |elements| ==> IsValidElement(elements[i]))
  }

  /** Joining valid elements with '/' gives a string that neither starts nor
      ends with '/', holds only '/' and element characters, and never holds
      two '/' in a row. */
  lemma {:induction false} JoinOfElementsShape(elements: seq<string>)
    requires |elements| >= 1
    requires forall k :: 0 <= k < |elements| ==> IsValidElement(elements[k])
    ensures var j := Join(elements, '/');
      && |j| > 0 && j[0] != '/' && j[|j| - 1] != '/'
      && (forall i :: 0 <= i < |j| ==> j[i] == '/' || IsElementChar(j[i]))
      && (forall i :: 0 <= i < |j| - 1 ==> j[i] != '/' || j[i + 1] != '/')
    decreases |elements|
  {
    var j := Join(elements, '/');
    var e := elements[0];
    assert IsValidElement(e);
    if |elements| == 1 {
      assert j == e;
    } else {
      var rest := Join(elements[1..], '/');
      JoinOfElementsShape(elements[1..]);
      assert j == e + ['/'] + rest;
      forall i | 0 <= i < |j|
        ensures j[i] == '/' || IsElementChar(j[i])
      {
        if i < |e| {
          assert j[i] == e[i];
        } else if i > |e| {
          assert j[i] == rest[i - |e| - 1];
        }
      }
      forall i | 0 <= i < |j| - 1
        ensures j[i] != '/' || j[i + 1] != '/'
      {
        if i < |e| {
          assert j[i] == e[i];
          assert IsElementChar(e[i]);
        } else if i == |e| {
          assert j[i + 1] == rest[0];
        } else {
          assert j[i] == rest[i - |e| - 1] && j[i + 1] == rest[i - |e|];
        }
      }
      assert j[|j| - 1] == rest[|rest| - 1];
    }
  }

  /** What the structural check means character by character: a valid path
      other than "/" holds only '/' and element characters, never two '/'
      in a row, and does not end with '/'. */
  lemma {:induction false} ValidPathShape(p: ObjectPath)
    requires IsValidObjectPath(p) && p != "/"
    ensures p[|p| - 1] != '/'
    ensures forall i :: 0 <= i < |p| ==> p[i] == '/' || IsElementChar(p[i])
    ensures forall i :: 0 <= i < |p| - 1 ==> p[i] != '/' || p[i + 1] != '/'
  {
    var elements := Split(p[1..], '/');
    JoinSplit(p[1..], '/');
    JoinOfElementsShape(elements);
    var j := p[1..];
    assert p == "/" + j;
    forall i | 0 <= i < |p|
      ensures p[i] == '/' || IsElementChar(p[i])
    {
      if i > 0 {
        assert p[i] == j[i - 1];
      }
    }
    forall i | 0 <= i < |p| - 1
      ensures p[i] != '/' || p[i + 1] != '/'
    {
      if i == 0 {
        assert p[1] == j[0];
      } else {
        assert p[i] == j[i - 1] && p[i + 1] == j[i];
      }
    }
  }

  /** A bus connection handle (`*dbus.Conn`): `None` is a nil pointer, and
      `Some(names)` is a connection reporting the bus names in `names`. */
  type Conn = Option<seq<string>>

  /** A property value (`dbus.Variant`), closed over the shapes a Secret
      Service property can take; `Other` stands for every remaining D-Bus type. */
  datatype Variant =
    | ObjectPaths(paths: seq<ObjectPath>)   // signature "ao"
    | SingleObjectPath(path: ObjectPath)    // signature "o"
    | Str(str: string)                      // signature "s"
    | StringList(strs: seq<string>)         // signature "as"
    | Int(n: int)                           // any integer signature
    | Bool(b: bool)                         // signature "b"
    | Other
}
