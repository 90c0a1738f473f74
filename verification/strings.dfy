/** The part of Go's `strings` and `unicode` packages that the validation
    helpers use: whitespace trimming, prefix tests and splitting on a
    one-character separator. Strings are sequences of Unicode scalar values. */
module Strings {

  /** Go's `unicode.IsSpace`: the Latin-1 spaces plus every other code point
      with the Unicode White_Space property. */
  predicate IsSpace(c: char) {
    var n := c as int;
    || (0x09 <= n <= 0x0D) || n == 0x20 || n == 0x85 || n == 0xA0
    || n == 0x1680 || (0x2000 <= n <= 0x200A)
    || n == 0x2028 || n == 0x2029 || n == 0x202F || n == 0x205F || n == 0x3000
  }

  /** Every character of `s` is whitespace (vacuously true of ""). */
  predicate AllSpace(s: string) {
    forall i :: 0 <= i < |s| ==> IsSpace(s[i])
  }

  /** `p` is a prefix of `s` (Go's `strings.HasPrefix(s, p)`). */
  predicate HasPrefix(s: string, p: string) {
    |p| <= |s| && s[..|p|] == p
  }

  /** Within Latin-1, Go's whitespace is exactly '\t', '\n', '\v', '\f',
      '\r', ' ', U+0085 (NEL) and U+00A0 (NBSP). */
  lemma Latin1Spaces(c: char)
    requires c as int < 0x100
    ensures IsSpace(c) <==> c in ['\t', '\n', '\U{0B}', '\U{0C}', '\r', ' ', '\U{85}', '\U{A0}']
  {
  }

  /** `p` is a prefix of `s` exactly when `s` is `p` followed by something. */
  lemma HasPrefixSplits(s: string, p: string)
    ensures HasPrefix(s, p) <==> exists t :: s == p + t
  {
    if HasPrefix(s, p) {
      assert s == p + s[|p|..];
    }
  }

  /** Drops the leading whitespace of `s`: the result is a suffix of `s`,
      everything dropped is whitespace and the result does not start with it. */
  function TrimLeft(s: string): (r: string)
    ensures |r| <= |s| && r == s[|s| - |r|..]
    ensures AllSpace(s[..|s| - |r|])
    ensures r == [] || !IsSpace(r[0])
  {
    if |s| > 0 && IsSpace(s[0]) then
      var r := TrimLeft(s[1..]);
      assert s[..|s| - |r|] == [s[0]] + s[1..][..|s| - 1 - |r|];
      r
    else s
  }

  /** Drops the trailing whitespace of `s`: the result is a prefix of `s`,
      everything dropped is whitespace and the result does not end with it. */
  function TrimRight(s: string): (r: string)
    ensures |r| <= |s| && r == s[..|r|]
    ensures AllSpace(s[|r|..])
    ensures r == [] || !IsSpace(r[|r| - 1])
  {
    if |s| > 0 && IsSpace(s[|s| - 1]) then
      var r := TrimRight(s[..|s| - 1]);
      assert s[|r|..] == s[..|s| - 1][|r|..] + [s[|s| - 1]];
      r
    else s
  }

  /** Go's `strings.TrimSpace`: removes leading and trailing whitespace.
      Nothing is left exactly when the whole string is whitespace; what is
      left neither starts nor ends with whitespace, and `TrimSpaceIsInfix`
      says where in `s` it comes from. */
  function TrimSpace(s: string): (r: string)
    ensures |r| <= |s|
    ensures r == [] <==> AllSpace(s)
    ensures r != [] ==> !IsSpace(r[0]) && !IsSpace(r[|r| - 1])
  {
    var left := TrimLeft(s);
    var r := TrimRight(left);
    if r == [] then
      assert s == s[..|s| - |left|] + left;
      assert left == left[..0] + left[0..];
      r
    else
      assert r[0] == left[0];
      r
  }

  /** `TrimSpace` only cuts: its result is the infix of `s` that remains
      once a whitespace prefix and a whitespace suffix are removed. */
  lemma {:induction false} TrimSpaceIsInfix(s: string)
    ensures exists i :: 0 <= i <= |s| - |TrimSpace(s)| && TrimSpace(s) == s[i..i + |TrimSpace(s)|]
                        && AllSpace(s[..i]) && AllSpace(s[i + |TrimSpace(s)|..])
  {
    var left := TrimLeft(s);
    var r := TrimRight(left);
    assert TrimSpace(s) == r;
    InfixOfTrims(s, left, r);
  }

  /** A whitespace-free cut of a whitespace-free cut is an infix between
      whitespace: the two trimming steps of `TrimSpace` compose. */
  lemma {:induction false} InfixOfTrims(s: string, left: string, r: string)
    requires |left| <= |s| && left == s[|s| - |left|..] && AllSpace(s[..|s| - |left|])
    requires |r| <= |left| && r == left[..|r|] && AllSpace(left[|r|..])
    ensures exists i :: 0 <= i <= |s| - |r| && r == s[i..i + |r|] && AllSpace(s[..i]) && AllSpace(s[i + |r|..])
  {
    var i := |s| - |left|;
    assert s[i..i + |r|] == left[..|r|];
    assert s[i + |r|..] == left[|r|..];
  }

  /** Go's `strings.Join` with a one-character separator. */
  function Join(parts: seq<string>, sep: char): string
  {
    if |parts| == 0 then ""
    else if |parts| == 1 then parts[0]
    else parts[0] + [sep] + Join(parts[1..], sep)
  }

  /** Go's `strings.Split(s, sep)` for a one-character separator: the pieces
      between separators, at least one of them (`Split("")` is `[""]`), none
      containing the separator. `JoinSplit` shows that joining them back
      gives `s`. */
  function Split(s: string, sep: char): (parts: seq<string>)
    ensures |parts| >= 1
    ensures forall i :: 0 <= i < |parts| ==> sep !in parts[i]
  {
    if |s| == 0 then [""]
    else
      var rest := Split(s[1..], sep);
      if s[0] == sep then [""] + rest
      else
        var head := [s[0]] + rest[0];
        assert sep !in head;
        [head] + rest[1..]
  }

  /** Joining the pieces of a split gives back the split string. */
  lemma {:induction false} JoinSplit(s: string, sep: char)
    ensures Join(Split(s, sep), sep) == s
  {
    if |s| > 0 {
      var rest := Split(s[1..], sep);
      JoinSplit(s[1..], sep);
      assert s == [s[0]] + s[1..];
      if s[0] == sep {
        var parts := [""] + rest;
        assert parts[0] == "" && parts[1..] == rest;
      } else {
        JoinExtendsHead([s[0]], rest, sep);
      }
    }
  }

  /** Gluing a string onto the first piece glues it onto the joined string. */
  lemma {:induction false} JoinExtendsHead(x: string, parts: seq<string>, sep: char)
    requires |parts| >= 1
    ensures Join([x + parts[0]] + parts[1..], sep) == x + Join(parts, sep)
  {
    var glued := [x + parts[0]] + parts[1..];
    assert glued[1..] == parts[1..];
  }

  /** Splitting a separator-free head followed by anything puts the head in
      front of the first piece of the rest. */
  lemma {:induction false} SplitFreeHead(x: string, t: string, sep: char)
    requires sep !in x
    ensures Split(x + t, sep) == [x + Split(t, sep)[0]] + Split(t, sep)[1..]
  {
    var pieces := Split(t, sep);
    if |x| > 0 {
      var u := x + t;
      assert u[0] == x[0] && u[1..] == x[1..] + t;
      assert x[0] != sep;
      SplitFreeHead(x[1..], t, sep);
      var rest := Split(u[1..], sep);
      assert rest[0] == x[1..] + pieces[0] && rest[1..] == pieces[1..];
      assert Split(u, sep) == [[u[0]] + rest[0]] + rest[1..];
      assert [u[0]] + rest[0] == x + pieces[0];
    } else {
      assert x + t == t;
      assert x + pieces[0] == pieces[0];
      assert pieces == [pieces[0]] + pieces[1..];
    }
  }

  /** Split undoes Join whenever no piece contains the separator. */
  lemma {:induction false} SplitJoin(parts: seq<string>, sep: char)
    requires |parts| >= 1
    requires forall i :: 0 <= i < |parts| ==> sep !in parts[i]
    ensures Split(Join(parts, sep), sep) == parts
  {
    if |parts| == 1 {
      SplitFreeHead(parts[0], "", sep);
      assert parts[0] + "" == parts[0];
    } else {
      var tail := Join(parts[1..], sep);
      SplitJoin(parts[1..], sep);
      var rest := [sep] + tail;
      assert rest[0] == sep && rest[1..] == tail;
      assert Split(rest, sep) == [""] + parts[1..];
      SplitFreeHead(parts[0], rest, sep);
      assert Join(parts, sep) == parts[0] + rest;
      assert parts[0] + "" == parts[0];
      assert parts == [parts[0]] + parts[1..];
    }
  }

  /** Appending a separator and a separator-free piece appends that piece
      to the split. */
  lemma {:induction false} SplitAppendPiece(x: string, e: string, sep: char)
    requires sep !in e
    ensures Split(x + [sep] + e, sep) == Split(x, sep) + [e]
  {
    var u := x + [sep] + e;
    if |x| == 0 {
      assert u == [sep] + e;
      assert u[0] == sep && u[1..] == e;
      SplitFreeHead(e, "", sep);
      assert e + "" == e;
      assert Split(e, sep) == [e];
    } else {
      assert u[0] == x[0] && u[1..] == x[1..] + [sep] + e;
      SplitAppendPiece(x[1..], e, sep);
      var pieces := Split(x[1..], sep);
      assert x == [x[0]] + x[1..];
      if x[0] != sep {
        var rest := pieces + [e];
        assert rest[0] == pieces[0] && rest[1..] == pieces[1..] + [e];
      }
    }
  }

  /** Two separator-free suffixes of `s` that each stand right after a
      separator are the same suffix. */
  lemma {:induction false} SuffixAfterSepUnique(s: string, a: string, b: string, sep: char)
    requires |a| < |s| && s[|s| - |a|..] == a && s[|s| - |a| - 1] == sep && sep !in a
    requires |b| < |s| && s[|s| - |b|..] == b && s[|s| - |b| - 1] == sep && sep !in b
    ensures a == b
  {
  }

  /** The last piece of a join is a suffix of the joined string, and when
      there are several pieces the separator stands right before it. */
  lemma {:induction false} JoinLastPiece(parts: seq<string>, sep: char)
    requires |parts| >= 1
    ensures var s := Join(parts, sep); var last := parts[|parts| - 1];
      && |last| <= |s|
      && s[|s| - |last|..] == last
      && (|parts| > 1 ==> |last| < |s| && s[|s| - |last| - 1] == sep)
  {
    if |parts| > 1 {
      JoinLastPiece(parts[1..], sep);
      var tail := Join(parts[1..], sep);
      var last := parts[|parts| - 1];
      assert parts[1..][|parts[1..]| - 1] == last;
      var s := parts[0] + [sep] + tail;
      assert s[|s| - |tail|..] == tail;
      assert s[|s| - |last|..] == tail[|tail| - |last|..];
      if |parts| == 2 {
        assert tail == last;
        assert s[|s| - |last| - 1] == sep;
      } else {
        assert s[|s| - |last| - 1] == tail[|tail| - |last| - 1];
      }
    }
  }
}
