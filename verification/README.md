# gosecret validation helpers, in Dafny

A model of the precondition and error-classification helpers of `gosecret`,
a Go client for the freedesktop Secret Service API over D-Bus (`funcs.go`).
Before a remote call, the client checks that the bus connection is live and
that the target object path is well formed. After a call, it narrows a
dynamically typed property value to a list of object paths, and it can tell
whether an error looks like it came from a service that follows the legacy
draft of the Secret Service specification.

The Go `interface{}` arguments become closed sum types. `PathArg` is a string,
an `ObjectPath` or anything else. `Variant` is a property value. `Error` is a
sentinel error, a `dbus.Error`, a `*multierr.MultiError` aggregate, or a
transport error. Go's `(value, err)` pairs become small records or a `Result`.
Every helper is a pure, total function.

Modules:
- `Wrappers`: `Option` and `Result`.
- `Strings`: the parts of Go's `strings`/`unicode` packages the helpers use.
  These are `unicode.IsSpace`, `TrimSpace`, `HasPrefix`, and `Split`/`Join`
  on a one-character separator, with their round trip.
- `DBus`: `ObjectPath`, the structural path check, `Conn` and `Variant`.
  The path check follows "Valid Object Paths" in the D-Bus Specification.
- `Errors`: the `Error` sum type, the `UnknownProperty` error name of the
  D-Bus Specification, and `MultiError.AddError`/`IsEmpty` over `seq<Error>`.
- `Funcs`: the eight helpers of `funcs.go`.
- `Properties`: lemmas that relate the helpers to each other, to the D-Bus
  path rules and to concrete Secret Service paths and calls.

## Model

| member | source | states |
|---|---|---|
| `Funcs.IsPrompt` | funcs.go:11-17 | true exactly when the path starts with the prompt prefix; it never fails |
| `Funcs.ConnIsValid` | funcs.go:20-31 | ok iff the connection is present and reports at least one name; ok iff no error; on failure the error is `ErrNoDbusConn` |
| `Funcs.PathIsValid` | funcs.go:37-63 | a string passes iff it is not all whitespace; an object path passes iff it is structurally valid and not all whitespace; any other argument fails; ok iff no error, and failures are `ErrBadDbusPath` |
| `Funcs.ValidConnPath` | funcs.go:70-90 | both checks always run. `ConnOK`/`PathOK` equal the two single checks, and the error is nil iff both hold. Otherwise the error is an aggregate of one `ErrNoDbusConn` if the connection failed, then one `ErrBadDbusPath` if the path failed |
| `Funcs.PathsFromProp` | funcs.go:96-107 | no error iff the variant holds a list of object paths, which is returned unchanged; otherwise no paths and `ErrInvalidProperty` |
| `Funcs.PathsFromPath` | funcs.go:113-126 | a fetch error is passed through unchanged with no paths; a fetched list of paths is returned unchanged; any other fetched shape gives no paths and `ErrInvalidProperty` |
| `Funcs.NameFromPath` | funcs.go:133-155 | fails with `ErrBadDbusPath` iff the path fails the path check; otherwise the name has no '/', is a suffix of the path, and stands right after a '/' (the path is some prefix, a '/', then the name). The model keeps the source's two defensive failure branches (`!ok` after a nil error, and fewer than one piece). Neither can be taken, because the path check never returns not-ok without an error and `Strings.Split` always yields a piece |
| `Funcs.FirstUnknownProperty` | funcs.go:188-198 | the scan over aggregate members finds the first `UnknownProperty` D-Bus error: the returned member matches and no earlier one does; if none is found, no member matches |
| `Funcs.CheckErrIsFromLegacy` | funcs.go:183-208 | `isLegacy` implies `parsed`; parsed iff the error is an aggregate or a D-Bus error; an aggregate is legacy iff some member is a D-Bus `UnknownProperty` error; a D-Bus error is legacy iff its name is `UnknownProperty` |
| `Errors.AddError` | funcs.go:76-83 | a nil error leaves the aggregate unchanged; a non-nil one is appended after the existing members |
| `Errors.IsEmpty` | funcs.go:85 | `MultiError.IsEmpty`: the aggregate has no members |
| `Errors.EmptyIffNoneAdded` | funcs.go:72-87 | an aggregate that starts empty and is offered two errors stays empty iff both are nil, and then holds exactly the non-nil ones |
| `DBus.IsValidObjectPath` | funcs.go:43 | the structural check of `ObjectPath.IsValid`: a leading '/', then either nothing or '/'-separated elements, each non-empty and made of `[A-Za-z0-9_]` only |
| `DBus.ValidPathShape` | funcs.go:43 | a valid path other than "/" holds only '/' and element characters, has no two '/' in a row, and does not end with '/' |
| `Strings.IsSpace` | funcs.go:55 | Go's `unicode.IsSpace`: the Latin-1 spaces and every other code point with the Unicode White_Space property (the whitespace `strings.TrimSpace` removes) |
| `Strings.Latin1Spaces` | funcs.go:55 | within Latin-1, a character is whitespace iff it is one of '\t', '\n', '\v', '\f', '\r', ' ', U+0085, U+00A0 |
| `Strings.TrimSpace` | funcs.go:55 | the trimmed string is empty iff every character is Go whitespace; otherwise it starts and ends with non-whitespace |
| `Strings.TrimSpaceIsInfix` | funcs.go:55 | the trimmed string is an infix of the input, and everything before and after it is whitespace, so trimming only cuts |
| `Strings.HasPrefix` | funcs.go:13 | Go's `strings.HasPrefix`: the prefix is no longer than the string and equals its start |
| `Strings.HasPrefixSplits` | funcs.go:13 | `HasPrefix(s, p)` holds iff `s` is `p` followed by some string |
| `Strings.Split` | funcs.go:145 | splitting yields at least one piece, and no piece holds the separator. The round trip with `Join` is `Strings.JoinSplit` |
| `Strings.JoinSplit` | funcs.go:145 | joining the pieces of a split gives back the split string |
| `Strings.SplitJoin` | funcs.go:145 | splitting a join of separator-free pieces gives back the pieces |
| `Strings.JoinLastPiece` | funcs.go:145-152 | the last piece is a suffix of the joined string, with the separator right before it when there are several pieces |
| `Properties.ObjectPathCheckIsStructural` | funcs.go:42-58 | for an object path, the path check passes iff the structural check does; a valid path starts with '/' and so is never blank |
| `Properties.StringCheckIsNonBlank` | funcs.go:48-58 | a raw string passes iff trimming leaves something; the empty string fails with `ErrBadDbusPath` |
| `Properties.PromptPathsAreNotBlank` | funcs.go:11-17 | every prompt path passes the string path check, and the empty path is never a prompt |
| `Properties.NameIsLastPiece` | funcs.go:145-152 | for a path that passes the check, the name is the last piece of splitting on '/' |
| `Properties.NameIsUniqueSuffix` | funcs.go:133-155 | for a path that passes the check, the name is the one '/'-free suffix that stands right after a '/' |
| `Properties.NameOfValidPathIsElement` | funcs.go:133-155 | for a valid path other than "/", the name is a valid path element: non-empty, only `[A-Za-z0-9_]` |
| `Properties.NameOfChildPath` | funcs.go:133-155 | a valid parent path joined with a valid element is a valid path, and its name is that element |
| `Properties.NameOfRootIsEmpty` | funcs.go:145-152 | the root path "/" is valid and its name is empty |
| `Properties.NameOfCollectionPath` | funcs.go:128-155 | the collection path built from "/" by adding `org`, `freedesktop`, `secrets`, `collection` and `login` with `ChildPath` is named `login` |
| `Properties.NameOfCollectionPathLiteral` | funcs.go:128-155 | the name of the literal path `/org/freedesktop/secrets/collection/login` is `login` |
| `Properties.NameOfEmptyPathFails` | funcs.go:138-143 | the empty path fails with `ErrBadDbusPath` |
| `Properties.LiveConnBlankPathScenario` | funcs.go:70-90 | a live connection and a blank path give `ConnOK` true, `PathOK` false, and an aggregate holding only `ErrBadDbusPath` |
| `Properties.ValidationErrorsAreNotLegacy` | funcs.go:185-198 | an aggregate from the combined check is always parsed and never legacy |
| `Properties.NestedAggregateIsNotInspected` | funcs.go:188-197 | an `UnknownProperty` error nested inside an inner aggregate is not found: parsed, not legacy |
| `Properties.LegacySymptomAnywhereIsFound` | funcs.go:183-208 | an `UnknownProperty` member at any position makes the aggregate legacy; a sentinel error or nil is not parsed |
| `Properties.PathsFromPropNoPromotion` | funcs.go:98-104 | a single object path is not promoted to a list; a list of paths comes back unchanged |
| `Properties.PathsFromPathNarrowsFetched` | funcs.go:117-123 | when the fetch succeeds, the result equals narrowing the fetched value |

## Left out

- Bus I/O: `BusObject.GetProperty` is the parameter `getProperty`, a total function from property name to a variant or an error. The godbus connection is reduced to its name list (`Option<seq<string>>`).
- `dbus.ObjectPath.IsValid`: godbus's implementation is not part of this model. `DBus.IsValidObjectPath` is defined from the "Valid Object Paths" rules of the D-Bus Specification instead.
- `DbusPromptPrefix` and the sentinel errors are defined outside `funcs.go`. The prefix is taken as `/org/freedesktop/secrets/prompt/`, the Secret Service API's place for prompt objects. The sentinels are constructors of `Error`.
- Go strings are byte strings, while the model's strings are sequences of Unicode scalar values. Invalid UTF-8 and its handling by `strings.TrimSpace` are not modelled.
- `dbus.Error` keeps only its name; its body is not modelled.
- The `multierr` library is reduced to an ordered `seq<Error>`. Its message formatting is not modelled.
- A typed nil `*multierr.MultiError` passed to `CheckErrIsFromLegacy` would panic in Go when its `Errors` field is read. The model has no nil aggregate.
- A nil slice and an empty slice of paths are both the empty sequence.
- `strings.Split` is modelled for a one-character separator only. `funcs.go` only splits on "/".
