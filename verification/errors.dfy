/** The error values the helpers produce and inspect: the package's sentinel
    errors, D-Bus protocol errors, aggregates of several errors, and anything
    else a transport may return. */
module Errors {
  import opened Wrappers

  /** The error name of the `org.freedesktop.DBus.Properties` interface for a
      property the object does not have (D-Bus Specification). */
  const UnknownPropertyName: string := "org.freedesktop.DBus.Error.UnknownProperty"

  datatype Error =
    | NoDbusConn                  // sentinel: connection absent or without names
    | BadDbusPath                 // sentinel: blank or malformed object path
    | InvalidProperty             // sentinel: property value of the wrong shape
    | BusError(name: string)      // a `dbus.Error` carrying its dotted error name
    | Aggregate(errors: seq<Error>) // a `*multierr.MultiError`, members in order
    | Transport(message: string)  // any other error value

  /** The one symptom the legacy-draft heuristic looks for. */
  predicate IsUnknownProperty(e: Error) {
    e.BusError? && e.name == UnknownPropertyName
  }

  /** `MultiError.AddError`: appends a non-nil error, ignores nil. */
  function AddError(errs: seq<Error>, err: Option<Error>): (r: seq<Error>)
    ensures err.None? ==> r == errs
    ensures err.Some? ==> |r| == |errs| + 1 && r[..|errs|] == errs && r[|errs|] == err.value
  {
    match err
    case None => errs
    case Some(e) => errs + [e]
  }

  /** `MultiError.IsEmpty`. */
  predicate IsEmpty(errs: seq<Error>) {
    |errs| == 0
  }

  /** An aggregate built by offering two errors to an empty one stays empty
      exactly when neither was there; otherwise it holds the present ones in
      the order offered. */
  lemma EmptyIffNoneAdded(first: Option<Error>, second: Option<Error>)
    ensures IsEmpty(AddError(AddError([], first), second)) <==> first.None? && second.None?
    ensures var errs := AddError(AddError([], first), second);
      forall e :: e in errs <==> Some(e) == first || Some(e) == second
  {
  }
}
