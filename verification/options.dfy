/** A value that may be missing. The model uses it for the two inputs that
    can fail without stopping the program: a composer.json that cannot be
    read, and a class that cannot be reflected. */
module Options {

  datatype Option<T> = None | Some(value: T)

  /** What `o` holds, or `fallback` when it holds nothing. */
  function ValueOr<T>(o: Option<T>, fallback: T): (r: T)
    ensures o.Some? ==> r == o.value
    ensures o.None? ==> r == fallback
  {
    if o.Some? then o.value else fallback
  }
}
