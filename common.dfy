/** Small shared datatypes used by every stage of the consolidation pipeline. */
module Common {

  /** An optional value: Python's `None` or a value. */
  datatype Option<+T> = None | Some(value: T)

  /** How a step ends: with a value, or by raising (an exception the script does not catch). */
  datatype Result<+T> = Ok(value: T) | Raised(reason: string)

  /** The values of the `Some` entries, in order: a list comprehension `[x for x in xs if x is not None]`. */
  function Somes<T>(xs: seq<Option<T>>): seq<T> {
    if xs == [] then []
    else Somes(xs[..|xs| - 1]) + (if xs[|xs| - 1].Some? then [xs[|xs| - 1].value] else [])
  }

  lemma {:induction false} SomesMeans<T>(xs: seq<Option<T>>, v: T)
    ensures v in Somes(xs) <==> Some(v) in xs
  {
    if xs != [] {
      var init, x := xs[..|xs| - 1], xs[|xs| - 1];
      SomesMeans(init, v);
      assert xs == init + [x];
    }
  }
}
