/** Optional values and error outcomes shared by the modules of the bot. */
module Outcomes {

  /** A value that may be absent, as Python's `None`. */
  datatype Option<+T> = None | Some(value: T)

  /** The result of a step that may raise: the error carries the exception's message. */
  datatype Result<+T> = Success(value: T) | Failure(error: string)

  /** The present values of `xs`, in order (the effect of `if p: out.append(p)`). */
  function Somes<T>(xs: seq<Option<T>>): (r: seq<T>)
  {
    if xs == [] then []
    else Somes(xs[..|xs| - 1]) + (if xs[|xs| - 1].Some? then [xs[|xs| - 1].value] else [])
  }

  /** One more entry adds its value at the end, if it has one. */
  lemma SomesSnoc<T>(xs: seq<Option<T>>, x: Option<T>)
    ensures Somes(xs + [x]) == Somes(xs) + (if x.Some? then [x.value] else [])
  {
    assert (xs + [x])[..|xs|] == xs;
  }

  /** Somes keeps exactly the present values: never more than the input holds, each one
      taken from the input, and none of them when every entry is absent. */
  lemma {:induction false} SomesProperties<T>(xs: seq<Option<T>>)
    ensures |Somes(xs)| <= |xs|
    ensures forall x :: x in Somes(xs) <==> Some(x) in xs
  {
    if xs != [] {
      var init := xs[..|xs| - 1];
      SomesProperties(init);
      assert xs == init + [xs[|xs| - 1]];
      forall x
        ensures x in Somes(xs) <==> Some(x) in xs
      {
        assert Some(x) in xs <==> Some(x) in init || Some(x) == xs[|xs| - 1];
      }
    }
  }
}
