/** The optional value returned by every recogniser in this model: a regular
    expression match, a `search`, or a `strptime` call that may fail. It is
    failure-compatible, so a chain of recognisers reads as `var x :- P(s); ...`
    and stops at the first `None`. */
module Wrappers {

  datatype Option<+T> = None | Some(value: T) {

    predicate IsFailure() {
      None?
    }

    function PropagateFailure<U>(): Option<U>
      requires None?
    {
      None
    }

    function Extract(): T
      requires Some?
    {
      value
    }
  }

  /** The values `f` gives for the elements of `xs`, in order, leaving out
      the elements it gives `None` for: the list built by a loop that
      appends one result per element and `continue`s when there is none. */
  function Somes<T, U>(xs: seq<T>, f: T -> Option<U>): (r: seq<U>)
    ensures |r| <= |xs|
  {
    if xs == [] then []
    else
      var init := Somes(xs[..|xs| - 1], f);
      match f(xs[|xs| - 1])
      case Some(u) => init + [u]
      case None => init
  }

  /** One more element adds its result, if it has one, at the end. */
  lemma SomesAppend<T, U>(xs: seq<T>, x: T, f: T -> Option<U>)
    ensures Somes(xs + [x], f) == if f(x).Some? then Somes(xs, f) + [f(x).value] else Somes(xs, f)
  {
    assert (xs + [x])[..|xs|] == xs;
  }

  /** `SomesAppend` for a loop over the prefixes of `xs`. */
  lemma SomesStep<T, U>(xs: seq<T>, f: T -> Option<U>, i: nat)
    requires i < |xs|
    ensures Somes(xs[..i + 1], f)
            == if f(xs[i]).Some? then Somes(xs[..i], f) + [f(xs[i]).value] else Somes(xs[..i], f)
  {
    assert xs[..i + 1] == xs[..i] + [xs[i]];
    SomesAppend(xs[..i], xs[i], f);
  }

  /** Sound and complete: a value is kept exactly when some element gives it. */
  lemma {:induction false} SomesMembers<T, U>(xs: seq<T>, f: T -> Option<U>)
    ensures forall u :: u in Somes(xs, f) <==> exists i :: 0 <= i < |xs| && f(xs[i]) == Some(u)
    decreases |xs|
  {
    if xs != [] {
      var n := |xs| - 1;
      var init := xs[..n];
      SomesMembers(init, f);
      SomesAppend(init, xs[n], f);
      assert init + [xs[n]] == xs;
      forall u ensures u in Somes(xs, f) <==> exists i :: 0 <= i < |xs| && f(xs[i]) == Some(u) {
        if u in Somes(init, f) {
          var i :| 0 <= i < |init| && f(init[i]) == Some(u);
          assert xs[i] == init[i];
        }
        if exists i :: 0 <= i < |xs| && f(xs[i]) == Some(u) {
          var i :| 0 <= i < |xs| && f(xs[i]) == Some(u);
          if i < n {
            assert init[i] == xs[i];
          }
        }
      }
    }
  }
}
