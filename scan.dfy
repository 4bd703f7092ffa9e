/** The shape every extraction loop of the crawler shares: walk a sequence in order, let
    each element contribute some outputs, append them, and stop at the first element
    whose lookup raises. */
module Scan {
  import opened Wrappers

  /** The outputs of `f` on `xs`, concatenated in order; the first error `f` reports is the
      result when there is one. Defined from the back, the way a loop that appends sees it. */
  function Collect<T, U, E>(xs: seq<T>, f: T -> Result<seq<U>, E>): Result<seq<U>, E>
    decreases |xs|
  {
    if xs == [] then Ok([])
    else
      match Collect(xs[..|xs| - 1], f)
      case Err(e) => Err(e)
      case Ok(front) =>
        match f(xs[|xs| - 1])
        case Err(e) => Err(e)
        case Ok(last) => Ok(front + last)
  }

  /** Once the prefix `xs[..m]` has failed, the whole scan fails with the same error. */
  lemma {:induction false} CollectErrPersists<T, U, E>(xs: seq<T>, m: nat, f: T -> Result<seq<U>, E>)
    requires m <= |xs| && Collect(xs[..m], f).Err?
    ensures Collect(xs, f) == Collect(xs[..m], f)
    decreases |xs| - m
  {
    if m < |xs| {
      assert xs[..m + 1][..m] == xs[..m];
      CollectErrPersists(xs, m + 1, f);
    } else {
      assert xs[..m] == xs;
    }
  }

  /** One step of a loop over `xs`: element `i` either extends the outputs of the prefix,
      or its error is the error of the whole scan. */
  lemma CollectStep<T, U, E>(xs: seq<T>, i: nat, f: T -> Result<seq<U>, E>)
    requires i < |xs| && Collect(xs[..i], f).Ok?
    ensures f(xs[i]).Ok? ==> Collect(xs[..i + 1], f) == Ok(Collect(xs[..i], f).value + f(xs[i]).value)
    ensures f(xs[i]).Err? ==> Collect(xs, f) == Err(f(xs[i]).error)
  {
    assert xs[..i + 1][..i] == xs[..i];
    if f(xs[i]).Err? {
      CollectErrPersists(xs, i + 1, f);
    }
  }

  /** The scan succeeds exactly when `f` succeeds on every element. */
  lemma {:induction false} CollectOkIff<T, U, E>(xs: seq<T>, f: T -> Result<seq<U>, E>)
    ensures Collect(xs, f).Ok? <==> forall i :: 0 <= i < |xs| ==> f(xs[i]).Ok?
    decreases |xs|
  {
    if xs != [] {
      var n := |xs| - 1;
      CollectOkIff(xs[..n], f);
      assert forall i :: 0 <= i < n ==> xs[..n][i] == xs[i];
    }
  }

  /** An output of a successful scan is an output of `f` on some element, and every output
      of `f` on an element is an output of the scan. */
  lemma {:induction false} CollectMember<T, U, E>(xs: seq<T>, f: T -> Result<seq<U>, E>, y: U)
    requires Collect(xs, f).Ok?
    ensures y in Collect(xs, f).value <==>
            exists i :: 0 <= i < |xs| && f(xs[i]).Ok? && y in f(xs[i]).value
    decreases |xs|
  {
    if xs != [] {
      var n := |xs| - 1;
      var front := xs[..n];
      CollectMember(front, f, y);
      assert forall i :: 0 <= i < n ==> front[i] == xs[i];
      if y in Collect(xs, f).value {
        if y in Collect(front, f).value {
          var i :| 0 <= i < n && f(front[i]).Ok? && y in f(front[i]).value;
          assert f(xs[i]).Ok? && y in f(xs[i]).value;
        } else {
          assert f(xs[n]).Ok? && y in f(xs[n]).value;
        }
      }
      if exists i :: 0 <= i < |xs| && f(xs[i]).Ok? && y in f(xs[i]).value {
        var i :| 0 <= i < |xs| && f(xs[i]).Ok? && y in f(xs[i]).value;
        if i < n {
          assert f(front[i]).Ok? && y in f(front[i]).value;
        }
      }
    }
  }
}
