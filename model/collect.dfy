// In-order translation of a list where the first failing element aborts the whole
// translation: the shape of every `for ... { x, err := f(...); if err != nil { return
// ..., err }; out = append(out, x) }` loop of the conversion code.
module Collect {
  import opened Wrappers

  /** Translates every element in order; the first failure is the result. */
  function MapAll<A, B, E>(f: A -> Result<B, E>, xs: seq<A>): Result<seq<B>, E>
    decreases |xs|
  {
    if xs == [] then Success([])
    else
      match MapAll(f, xs[..|xs| - 1])
      case Failure(e) => Failure(e)
      case Success(done) =>
        match f(xs[|xs| - 1])
        case Failure(e) => Failure(e)
        case Success(y) => Success(done + [y])
  }

  /** One more element, as one more pass of the append loop sees it. */
  lemma MapAllStep<A, B, E>(f: A -> Result<B, E>, xs: seq<A>, i: nat)
    requires i < |xs|
    ensures MapAll(f, xs[..i + 1]) ==
      match MapAll(f, xs[..i])
      case Failure(e) => Failure(e)
      case Success(done) =>
        match f(xs[i])
        case Failure(e) => Failure(e)
        case Success(y) => Success(done + [y])
  {
    assert xs[..i + 1][..i] == xs[..i];
  }

  /** A failing prefix makes the whole translation fail with the same error. */
  lemma {:induction false} MapAllPrefixFailure<A, B, E>(f: A -> Result<B, E>, xs: seq<A>, i: nat)
    requires i <= |xs| && MapAll(f, xs[..i]).Failure?
    ensures MapAll(f, xs) == MapAll(f, xs[..i])
    decreases |xs| - i
  {
    if i < |xs| {
      MapAllStep(f, xs, i);
      MapAllPrefixFailure(f, xs, i + 1);
    } else {
      assert xs[..i] == xs;
    }
  }

  /** Success exactly when every element translates; then one output per input, in order. */
  lemma {:induction false} MapAllSuccess<A, B, E>(f: A -> Result<B, E>, xs: seq<A>)
    ensures MapAll(f, xs).Success? <==> forall i :: 0 <= i < |xs| ==> f(xs[i]).Success?
    ensures MapAll(f, xs).Success? ==>
      |MapAll(f, xs).value| == |xs|
      && forall i :: 0 <= i < |xs| ==> MapAll(f, xs).value[i] == f(xs[i]).value
    decreases |xs|
  {
    if xs != [] {
      var init := xs[..|xs| - 1];
      MapAllSuccess(f, init);
      assert forall i :: 0 <= i < |init| ==> init[i] == xs[i];
    }
  }

  /** A failure is the error of the first element that fails; every element before it translates. */
  lemma {:induction false} MapAllFailure<A, B, E>(f: A -> Result<B, E>, xs: seq<A>)
    requires MapAll(f, xs).Failure?
    ensures exists i ::
              && 0 <= i < |xs| && f(xs[i]).Failure? && MapAll(f, xs).error == f(xs[i]).error
              && forall j :: 0 <= j < i ==> f(xs[j]).Success?
    decreases |xs|
  {
    var init := xs[..|xs| - 1];
    assert forall i :: 0 <= i < |init| ==> init[i] == xs[i];
    if MapAll(f, init).Failure? {
      MapAllFailure(f, init);
    } else {
      MapAllSuccess(f, init);
      var i := |xs| - 1;
      assert f(xs[i]).Failure? && MapAll(f, xs).error == f(xs[i]).error;
    }
  }
}
