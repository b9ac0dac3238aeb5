/**
 * Processing a sequence in order, stopping at the first element whose step
 * fails. Both loops of the merge handler have this shape: the download loop
 * throws on the first failed download, and the merge loop on the first
 * document that does not load.
 */
module Sequential {
  import opened Wrappers

  datatype Run<B> = Done(values: seq<B>) | Stopped(index: nat, error: string)

  function FailFast<A, B>(xs: seq<A>, step: A -> Result<B, string>): (r: Run<B>)
    ensures r.Done? ==> |r.values| == |xs|
    ensures r.Stopped? ==> r.index < |xs|
    decreases |xs|
  {
    if xs == [] then Done([])
    else
      match FailFast(xs[..|xs| - 1], step)
      case Stopped(k, e) => Stopped(k, e)
      case Done(vs) =>
        match step(xs[|xs| - 1])
        case Failure(e) => Stopped(|xs| - 1, e)
        case Success(v) => Done(vs + [v])
  }

  /** The run completes exactly when every step succeeds, and then holds every step's value, in order. */
  lemma {:induction false} DoneIff<A, B>(xs: seq<A>, step: A -> Result<B, string>)
    ensures FailFast(xs, step).Done? <==> forall i :: 0 <= i < |xs| ==> step(xs[i]).Success?
    ensures FailFast(xs, step).Done? ==>
      forall i :: 0 <= i < |xs| ==> FailFast(xs, step).values[i] == step(xs[i]).value
  {
    if xs != [] {
      var init := xs[..|xs| - 1];
      DoneIff(init, step);
      assert forall i :: 0 <= i < |init| ==> init[i] == xs[i];
    }
  }

  /** A stopped run stops at the first failing step and reports that step's error. */
  lemma {:induction false} StoppedAtFirstFailure<A, B>(xs: seq<A>, step: A -> Result<B, string>)
    requires FailFast(xs, step).Stopped?
    ensures var k := FailFast(xs, step).index;
      step(xs[k]) == Failure(FailFast(xs, step).error) &&
      forall j :: 0 <= j < k ==> step(xs[j]).Success?
  {
    var init := xs[..|xs| - 1];
    assert forall i :: 0 <= i < |init| ==> init[i] == xs[i];
    if FailFast(init, step).Stopped? {
      StoppedAtFirstFailure(init, step);
    } else {
      DoneIff(init, step);
    }
  }

  /** The first failing step stops the run, with that step's error. */
  lemma {:induction false} FirstFailureStops<A, B>(xs: seq<A>, step: A -> Result<B, string>, k: nat)
    requires k < |xs| && step(xs[k]).Failure?
    requires forall j :: 0 <= j < k ==> step(xs[j]).Success?
    ensures FailFast(xs, step) == Stopped(k, step(xs[k]).error)
  {
    var init := xs[..|xs| - 1];
    assert forall i :: 0 <= i < |init| ==> init[i] == xs[i];
    if k == |xs| - 1 {
      DoneIff(init, step);
    } else {
      FirstFailureStops(init, step, k);
    }
  }

  /** A run depends only on what its step does on the elements of the sequence. */
  lemma {:induction false} FailFastCongruent<A, B>(xs: seq<A>, f: A -> Result<B, string>, g: A -> Result<B, string>)
    requires forall i :: 0 <= i < |xs| ==> f(xs[i]) == g(xs[i])
    ensures FailFast(xs, f) == FailFast(xs, g)
  {
    if xs != [] {
      var init := xs[..|xs| - 1];
      assert forall i :: 0 <= i < |init| ==> init[i] == xs[i];
      FailFastCongruent(init, f, g);
    }
  }

  /** One more successful step extends a completed run by its value. */
  lemma FailFastExtend<A, B>(xs: seq<A>, i: nat, step: A -> Result<B, string>)
    requires i < |xs| && FailFast(xs[..i], step).Done? && step(xs[i]).Success?
    ensures FailFast(xs[..i + 1], step) == Done(FailFast(xs[..i], step).values + [step(xs[i]).value])
  {
    assert xs[..i + 1][..i] == xs[..i];
  }
}
