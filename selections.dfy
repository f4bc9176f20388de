/**
 * The two ways a loop over candidates can end: at the first candidate
 * present, or after collecting every candidate present, in order.
 */
module Selections {
  import opened Wrappers

  /** `f` applied to every element of `xs`, in order. */
  function Map<A, B>(xs: seq<A>, f: A --> B): (ys: seq<B>)
    requires forall i :: 0 <= i < |xs| ==> f.requires(xs[i])
    ensures |ys| == |xs|
    ensures forall i :: 0 <= i < |xs| ==> ys[i] == f(xs[i])
  {
    seq(|xs|, i requires 0 <= i < |xs| => f(xs[i]))
  }

  /** Mapping over two runs is mapping over each, one after the other. */
  lemma MapOfConcat<A, B>(xs: seq<A>, ys: seq<A>, f: A --> B)
    requires forall i :: 0 <= i < |xs| ==> f.requires(xs[i])
    requires forall i :: 0 <= i < |ys| ==> f.requires(ys[i])
    ensures forall i :: 0 <= i < |xs + ys| ==> f.requires((xs + ys)[i])
    ensures Map(xs + ys, f) == Map(xs, f) + Map(ys, f)
  {
    assert forall i :: 0 <= i < |xs + ys| ==> (xs + ys)[i] == if i < |xs| then xs[i] else ys[i - |xs|];
  }

  /** The index of the first `Some` in `xs`, if any. */
  function FirstSome<T>(xs: seq<Option<T>>): (r: Option<nat>)
    ensures r.None? <==> forall i :: 0 <= i < |xs| ==> xs[i].None?
    ensures r.Some? ==> r.value < |xs| && xs[r.value].Some? && forall j :: 0 <= j < r.value ==> xs[j].None?
  {
    if xs == [] then None
    else
      var last := |xs| - 1;
      match FirstSome(xs[..last])
      case Some(i) => Some(i)
      case None => if xs[last].Some? then Some(last) else None
  }

  /** The values of the `Some`s in `xs`, in order. */
  function Somes<T(!new)>(xs: seq<Option<T>>): (ys: seq<T>)
    ensures |ys| <= |xs|
    ensures ys == [] <==> forall i :: 0 <= i < |xs| ==> xs[i].None?
  {
    if xs == [] then []
    else
      var last := |xs| - 1;
      var init := Somes(xs[..last]);
      if xs[last].Some? then init + [xs[last].value] else init
  }

  /** Collecting over two runs is collecting over each, one after the other. */
  lemma {:induction false} SomesOfConcat<T(!new)>(xs: seq<Option<T>>, ys: seq<Option<T>>)
    ensures Somes(xs + ys) == Somes(xs) + Somes(ys)
  {
    if ys == [] {
      assert xs + ys == xs;
    } else {
      var last := |ys| - 1;
      SomesOfConcat(xs, ys[..last]);
      assert (xs + ys)[..|xs + ys| - 1] == xs + ys[..last];
      assert (xs + ys)[|xs + ys| - 1] == ys[last];
    }
  }

  /** The first value collected is the one at the first `Some`. */
  lemma {:induction false} SomesStartAtFirstSome<T(!new)>(xs: seq<Option<T>>)
    requires FirstSome(xs).Some?
    ensures Somes(xs) != [] && Somes(xs)[0] == xs[FirstSome(xs).value].value
  {
    var last := |xs| - 1;
    if FirstSome(xs[..last]).Some? {
      SomesStartAtFirstSome(xs[..last]);
    }
  }

  /** Every value collected is present in `xs`. */
  lemma {:induction false} SomesComeFromXs<T(!new)>(xs: seq<Option<T>>)
    ensures forall y :: y in Somes(xs) ==> Some(y) in xs
  {
    if xs != [] {
      var last := |xs| - 1;
      SomesComeFromXs(xs[..last]);
      assert forall y :: Some(y) in xs[..last] ==> Some(y) in xs;
    }
  }
}
