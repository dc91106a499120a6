/** Sequence helpers shared by the mergers. */
module Seqs {
  import opened Types

  /** The concatenation of `xss` in order: what repeated `list.extend` builds. */
  function Flatten<T>(xss: seq<seq<T>>): seq<T>
  {
    if |xss| == 0 then [] else Flatten(xss[..|xss| - 1]) + xss[|xss| - 1]
  }

  lemma {:induction false} FlattenAppend<T>(a: seq<seq<T>>, b: seq<seq<T>>)
    ensures Flatten(a + b) == Flatten(a) + Flatten(b)
    decreases |b|
  {
    if |b| == 0 {
      assert a + b == a;
    } else {
      var init := b[..|b| - 1];
      assert (a + b)[..|a + b| - 1] == a + init;
      assert (a + b)[|a + b| - 1] == b[|b| - 1];
      FlattenAppend(a, init);
      assert Flatten(a + b) == Flatten(a + init) + b[|b| - 1];
      assert Flatten(b) == Flatten(init) + b[|b| - 1];
    }
  }

  /** The index of the first element satisfying `p`, as a Python loop over
      `enumerate` that stops at the first failed `assert` finds it. */
  function FirstIndexWhere<T>(xs: seq<T>, p: T -> bool): (r: Option<nat>)
    ensures r.None? <==> forall i :: 0 <= i < |xs| ==> !p(xs[i])
    ensures r.Some? ==> r.value < |xs| && p(xs[r.value])
    ensures r.Some? ==> forall j :: 0 <= j < r.value ==> !p(xs[j])
  {
    if |xs| == 0 then None
    else if p(xs[0]) then Some(0)
    else match FirstIndexWhere(xs[1..], p)
      case None => None
      case Some(i) => Some(i + 1)
  }
}
