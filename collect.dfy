/** Sequences built by running a partial function over a list and
    keeping, in order, what it yields: the shape of a loop that appends
    a value for some elements and skips the others. */
module Collections {

  datatype Option<T> = None | Some(value: T)

  /** The values `f` yields over `xs`, in the order of `xs`. */
  function Collect<A, B>(f: A -> Option<B>, xs: seq<A>): (ys: seq<B>)
    ensures |ys| <= |xs|
  {
    if xs == [] then []
    else
      var n := |xs| - 1;
      Collect(f, xs[..n]) + (match f(xs[n]) case Some(y) => [y] case None => [])
  }

  /** The positions of the elements `f` yields a value for: exactly
      those, in increasing order. */
  function Positions<A, B>(f: A -> Option<B>, xs: seq<A>): (idx: seq<nat>)
    ensures forall k :: 0 <= k < |idx| ==> idx[k] < |xs| && f(xs[idx[k]]).Some?
    ensures forall k, l :: 0 <= k < l < |idx| ==> idx[k] < idx[l]
    ensures forall i :: 0 <= i < |xs| && f(xs[i]).Some? ==> i in idx
  {
    if xs == [] then []
    else
      var n := |xs| - 1;
      var init := Positions(f, xs[..n]);
      assert forall i :: 0 <= i < n ==> xs[..n][i] == xs[i];
      if f(xs[n]).Some? then init + [n] else init
  }

  /** One value is collected per position. */
  lemma {:induction false} CollectCount<A, B>(f: A -> Option<B>, xs: seq<A>)
    ensures |Collect(f, xs)| == |Positions(f, xs)|
  {
    if xs != [] {
      CollectCount(f, xs[..|xs| - 1]);
    }
  }

  /** The k-th collected value is what `f` yields for the k-th position. */
  lemma {:induction false} CollectAtPositions<A, B>(f: A -> Option<B>, xs: seq<A>)
    ensures |Collect(f, xs)| == |Positions(f, xs)|
    ensures forall k :: 0 <= k < |Positions(f, xs)| ==> f(xs[Positions(f, xs)[k]]) == Some(Collect(f, xs)[k])
  {
    CollectCount(f, xs);
    if xs != [] {
      var n := |xs| - 1;
      var init := xs[..n];
      CollectAtPositions(f, init);
      var values, idx := Collect(f, init), Positions(f, init);
      forall k | 0 <= k < |idx|
        ensures f(xs[Positions(f, xs)[k]]) == Some(Collect(f, xs)[k])
      {
        assert Positions(f, xs)[k] == idx[k] && Collect(f, xs)[k] == values[k];
        assert xs[idx[k]] == init[idx[k]];
      }
    }
  }

  /** One more element adds what `f` yields for it, if anything. */
  lemma CollectStep<A, B>(f: A -> Option<B>, xs: seq<A>, n: nat)
    requires n < |xs|
    ensures Collect(f, xs[..n + 1]) == Collect(f, xs[..n]) + (match f(xs[n]) case Some(y) => [y] case None => [])
  {
    assert xs[..n + 1][..n] == xs[..n];
  }

  /** Collecting over two consecutive pieces is collecting over each. */
  lemma {:induction false} CollectAppend<A, B>(f: A -> Option<B>, a: seq<A>, b: seq<A>)
    ensures Collect(f, a + b) == Collect(f, a) + Collect(f, b)
  {
    if b == [] {
      assert a + b == a;
    } else {
      var n := |b| - 1;
      var init := b[..n];
      CollectAppend(f, a, init);
      var last := match f(b[n]) case Some(y) => [y] case None => [];
      assert Collect(f, b) == Collect(f, init) + last;
      assert Collect(f, a + b) == Collect(f, a + init) + last by {
        assert (a + b)[..|a + b| - 1] == a + init;
        assert (a + b)[|a + b| - 1] == b[n];
      }
    }
  }

  /** An element `f` yields nothing for adds nothing, and collecting
      goes on after it. */
  lemma CollectSkips<A, B>(f: A -> Option<B>, a: seq<A>, x: A, b: seq<A>)
    requires f(x).None?
    ensures Collect(f, a + [x] + b) == Collect(f, a) + Collect(f, b)
  {
    CollectAppend(f, a + [x], b);
    CollectStep(f, a + [x], |a|);
    assert (a + [x])[..|a|] == a && (a + [x])[..|a| + 1] == a + [x];
  }
}
