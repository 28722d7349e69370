/** Sequence facts that every encoder here rests on. */
module Seqs {

  lemma Assoc<T>(a: seq<T>, b: seq<T>, c: seq<T>)
    ensures a + b + c == a + (b + c)
  {
  }

  lemma SplitConcat<T>(a: seq<T>, b: seq<T>)
    ensures (a + b)[..|a|] == a && (a + b)[|a|..] == b
  {
  }

  /** The concatenation of `f` over a sequence, built the way a loop appends it. */
  function Flat<S, T>(f: S -> seq<T>, xs: seq<S>): seq<T> {
    if xs == [] then [] else Flat(f, xs[..|xs| - 1]) + f(xs[|xs| - 1])
  }

  lemma FlatOne<S, T>(f: S -> seq<T>, x: S)
    ensures Flat(f, [x]) == f(x)
  {
  }

  lemma FlatSnoc<S, T>(f: S -> seq<T>, xs: seq<S>, x: S)
    ensures Flat(f, xs + [x]) == Flat(f, xs) + f(x)
  {
  }

  lemma {:induction false} FlatConcat<S, T>(f: S -> seq<T>, xs: seq<S>, ys: seq<S>)
    ensures Flat(f, xs + ys) == Flat(f, xs) + Flat(f, ys)
  {
    if ys == [] {
      assert xs + ys == xs;
    } else {
      var front, y := ys[..|ys| - 1], ys[|ys| - 1];
      FlatConcat(f, xs, front);
      Assoc(Flat(f, xs), Flat(f, front), f(y));
      assert (xs + ys)[..|xs + ys| - 1] == xs + front;
    }
  }

  lemma FlatHead<S, T>(f: S -> seq<T>, xs: seq<S>)
    requires xs != []
    ensures Flat(f, xs) == f(xs[0]) + Flat(f, xs[1..])
  {
    FlatConcat(f, [xs[0]], xs[1..]);
    FlatOne(f, xs[0]);
    assert [xs[0]] + xs[1..] == xs;
  }

  lemma {:induction false} FlatUnchanged<T>(f: T -> seq<T>, xs: seq<T>)
    requires forall i :: 0 <= i < |xs| ==> f(xs[i]) == [xs[i]]
    ensures Flat(f, xs) == xs
  {
    if xs == [] {
    } else {
      var n := |xs| - 1;
      FlatUnchanged(f, xs[..n]);
      assert xs[..n] + [xs[n]] == xs;
    }
  }

  function Whole<T>(xs: seq<T>): seq<T> { xs }

  function FlatBy<S, T>(f: S -> seq<T>): seq<S> -> seq<T> {
    (xs: seq<S>) => Flat(f, xs)
  }

  /** Flattening groups and then mapping is mapping each group and then flattening. */
  lemma {:induction false} FlatOfGroups<S, T>(f: S -> seq<T>, groups: seq<seq<S>>)
    ensures Flat(f, Flat(Whole, groups)) == Flat(Whole, Map(FlatBy(f), groups))
  {
    if groups == [] {
    } else {
      var front, last := groups[..|groups| - 1], groups[|groups| - 1];
      FlatOfGroups(f, front);
      FlatConcat(f, Flat(Whole, front), last);
      MapFront(FlatBy(f), groups);
      FlatSnoc(Whole, Map(FlatBy(f), front), FlatBy(f)(last));
    }
  }

  function Map<S, T>(f: S -> T, xs: seq<S>): (ys: seq<T>)
    ensures |ys| == |xs|
    ensures forall i :: 0 <= i < |xs| ==> ys[i] == f(xs[i])
  {
    seq(|xs|, i requires 0 <= i < |xs| => f(xs[i]))
  }

  lemma MapConcat<S, T>(f: S -> T, xs: seq<S>, ys: seq<S>)
    ensures Map(f, xs + ys) == Map(f, xs) + Map(f, ys)
  {
  }

  lemma MapOne<S, T>(f: S -> T, x: S)
    ensures Map(f, [x]) == [f(x)]
  {
  }

  lemma MapTail<S, T>(f: S -> T, xs: seq<S>)
    requires xs != []
    ensures Map(f, xs)[0] == f(xs[0]) && Map(f, xs)[1..] == Map(f, xs[1..])
  {
  }

  lemma MapFront<S, T>(f: S -> T, xs: seq<S>)
    requires xs != []
    ensures Map(f, xs) == Map(f, xs[..|xs| - 1]) + [f(xs[|xs| - 1])]
  {
  }
}
