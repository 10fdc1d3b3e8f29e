/**
 Half-open intervals that follow one another: the shape of everything the layout code
 places.
 */
module Intervals {

  datatype Span = Span(lo: int, hi: int)

  /** The spans lie between lo and hi, each one starting where the ones before have ended. */
  ghost predicate Chain(xs: seq<Span>, lo: int, hi: int) {
    if xs == [] then lo <= hi
    else
      var x := xs[|xs| - 1];
      x.lo <= x.hi <= hi && Chain(xs[..|xs| - 1], lo, x.lo)
  }

  lemma ChainBounds(xs: seq<Span>, lo: int, hi: int)
    requires Chain(xs, lo, hi)
    ensures lo <= hi
  {
    if xs != [] {
      ChainBounds(xs[..|xs| - 1], lo, xs[|xs| - 1].lo);
    }
  }

  lemma ChainWider(xs: seq<Span>, lo: int, hi: int, lo': int, hi': int)
    requires Chain(xs, lo, hi) && lo' <= lo && hi <= hi'
    ensures Chain(xs, lo', hi')
  {
    ChainBounds(xs, lo, hi);
    if xs != [] {
      ChainWider(xs[..|xs| - 1], lo, xs[|xs| - 1].lo, lo', xs[|xs| - 1].lo);
    }
  }

  lemma {:induction false} ChainConcat(xs: seq<Span>, ys: seq<Span>, lo: int, mid: int, hi: int)
    requires Chain(xs, lo, mid) && Chain(ys, mid, hi)
    ensures Chain(xs + ys, lo, hi)
  {
    if ys == [] {
      assert xs + ys == xs;
      ChainWider(xs, lo, mid, lo, hi);
    } else {
      var y := ys[|ys| - 1];
      ChainConcat(xs, ys[..|ys| - 1], lo, mid, y.lo);
      assert (xs + ys)[..|xs + ys| - 1] == xs + ys[..|ys| - 1];
    }
  }

  lemma {:induction false} ChainMember(xs: seq<Span>, lo: int, hi: int, i: nat)
    requires Chain(xs, lo, hi) && i < |xs|
    ensures lo <= xs[i].lo <= xs[i].hi <= hi
  {
    var x := xs[|xs| - 1];
    ChainBounds(xs[..|xs| - 1], lo, x.lo);
    if i < |xs| - 1 {
      ChainMember(xs[..|xs| - 1], lo, x.lo, i);
    }
  }

  /** Spans of a chain lie in its range and no two of them overlap. */
  lemma {:induction false} ChainDisjoint(xs: seq<Span>, lo: int, hi: int, i: nat, j: nat)
    requires Chain(xs, lo, hi) && i < j < |xs|
    ensures lo <= xs[i].lo && xs[i].hi <= xs[j].lo && xs[j].hi <= hi
  {
    if j < |xs| - 1 {
      ChainDisjoint(xs[..|xs| - 1], lo, xs[|xs| - 1].lo, i, j);
    } else {
      ChainMember(xs[..|xs| - 1], lo, xs[|xs| - 1].lo, i);
    }
  }
}
