/** Loops that fold a sequence into an accumulator, over any types. */
module Folds {
  /** The accumulator after all items, first to last. */
  function Fold<S, T>(f: (S, T) -> S, initial: S, items: seq<T>): S {
    if items == [] then initial else f(Fold(f, initial, items[..|items| - 1]), items[|items| - 1])
  }

  lemma FoldStep<S, T>(f: (S, T) -> S, initial: S, items: seq<T>, n: nat)
    requires n < |items|
    ensures Fold(f, initial, items[..n + 1]) == f(Fold(f, initial, items[..n]), items[n])
  {
    assert items[..n + 1][..n] == items[..n];
  }

  lemma {:induction false} FoldConcat<S, T>(f: (S, T) -> S, initial: S, a: seq<T>, b: seq<T>)
    ensures Fold(f, initial, a + b) == Fold(f, Fold(f, initial, a), b)
  {
    if b == [] {
      assert a + b == a;
    } else {
      var n := |b| - 1;
      assert (a + b)[..|a| + n] == a + b[..n];
      FoldConcat(f, initial, a, b[..n]);
    }
  }

  /** Different accumulators stay different over the same items. */
  lemma {:induction false} FoldInjective<S(!new), T(!new)>(f: (S, T) -> S, x: S, y: S, items: seq<T>)
    requires forall s, t, item :: f(s, item) == f(t, item) ==> s == t
    requires Fold(f, x, items) == Fold(f, y, items)
    ensures x == y
  {
    if items != [] {
      var n := |items| - 1;
      assert Fold(f, x, items[..n]) == Fold(f, y, items[..n]);
      FoldInjective(f, x, y, items[..n]);
    }
  }

  /** Two item strings that agree outside `lo..hi` and fold alike also agree inside,
      when the windows can be told apart from every accumulator. */
  lemma FoldWindow<S(!new), T(!new)>(f: (S, T) -> S, initial: S, a: seq<T>, b: seq<T>, lo: nat, hi: nat)
    requires forall s, t, item :: f(s, item) == f(t, item) ==> s == t
    requires lo <= hi <= |a| == |b|
    requires forall i :: 0 <= i < |a| && !(lo <= i < hi) ==> a[i] == b[i]
    requires forall s :: Fold(f, s, a[lo..hi]) == Fold(f, s, b[lo..hi]) ==> a[lo..hi] == b[lo..hi]
    requires Fold(f, initial, a) == Fold(f, initial, b)
    ensures a == b
  {
    assert a[..lo] == b[..lo] && a[hi..] == b[hi..];
    var s := Fold(f, initial, a[..lo]);
    SplitFold(f, initial, a, lo, hi);
    SplitFold(f, initial, b, lo, hi);
    FoldInjective(f, Fold(f, s, a[lo..hi]), Fold(f, s, b[lo..hi]), a[hi..]);
    forall i | lo <= i < hi ensures a[i] == b[i] {
      assert a[i] == a[lo..hi][i - lo] && b[i] == b[lo..hi][i - lo];
    }
  }

  lemma SplitFold<S, T>(f: (S, T) -> S, initial: S, a: seq<T>, lo: nat, hi: nat)
    requires lo <= hi <= |a|
    ensures Fold(f, initial, a) == Fold(f, Fold(f, Fold(f, initial, a[..lo]), a[lo..hi]), a[hi..])
  {
    assert a[..lo] + a[lo..hi] == a[..hi] && a[..hi] + a[hi..] == a;
    FoldConcat(f, initial, a[..lo], a[lo..hi]);
    FoldConcat(f, initial, a[..hi], a[hi..]);
  }

  /** Only the number of items matters to a function that ignores them. */
  lemma {:induction false} FoldIgnores<S(!new), T(!new)>(f: (S, T) -> S, s: S, a: seq<T>, b: seq<T>)
    requires |a| == |b|
    requires forall t, v, w :: f(t, v) == f(t, w)
    ensures Fold(f, s, a) == Fold(f, s, b)
  {
    if a != [] {
      FoldIgnores(f, s, a[..|a| - 1], b[..|b| - 1]);
    }
  }

  lemma {:induction false} FoldSameAfterFirst<S, T>(f: (S, T) -> S, x: S, y: S, items: seq<T>)
    requires items != [] && f(x, items[0]) == f(y, items[0])
    ensures Fold(f, x, items) == Fold(f, y, items)
  {
    assert items == [items[0]] + items[1..];
    FoldConcat(f, x, [items[0]], items[1..]);
    FoldConcat(f, y, [items[0]], items[1..]);
    FoldStep(f, x, items, 0);
    FoldStep(f, y, items, 0);
  }

  lemma FoldFirst<S, T>(f: (S, T) -> S, initial: S, items: seq<T>)
    requires items != []
    ensures Fold(f, initial, items) == Fold(f, f(initial, items[0]), items[1..])
  {
    assert items == [items[0]] + items[1..];
    FoldConcat(f, initial, [items[0]], items[1..]);
    FoldStep(f, initial, [items[0]], 0);
    assert [items[0]][..1] == [items[0]];
  }
}
