/** State machines as left folds over their input. */
module Folds {

  function Fold<S, T>(step: (S, T) -> S, s: S, input: seq<T>): S
    decreases |input|
  {
    if input == [] then s else Fold(step, step(s, input[0]), input[1..])
  }

  lemma {:induction false} FoldConcat<S, T>(step: (S, T) -> S, s: S, a: seq<T>, b: seq<T>)
    ensures Fold(step, s, a + b) == Fold(step, Fold(step, s, a), b)
    decreases |a|
  {
    if a == [] {
      assert a + b == b;
    } else {
      FoldConcat(step, step(s, a[0]), a[1..], b);
      assert (a + b)[1..] == a[1..] + b;
    }
  }

  lemma FoldOne<S, T>(step: (S, T) -> S, s: S, x: T)
    ensures Fold(step, s, [x]) == step(s, x)
  {
    assert [x][1..] == [];
  }

  lemma FoldCons<S, T>(step: (S, T) -> S, s: S, x: T, rest: seq<T>)
    ensures Fold(step, s, [x] + rest) == Fold(step, step(s, x), rest)
  {
    assert ([x] + rest)[1..] == rest;
  }

  function MapAll<T, U>(f: T -> U, input: seq<T>): seq<U> {
    if input == [] then [] else [f(input[0])] + MapAll(f, input[1..])
  }

  lemma {:induction false} MapConcat<T, U>(f: T -> U, a: seq<T>, b: seq<T>)
    ensures MapAll(f, a + b) == MapAll(f, a) + MapAll(f, b)
  {
    if a == [] {
      assert a + b == b;
    } else {
      var head, x, y := [f(a[0])], MapAll(f, a[1..]), MapAll(f, b);
      assert MapAll(f, (a + b)[1..]) == x + y by {
        assert (a + b)[1..] == a[1..] + b;
        MapConcat(f, a[1..], b);
      }
      assert head + (x + y) == (head + x) + y;
    }
  }

  lemma MapOne<T, U>(f: T -> U, x: T)
    ensures MapAll(f, [x]) == [f(x)]
  {
    assert [x][1..] == [];
  }

  lemma MapCons<T, U>(f: T -> U, x: T, rest: seq<T>)
    ensures MapAll(f, [x] + rest) == [f(x)] + MapAll(f, rest)
  {
    assert ([x] + rest)[1..] == rest;
  }

  /** `p` holds of the first `n` elements. */
  predicate AllUpTo<T>(p: T -> bool, s: seq<T>, n: nat)
    requires n <= |s|
  {
    n == 0 || (AllUpTo(p, s, n - 1) && p(s[n - 1]))
  }

  lemma {:induction false} AllUpToMeans<T>(p: T -> bool, s: seq<T>, n: nat)
    requires n <= |s|
    ensures AllUpTo(p, s, n) <==> forall j :: 0 <= j < n ==> p(s[j])
  {
    if n > 0 {
      AllUpToMeans(p, s, n - 1);
    }
  }

  lemma AllMeans<T>(p: T -> bool, s: seq<T>)
    ensures AllUpTo(p, s, |s|) <==> forall x :: x in s ==> p(x)
  {
    AllUpToMeans(p, s, |s|);
    if !AllUpTo(p, s, |s|) {
      var j :| 0 <= j < |s| && !p(s[j]);
      assert s[j] in s;
    }
  }

  /** The fold over the first `i` elements, by index. */
  ghost function FoldAt<S, T>(step: (S, T) -> S, s: S, xs: seq<T>, i: nat): S
    requires i <= |xs|
  {
    if i == 0 then s else step(FoldAt(step, s, xs, i - 1), xs[i - 1])
  }

  lemma MapOneMore<T, U>(f: T -> U, xs: seq<T>, x: T)
    ensures MapAll(f, xs + [x]) == MapAll(f, xs) + [f(x)]
  {
    MapConcat(f, xs, [x]);
    assert [x][1..] == [];
    assert MapAll(f, [x]) == [f(x)] + MapAll(f, []);
  }

  /** Folding the images is folding with the composed step. */
  lemma {:induction false} FoldOfMapped<S, T, U>(step: (S, U) -> S, f: T -> U, both: (S, T) -> S, s: S, xs: seq<T>, i: nat)
    requires i <= |xs| && forall a, x {:trigger both(a, x)} :: both(a, x) == step(a, f(x))
    ensures Fold(step, s, MapAll(f, xs[..i])) == FoldAt(both, s, xs, i)
  {
    if i > 0 {
      var init, x := xs[..i - 1], xs[i - 1];
      FoldOfMapped(step, f, both, s, xs, i - 1);
      assert xs[..i] == init + [x];
      MapOneMore(f, init, x);
      FoldConcat(step, s, MapAll(f, init), [f(x)]);
      FoldOne(step, FoldAt(both, s, xs, i - 1), f(x));
    }
  }

  ghost predicate HasPreimage<T(!new), U>(valid: T -> bool, f: T -> U, y: U) {
    exists x :: valid(x) && f(x) == y
  }

  /** A list whose elements all have a valid preimage has a list of valid preimages. */
  lemma {:induction false} Preimages<T(!new), U>(valid: T -> bool, f: T -> U, ys: seq<U>) returns (xs: seq<T>)
    requires forall i :: 0 <= i < |ys| ==> HasPreimage(valid, f, ys[i])
    ensures MapAll(f, xs) == ys && forall i :: 0 <= i < |xs| ==> valid(xs[i])
    decreases |ys|
  {
    if ys == [] {
      xs := [];
    } else {
      var x :| valid(x) && f(x) == ys[0];
      var rest := Preimages(valid, f, ys[1..]);
      xs := [x] + rest;
      assert xs[1..] == rest;
    }
  }
}
