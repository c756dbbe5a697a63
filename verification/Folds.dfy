/** Machines that read a sequence one item at a time, and pairs of such runs. */
module Folds {

  /** The state after reading the items in order. */
  function Fold<S, T>(step: (S, T) -> S, s: S, items: seq<T>): S
    decreases |items|
  {
    if |items| == 0 then s else Fold(step, step(s, items[0]), items[1..])
  }

  function Flatten<T, U>(parts: T -> seq<U>, items: seq<T>): seq<U>
    decreases |items|
  {
    if |items| == 0 then [] else parts(items[0]) + Flatten(parts, items[1..])
  }

  lemma {:induction false} FoldConcat<S, T>(step: (S, T) -> S, s: S, a: seq<T>, b: seq<T>)
    ensures Fold(step, s, a + b) == Fold(step, Fold(step, s, a), b)
    decreases |a|
  {
    if |a| == 0 {
      assert a + b == b;
    } else {
      assert (a + b)[1..] == a[1..] + b;
      FoldConcat(step, step(s, a[0]), a[1..], b);
    }
  }

  lemma {:induction false} FlattenConcat<T, U>(parts: T -> seq<U>, a: seq<T>, b: seq<T>)
    ensures Flatten(parts, a + b) == Flatten(parts, a) + Flatten(parts, b)
    decreases |a|
  {
    if |a| == 0 {
      assert a + b == b;
    } else {
      assert (a + b)[1..] == a[1..] + b;
      FlattenConcat(parts, a[1..], b);
    }
  }

  /** A machine whose step reads all parts of an item at once does what reading part by part does. */
  lemma {:induction false} FoldParts<S(!new), T(!new), U>(
    coarse: (S, T) -> S, fine: (S, U) -> S, parts: T -> seq<U>, s: S, items: seq<T>)
    requires forall r, t :: coarse(r, t) == Fold(fine, r, parts(t))
    ensures Fold(coarse, s, items) == Fold(fine, s, Flatten(parts, items))
    decreases |items|
  {
    if |items| > 0 {
      FoldConcat(fine, s, parts(items[0]), Flatten(parts, items[1..]));
      FoldParts(coarse, fine, parts, coarse(s, items[0]), items[1..]);
    }
  }

  ghost predicate Injective<S(!new), T(!new)>(step: (S, T) -> S) {
    forall r, s, t :: step(r, t) == step(s, t) ==> r == s
  }

  lemma {:induction false} FoldIsInjective<S(!new), T(!new)>(step: (S, T) -> S, r: S, s: S, items: seq<T>)
    requires Injective(step) && Fold(step, r, items) == Fold(step, s, items)
    ensures r == s
    decreases |items|
  {
    if |items| > 0 {
      FoldIsInjective(step, step(r, items[0]), step(s, items[0]), items[1..]);
    }
  }

  /** How far apart two states are kept: each step costs at most one, and no state is apart from itself. */
  ghost predicate KeepsApart<S(!new), T(!new)>(step: (S, T) -> S, apart: (S, S, nat) -> bool, width: nat) {
    && (forall r, s, k: nat, x, y :: k + 1 < width && apart(r, s, k) ==> apart(step(r, x), step(s, y), k + 1))
    && (forall r, x, y :: x != y ==> apart(step(r, x), step(r, y), 0))
    && (forall r, k: nat :: k < width ==> !apart(r, r, k))
  }

  lemma {:induction false} StaysApart<S(!new), T(!new)>(
    step: (S, T) -> S, apart: (S, S, nat) -> bool, width: nat, r: S, s: S, k: nat, a: seq<T>, b: seq<T>)
    requires KeepsApart(step, apart, width) && apart(r, s, k)
    requires |a| == |b| && k + |a| < width
    ensures Fold(step, r, a) != Fold(step, s, b)
    decreases |a|
  {
    if |a| > 0 {
      StaysApart(step, apart, width, step(r, a[0]), step(s, b[0]), k + 1, a[1..], b[1..]);
    }
  }

  /** Different windows of at most that many items take one state to two. */
  lemma {:induction false} WindowsDiffer<S(!new), T(!new)>(
    step: (S, T) -> S, apart: (S, S, nat) -> bool, width: nat, s: S, a: seq<T>, b: seq<T>)
    requires KeepsApart(step, apart, width) && |a| == |b| <= width && a != b
    ensures Fold(step, s, a) != Fold(step, s, b)
    decreases |a|
  {
    assert a == [a[0]] + a[1..] && b == [b[0]] + b[1..];
    if a[0] == b[0] {
      WindowsDiffer(step, apart, width, step(s, a[0]), a[1..], b[1..]);
    } else {
      StaysApart(step, apart, width, step(s, a[0]), step(s, b[0]), 0, a[1..], b[1..]);
    }
  }

  /** A change inside one window, at any place, always reaches the final state. */
  lemma BurstReachesTheEnd<S(!new), T(!new)>(step: (S, T) -> S, apart: (S, S, nat) -> bool, width: nat, s: S,
                                             pre: seq<T>, a: seq<T>, b: seq<T>, post: seq<T>)
    requires KeepsApart(step, apart, width) && Injective(step)
    requires |a| == |b| <= width && a != b
    ensures Fold(step, s, pre + a + post) != Fold(step, s, pre + b + post)
  {
    FoldConcat(step, s, pre + a, post);
    FoldConcat(step, s, pre + b, post);
    FoldConcat(step, s, pre, a);
    FoldConcat(step, s, pre, b);
    var r := Fold(step, s, pre);
    WindowsDiffer(step, apart, width, r, a, b);
    if Fold(step, s, pre + a + post) == Fold(step, s, pre + b + post) {
      FoldIsInjective(step, Fold(step, r, a), Fold(step, r, b), post);
    }
  }

  // ----- Items that enter one per shift -----

  function Iterate<S>(shift: S -> S, n: nat, s: S): S {
    if n == 0 then s else shift(Iterate(shift, n - 1, s))
  }

  lemma {:induction false} IterateAdds<S>(shift: S -> S, m: nat, n: nat, s: S)
    ensures Iterate(shift, m + n, s) == Iterate(shift, m, Iterate(shift, n, s))
    decreases m
  {
    if m > 0 { IterateAdds(shift, m - 1, n, s); }
  }

  lemma IterateFour<S>(shift: S -> S, s: S)
    ensures Iterate(shift, 4, s) == shift(shift(shift(shift(s))))
  {
    assert Iterate(shift, 2, s) == shift(shift(s));
  }

  /** The state with every item added at its own place, from place k on. */
  function Spread<S, T>(add: (S, S) -> S, place: (T, nat) -> S, k: nat, s: S, items: seq<T>): S
    decreases |items|
  {
    if |items| == 0 then s else Spread(add, place, k + 1, add(s, place(items[0], k)), items[1..])
  }

  /** A step adds an item at place 0 and shifts, and a shift moves place k + 1 to place k. */
  ghost predicate ShiftsPlaces<S(!new), T(!new)>(
    step: (S, T) -> S, shift: S -> S, add: (S, S) -> S, place: (T, nat) -> S, width: nat)
  {
    && (forall s, t :: step(s, t) == shift(add(s, place(t, 0))))
    && (forall s, t, j: nat, k: nat :: k + 1 == j < width ==>
          add(shift(s), place(t, k)) == shift(add(s, place(t, j))))
  }

  lemma {:induction false} AddBeforeShifting<S(!new), T(!new)>(
    step: (S, T) -> S, shift: S -> S, add: (S, S) -> S, place: (T, nat) -> S, width: nat,
    s: S, t: T, j: nat, k: nat)
    requires ShiftsPlaces(step, shift, add, place, width) && j + k < width
    ensures add(Iterate(shift, k, s), place(t, j)) == Iterate(shift, k, add(s, place(t, j + k)))
    decreases k
  {
    if k > 0 {
      AddBeforeShifting(step, shift, add, place, width, s, t, j + 1, k - 1);
      assert add(shift(Iterate(shift, k - 1, s)), place(t, j))
          == shift(add(Iterate(shift, k - 1, s), place(t, j + 1)));
    }
  }

  /** Items that enter one per shift may all be added first and shifted after. */
  lemma {:induction false} AllAtOnce<S(!new), T(!new)>(
    step: (S, T) -> S, shift: S -> S, add: (S, S) -> S, place: (T, nat) -> S, width: nat,
    k: nat, s: S, items: seq<T>)
    requires ShiftsPlaces(step, shift, add, place, width) && k + |items| <= width
    ensures Fold(step, Iterate(shift, k, s), items)
         == Iterate(shift, k + |items|, Spread(add, place, k, s, items))
    decreases |items|
  {
    if |items| > 0 {
      var t := add(s, place(items[0], k));
      AddBeforeShifting(step, shift, add, place, width, s, items[0], 0, k);
      assert step(Iterate(shift, k, s), items[0]) == Iterate(shift, k + 1, t);
      AllAtOnce(step, shift, add, place, width, k + 1, t, items[1..]);
    }
  }

  lemma SpreadFour<S, T>(add: (S, S) -> S, place: (T, nat) -> S, s: S, items: seq<T>)
    requires |items| == 4
    ensures Spread(add, place, 0, s, items)
         == add(add(add(add(s, place(items[0], 0)), place(items[1], 1)), place(items[2], 2)), place(items[3], 3))
  {
    var s2 := add(add(s, place(items[0], 0)), place(items[1], 1));
    assert items[1..][1..] == items[2..] && items[2..][1..] == items[3..];
    assert Spread(add, place, 0, s, items) == Spread(add, place, 2, s2, items[2..]);
    assert Spread(add, place, 3, add(s2, place(items[2], 2)), items[3..])
        == add(add(s2, place(items[2], 2)), place(items[3], 3));
  }
}
