/**
 Building a list by walking a sequence and appending `f(x)` for the
 elements `x` that a test keeps, as a loop with `append` does. The
 facts here hold for any test and any `f`.
 */
module Selection {

  /** `[f(x) for x in xs if keep(x)]`. */
  function Select<T, U>(xs: seq<T>, keep: T -> bool, f: T -> U): seq<U>
  {
    if xs == [] then []
    else (if keep(xs[0]) then [f(xs[0])] else []) + Select(xs[1..], keep, f)
  }

  /** `[f(x) for x in xs]`. */
  function MapAll<T, U>(xs: seq<T>, f: T -> U): (r: seq<U>)
    ensures |r| == |xs|
    ensures forall i :: 0 <= i < |xs| ==> r[i] == f(xs[i])
  {
    if xs == [] then [] else [f(xs[0])] + MapAll(xs[1..], f)
  }

  /** Selecting from a concatenation concatenates the selections: the order is kept. */
  lemma {:induction false} SelectAppend<T, U>(a: seq<T>, b: seq<T>, keep: T -> bool, f: T -> U)
    ensures Select(a + b, keep, f) == Select(a, keep, f) + Select(b, keep, f)
  {
    if a == [] {
      assert a + b == b;
    } else {
      var head := if keep(a[0]) then [f(a[0])] else [];
      assert (a + b)[0] == a[0] && (a + b)[1..] == a[1..] + b;
      assert Select(a + b, keep, f) == head + Select(a[1..] + b, keep, f);
      SelectAppend(a[1..], b, keep, f);
      assert Select(a, keep, f) == head + Select(a[1..], keep, f);
    }
  }

  /** Appending one element appends `f` of it exactly when it is kept. */
  lemma SelectSnoc<T, U>(xs: seq<T>, x: T, keep: T -> bool, f: T -> U)
    ensures Select(xs + [x], keep, f) == Select(xs, keep, f) + (if keep(x) then [f(x)] else [])
  {
    SelectAppend(xs, [x], keep, f);
    assert [x][1..] == [];
  }

  /** Selecting from one more element of a prefix. */
  lemma SelectTake<T, U>(xs: seq<T>, n: nat, keep: T -> bool, f: T -> U)
    requires n < |xs|
    ensures Select(xs[..n + 1], keep, f) == Select(xs[..n], keep, f) + (if keep(xs[n]) then [f(xs[n])] else [])
  {
    assert xs[..n + 1] == xs[..n] + [xs[n]];
    SelectSnoc(xs[..n], xs[n], keep, f);
  }

  /** The element at index `i` contributes `f` of itself, at its own place, exactly when it is kept. */
  lemma SelectAt<T, U>(xs: seq<T>, i: nat, keep: T -> bool, f: T -> U)
    requires i < |xs|
    ensures Select(xs, keep, f) ==
      Select(xs[..i], keep, f) + (if keep(xs[i]) then [f(xs[i])] else []) + Select(xs[i + 1..], keep, f)
  {
    assert xs == xs[..i] + [xs[i]] + xs[i + 1..];
    SelectAround(xs[..i], xs[i], xs[i + 1..], keep, f);
  }

  /** One element between two stretches contributes its image between theirs, exactly when kept. */
  lemma SelectAround<T, U>(front: seq<T>, x: T, back: seq<T>, keep: T -> bool, f: T -> U)
    ensures Select(front + [x] + back, keep, f) ==
      Select(front, keep, f) + (if keep(x) then [f(x)] else []) + Select(back, keep, f)
  {
    SelectAppend(front + [x], back, keep, f);
    SelectSnoc(front, x, keep, f);
  }

  /** Taking out the element at index `i` takes its image, if kept, out of the selection. */
  lemma SelectRemove<T, U>(b: seq<T>, i: nat, keep: T -> bool, f: T -> U)
    requires i < |b|
    ensures multiset(Select(b, keep, f)) ==
      multiset(Select(b[..i] + b[i + 1..], keep, f)) + multiset(if keep(b[i]) then [f(b[i])] else [])
  {
    SelectAt(b, i, keep, f);
    SelectAppend(b[..i], b[i + 1..], keep, f);
  }

  /** Removing matching elements from two rearrangements of each other leaves rearrangements. */
  lemma RemovePermutes<T>(a: seq<T>, b: seq<T>, i: nat)
    requires multiset(a) == multiset(b) && a != [] && i < |b| && b[i] == a[0]
    ensures multiset(a[1..]) == multiset(b[..i] + b[i + 1..])
  {
    assert a == [a[0]] + a[1..];
    assert b == b[..i] + [b[i]] + b[i + 1..];
    assert multiset(a[1..]) == multiset(a) - multiset{a[0]};
    assert multiset(b[..i] + b[i + 1..]) == multiset(b) - multiset{b[i]};
  }

  /** Rearranging the input rearranges the selection: the same images, each as often. */
  lemma {:induction false} SelectPermutes<T, U>(a: seq<T>, b: seq<T>, keep: T -> bool, f: T -> U)
    requires multiset(a) == multiset(b)
    ensures multiset(Select(a, keep, f)) == multiset(Select(b, keep, f))
    decreases |a|
  {
    if a != [] {
      assert a[0] in multiset(b);
      var i :| 0 <= i < |b| && b[i] == a[0];
      RemovePermutes(a, b, i);
      SelectPermutes(a[1..], b[..i] + b[i + 1..], keep, f);
      SelectRemove(b, i, keep, f);
    }
  }

  /** A test and its negation split the mapped list between them, each element exactly once. */
  lemma {:induction false} SelectComplement<T, U>(xs: seq<T>, keep: T -> bool, drop: T -> bool, f: T -> U)
    requires forall x :: drop(x) == !keep(x)
    ensures multiset(Select(xs, keep, f)) + multiset(Select(xs, drop, f)) == multiset(MapAll(xs, f))
    ensures |Select(xs, keep, f)| + |Select(xs, drop, f)| == |xs|
  {
    if xs != [] {
      SelectComplement(xs[1..], keep, drop, f);
    }
  }
}
