/**
 Python's ordering of `str` values (code point by code point, a proper
 prefix first) and `sorted()` over a list of strings.
 */
module Lexicographic {

  /** `a <= b` on Python strings. */
  predicate Le(a: string, b: string)
  {
    |a| == 0 || (|b| > 0 && (a[0] < b[0] || (a[0] == b[0] && Le(a[1..], b[1..]))))
  }

  /** `a` and `b` agree before index `k` and differ at `k`, where `a` is smaller. */
  ghost predicate FirstDiffLess(a: string, b: string, k: nat)
  {
    k < |a| && k < |b| && a[..k] == b[..k] && a[k] < b[k]
  }

  /**
   Le is the textbook order: either `a` is a prefix of `b`, or at the first
   index where they differ `a` has the smaller character.
   */
  lemma {:induction false} LeMeaning(a: string, b: string)
    ensures Le(a, b) <==> (|a| <= |b| && b[..|a|] == a) || exists k: nat :: FirstDiffLess(a, b, k)
  {
    if |a| == 0 || |b| == 0 {
      if |a| > 0 {
        assert forall k: nat :: !FirstDiffLess(a, b, k);
      }
    } else {
      LeMeaning(a[1..], b[1..]);
      if a[0] < b[0] {
        assert FirstDiffLess(a, b, 0);
      } else if a[0] == b[0] {
        assert |a| <= |b| && b[..|a|] == a <==> |a[1..]| <= |b[1..]| && b[1..][..|a[1..]|] == a[1..] by {
          if |a| <= |b| && b[..|a|] == a {
            assert b[1..][..|a[1..]|] == b[..|a|][1..];
          }
          if |a[1..]| <= |b[1..]| && b[1..][..|a[1..]|] == a[1..] {
            assert b[..|a|] == [b[0]] + b[1..][..|a[1..]|];
            assert a == [a[0]] + a[1..];
          }
        }
        forall k: nat ensures FirstDiffLess(a[1..], b[1..], k) <==> FirstDiffLess(a, b, k + 1) {
          if k + 1 < |a| && k + 1 < |b| {
            assert a[..k + 1] == [a[0]] + a[1..][..k];
            assert b[..k + 1] == [b[0]] + b[1..][..k];
          }
        }
        assert !FirstDiffLess(a, b, 0);
        if exists k: nat :: FirstDiffLess(a, b, k) {
          var k: nat :| FirstDiffLess(a, b, k);
          assert FirstDiffLess(a[1..], b[1..], k - 1);
        }
      } else {
        if |a| <= |b| { assert b[..|a|][0] == b[0]; }
        assert forall k: nat :: !FirstDiffLess(a, b, k);
      }
    }
  }

  lemma {:induction false} LeReflexive(a: string)
    ensures Le(a, a)
  {
    if |a| > 0 { LeReflexive(a[1..]); }
  }

  lemma {:induction false} LeTotal(a: string, b: string)
    ensures Le(a, b) || Le(b, a)
  {
    if |a| > 0 && |b| > 0 && a[0] == b[0] { LeTotal(a[1..], b[1..]); }
  }

  lemma {:induction false} LeAntisymmetric(a: string, b: string)
    requires Le(a, b) && Le(b, a)
    ensures a == b
  {
    if |a| > 0 {
      LeAntisymmetric(a[1..], b[1..]);
      assert a == [a[0]] + a[1..] && b == [b[0]] + b[1..];
    }
  }

  lemma {:induction false} LeTransitive(a: string, b: string, c: string)
    requires Le(a, b) && Le(b, c)
    ensures Le(a, c)
  {
    if |a| > 0 && a[0] == b[0] && b[0] == c[0] {
      LeTransitive(a[1..], b[1..], c[1..]);
    }
  }

  /** A common prefix does not change the order of two strings. */
  lemma {:induction false} LeCommonPrefix(p: string, a: string, b: string)
    ensures Le(p + a, p + b) <==> Le(a, b)
  {
    if p != [] {
      assert (p + a)[1..] == p[1..] + a && (p + b)[1..] == p[1..] + b;
      LeCommonPrefix(p[1..], a, b);
    } else {
      assert p + a == a && p + b == b;
    }
  }

  /** Non-decreasing order. */
  ghost predicate Sorted(s: seq<string>)
  {
    forall i, j :: 0 <= i < j < |s| ==> Le(s[i], s[j])
  }

  /** Place `x` before the first element it does not exceed. */
  function Insert(x: string, s: seq<string>): seq<string>
  {
    if s == [] then [x]
    else if Le(x, s[0]) then [x] + s
    else [s[0]] + Insert(x, s[1..])
  }

  lemma {:induction false} InsertPermutes(x: string, s: seq<string>)
    ensures multiset(Insert(x, s)) == multiset(s) + multiset{x}
  {
    if s != [] && !Le(x, s[0]) {
      InsertPermutes(x, s[1..]);
      assert s == [s[0]] + s[1..];
    }
  }

  lemma {:induction false} InsertKeepsSorted(x: string, s: seq<string>)
    requires Sorted(s)
    ensures Sorted(Insert(x, s))
  {
    if s == [] {
    } else if Le(x, s[0]) {
      forall k | 0 <= k < |s| ensures Le(x, s[k]) {
        if k > 0 { LeTransitive(x, s[0], s[k]); }
      }
    } else {
      LeTotal(x, s[0]);
      var t := Insert(x, s[1..]);
      InsertKeepsSorted(x, s[1..]);
      InsertPermutes(x, s[1..]);
      forall j | 0 <= j < |t| ensures Le(s[0], t[j]) {
        assert t[j] in multiset(s[1..]) + multiset{x};
        if t[j] != x {
          assert t[j] in s[1..];
        }
      }
    }
  }

  /** Python's `sorted(s)`: the elements of `s`, each as often as in `s`, in order. */
  function SortStrings(s: seq<string>): (r: seq<string>)
    ensures Sorted(r)
    ensures multiset(r) == multiset(s)
  {
    if s == [] then []
    else
      var t := SortStrings(s[1..]);
      InsertStep(s, t);
      Insert(s[0], t)
  }

  /** Inserting the head of `s` into a sorted arrangement of its tail sorts `s`. */
  lemma InsertStep(s: seq<string>, t: seq<string>)
    requires s != [] && Sorted(t) && multiset(t) == multiset(s[1..])
    ensures Sorted(Insert(s[0], t))
    ensures multiset(Insert(s[0], t)) == multiset(s)
  {
    InsertKeepsSorted(s[0], t);
    InsertPermutes(s[0], t);
    assert s == [s[0]] + s[1..];
  }

  /**
   There is only one sorted arrangement of a collection of strings, so
   SortStrings agrees with any correct sort, Python's Timsort included.
   */
  lemma {:induction false} SortedUnique(a: seq<string>, b: seq<string>)
    requires Sorted(a) && Sorted(b)
    requires multiset(a) == multiset(b)
    ensures a == b
  {
    if a != [] {
      assert |b| == |a| by { assert |multiset(b)| == |multiset(a)|; }
      SortedHeadsAgree(a, b);
      assert multiset(a[1..]) == multiset(b[1..]) by {
        assert a == [a[0]] + a[1..] && b == [b[0]] + b[1..];
        assert multiset(a[1..]) == multiset(a) - multiset{a[0]};
        assert multiset(b[1..]) == multiset(b) - multiset{b[0]};
      }
      SortedUnique(a[1..], b[1..]);
      assert a == [a[0]] + a[1..] && b == [b[0]] + b[1..];
    }
  }

  /** Two sorted arrangements of the same strings start with the same string. */
  lemma SortedHeadsAgree(a: seq<string>, b: seq<string>)
    requires Sorted(a) && Sorted(b) && a != [] && b != []
    requires multiset(a) == multiset(b)
    ensures a[0] == b[0]
  {
    assert a[0] in multiset(b) && b[0] in multiset(a);
    var i :| 0 <= i < |b| && b[i] == a[0];
    var j :| 0 <= j < |a| && a[j] == b[0];
    LeReflexive(a[0]);
    LeReflexive(b[0]);
    assert Le(b[0], b[i]) && Le(a[0], a[j]);
    LeAntisymmetric(a[0], b[0]);
  }

  /** Sorting the same strings given in another order gives the same list. */
  lemma SortIgnoresOrder(s: seq<string>, t: seq<string>)
    requires multiset(s) == multiset(t)
    ensures SortStrings(s) == SortStrings(t)
  {
    SortedUnique(SortStrings(s), SortStrings(t));
  }
}
