/**
 The few Python `str` operations the roster command relies on, over
 sequences of code points: `str.capitalize`, the substring test `in`,
 `str.join`, `str.split` (used only to state what `join` produced) and
 the decimal rendering of a non-negative `int` inside an f-string.
 */
module PyStrings {

  predicate IsAsciiLower(c: char) { 'a' <= c <= 'z' }

  predicate IsAsciiUpper(c: char) { 'A' <= c <= 'Z' }

  /** Upper-case of one character; only ASCII letters are mapped. */
  function UpperChar(c: char): char
  {
    if IsAsciiLower(c) then (c as int - 32) as char else c
  }

  /** Lower-case of one character; only ASCII letters are mapped. */
  function LowerChar(c: char): char
  {
    if IsAsciiUpper(c) then (c as int + 32) as char else c
  }

  lemma CaseMapping(c: char)
    ensures !IsAsciiLower(UpperChar(c)) && !IsAsciiUpper(LowerChar(c))
    ensures UpperChar(LowerChar(c)) == UpperChar(c)
    ensures LowerChar(UpperChar(c)) == LowerChar(c)
  {
  }

  /** `s.lower()`: every character lower-cased, nothing added or dropped. */
  function Lower(s: string): (r: string)
    ensures |r| == |s|
    ensures forall i :: 0 <= i < |s| ==> r[i] == LowerChar(s[i])
  {
    if s == [] then [] else [LowerChar(s[0])] + Lower(s[1..])
  }

  /** `s.capitalize()`. */
  function Capitalize(s: string): string
  {
    if s == [] then [] else [UpperChar(s[0])] + Lower(s[1..])
  }

  /**
   Capitalizing keeps the length, upper-cases the first character and
   lower-cases every other one: no lower-case ASCII letter is left in
   front and no upper-case ASCII letter anywhere after it.
   */
  lemma CapitalizeMeaning(s: string)
    ensures |Capitalize(s)| == |s|
    ensures |s| > 0 ==> Capitalize(s)[0] == UpperChar(s[0]) && !IsAsciiLower(Capitalize(s)[0])
    ensures forall i :: 0 < i < |s| ==> Capitalize(s)[i] == LowerChar(s[i]) && !IsAsciiUpper(Capitalize(s)[i])
  {
    if s != [] {
      CaseMapping(s[0]);
      forall i | 0 < i < |s| ensures !IsAsciiUpper(LowerChar(s[i])) { CaseMapping(s[i]); }
    }
  }

  /** Capitalizing twice gives what capitalizing once gives. */
  lemma CapitalizeIdempotent(s: string)
    ensures Capitalize(Capitalize(s)) == Capitalize(s)
  {
    var c := Capitalize(s);
    CapitalizeMeaning(s);
    CapitalizeMeaning(c);
    if s != [] {
      CaseMapping(s[0]);
      assert UpperChar(c[0]) == c[0];
    }
    forall i | 0 < i < |s| ensures LowerChar(c[i]) == c[i] {
      CaseMapping(s[i]);
    }
  }

  /** The result of capitalizing depends on its argument only up to case. */
  lemma CapitalizeIgnoresCase(a: string, b: string)
    requires Lower(a) == Lower(b)
    ensures Capitalize(a) == Capitalize(b)
  {
    CapitalizeMeaning(a);
    CapitalizeMeaning(b);
    if a != [] {
      assert LowerChar(a[0]) == LowerChar(b[0]) by { assert Lower(a)[0] == Lower(b)[0]; }
      CaseMapping(a[0]);
      CaseMapping(b[0]);
    }
    forall i | 0 < i < |a| ensures LowerChar(a[i]) == LowerChar(b[i]) {
      assert Lower(a)[i] == Lower(b)[i];
    }
  }

  /** `p` occurs in `s` starting at index `i`. */
  ghost predicate OccursAt(p: string, s: string, i: nat)
  {
    i + |p| <= |s| && s[i..i + |p|] == p
  }

  predicate IsPrefix(p: string, s: string)
  {
    |p| <= |s| && s[..|p|] == p
  }

  /** Python's `p in s` for strings, scanning `s` from the left. */
  function Contains(p: string, s: string): bool
  {
    IsPrefix(p, s) || (s != [] && Contains(p, s[1..]))
  }

  /** `p in s` holds exactly when `p` occurs in `s` at some index. */
  lemma {:induction false} ContainsMeaning(p: string, s: string)
    ensures Contains(p, s) <==> exists i: nat :: i <= |s| && OccursAt(p, s, i)
  {
    if IsPrefix(p, s) {
      assert OccursAt(p, s, 0);
    } else if s != [] {
      ContainsMeaning(p, s[1..]);
      forall i: nat ensures OccursAt(p, s[1..], i) <==> OccursAt(p, s, i + 1) {
        if i + |p| <= |s[1..]| {
          assert s[1..][i..i + |p|] == s[i + 1..i + 1 + |p|];
        }
      }
      if Contains(p, s[1..]) {
        var i: nat :| i <= |s[1..]| && OccursAt(p, s[1..], i);
        assert OccursAt(p, s, i + 1);
      }
      if exists i: nat :: i <= |s| && OccursAt(p, s, i) {
        var i: nat :| i <= |s| && OccursAt(p, s, i);
        assert i != 0;
        assert OccursAt(p, s[1..], i - 1);
      }
    }
  }

  /** A string longer than `s` is never found in it. */
  lemma {:induction false} TooShortNeverContains(p: string, s: string)
    requires |p| > |s|
    ensures !Contains(p, s)
  {
    if s != [] { TooShortNeverContains(p, s[1..]); }
  }

  /** A string whose first character does not occur in `s` is never found in it. */
  lemma {:induction false} FirstCharAbsentNeverContains(p: string, s: string)
    requires |p| > 0 && p[0] !in s
    ensures !Contains(p, s)
  {
    if s != [] {
      assert s[0] != p[0];
      assert s[1..] <= s[1..] && forall k :: 0 <= k < |s[1..]| ==> s[1..][k] == s[k + 1];
      FirstCharAbsentNeverContains(p, s[1..]);
    }
  }

  /** Python's `sep.join(xs)`. */
  function Join(sep: string, xs: seq<string>): string
  {
    if |xs| == 0 then ""
    else if |xs| == 1 then xs[0]
    else xs[0] + sep + Join(sep, xs[1..])
  }

  /** Python's `s.split(c)` for a one-character separator: never an empty list. */
  function Split(s: string, c: char): (r: seq<string>)
    ensures |r| >= 1
    ensures forall k :: 0 <= k < |r| ==> c !in r[k]
  {
    if s == [] then [[]]
    else
      var t := Split(s[1..], c);
      if s[0] == c then [[]] + t
      else [[s[0]] + t[0]] + t[1..]
  }

  /** A piece without the separator glues onto the first piece of what follows. */
  lemma {:induction false} SplitPrefix(a: string, rest: string, c: char)
    requires c !in a
    ensures Split(a + rest, c) == [a + Split(rest, c)[0]] + Split(rest, c)[1..]
  {
    var u := Split(rest, c);
    if a == [] {
      assert a + rest == rest && a + u[0] == u[0];
      assert [u[0]] + u[1..] == u;
    } else {
      assert (a + rest)[0] == a[0] && (a + rest)[1..] == a[1..] + rest;
      SplitPrefix(a[1..], rest, c);
      var t := Split(a[1..] + rest, c);
      assert t[0] == a[1..] + u[0] && t[1..] == u[1..];
      assert [a[0]] + (a[1..] + u[0]) == a + u[0];
    }
  }

  /** Splitting what `join` produced gives back the pieces, when none contains the separator. */
  lemma {:induction false} SplitJoin(xs: seq<string>, c: char)
    requires |xs| >= 1
    requires forall k :: 0 <= k < |xs| ==> c !in xs[k]
    ensures Split(Join([c], xs), c) == xs
  {
    if |xs| == 1 {
      SplitPrefix(xs[0], [], c);
      assert xs[0] + [] == xs[0];
    } else {
      var tail := Join([c], xs[1..]);
      SplitJoin(xs[1..], c);
      assert Join([c], xs) == xs[0] + ([c] + tail);
      SplitPrefix(xs[0], [c] + tail, c);
      assert ([c] + tail)[1..] == tail;
      assert Split([c] + tail, c) == [[]] + xs[1..];
      assert xs[0] + [] == xs[0];
    }
  }

  function DigitChar(d: nat): char
    requires d < 10
  {
    ('0' as int + d) as char
  }

  predicate IsDigit(c: char) { '0' <= c <= '9' }

  function DigitValue(c: char): nat
    requires IsDigit(c)
  {
    c as int - '0' as int
  }

  /** Value of a string of decimal digits (the inverse of NatToString). */
  function DigitsValue(s: string): nat
    requires forall k :: 0 <= k < |s| ==> IsDigit(s[k])
  {
    if s == [] then 0
    else 10 * DigitsValue(s[..|s| - 1]) + DigitValue(s[|s| - 1])
  }

  /** `str(n)` (or `f"{n}"`) for a non-negative integer: canonical decimal digits. */
  function NatToString(n: nat): (r: string)
    ensures |r| >= 1
    ensures forall k :: 0 <= k < |r| ==> IsDigit(r[k])
    ensures r[0] == '0' ==> n == 0
  {
    if n < 10 then [DigitChar(n)] else NatToString(n / 10) + [DigitChar(n % 10)]
  }

  /** Reading the digits back gives the number: the rendered counts are exact. */
  lemma {:induction false} NatToStringRoundTrip(n: nat)
    ensures DigitsValue(NatToString(n)) == n
  {
    var r := NatToString(n);
    if n >= 10 {
      NatToStringRoundTrip(n / 10);
      assert r[..|r| - 1] == NatToString(n / 10);
    }
  }

  /** Different numbers render differently. */
  lemma NatToStringInjective(m: nat, n: nat)
    requires NatToString(m) == NatToString(n)
    ensures m == n
  {
    NatToStringRoundTrip(m);
    NatToStringRoundTrip(n);
  }
}
