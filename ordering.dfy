/** The order in which the model enumerates a directory and in which it sorts
    message ids: shortlex (shorter strings first, equal lengths compared
    character by character). On canonical decimal ids, the only ids the
    mail server writes, shortlex order is numeric order, which is how PHP's
    `ksort` orders integer-like array keys. */
module Ordering {
  import opened Text

  /** Lexicographic order on two strings of the same length. */
  predicate LexLess(a: string, b: string)
    requires |a| == |b|
    decreases |a|
  {
    a != [] && (a[0] < b[0] || (a[0] == b[0] && LexLess(a[1..], b[1..])))
  }

  /** Shortlex order. */
  predicate Less(a: string, b: string) {
    |a| < |b| || (|a| == |b| && LexLess(a, b))
  }

  lemma {:induction false} LexIrreflexive(a: string)
    ensures !LexLess(a, a)
    decreases |a|
  {
    if a != [] {
      LexIrreflexive(a[1..]);
    }
  }

  lemma {:induction false} LexTransitive(a: string, b: string, c: string)
    requires |a| == |b| == |c|
    requires LexLess(a, b) && LexLess(b, c)
    ensures LexLess(a, c)
    decreases |a|
  {
    if a[0] == b[0] && b[0] == c[0] {
      LexTransitive(a[1..], b[1..], c[1..]);
    }
  }

  lemma {:induction false} LexTotal(a: string, b: string)
    requires |a| == |b|
    ensures a == b || LexLess(a, b) || LexLess(b, a)
    decreases |a|
  {
    if a != [] && a[0] == b[0] {
      LexTotal(a[1..], b[1..]);
      if a[1..] == b[1..] {
        assert a == [a[0]] + a[1..] && b == [b[0]] + b[1..];
      }
    }
  }

  lemma {:induction false} LexAsymmetric(a: string, b: string)
    requires |a| == |b|
    ensures !(LexLess(a, b) && LexLess(b, a))
  {
    if LexLess(a, b) && LexLess(b, a) {
      LexTransitive(a, b, a);
      LexIrreflexive(a);
    }
  }

  /** Shortlex is a strict total order. */
  lemma LessIsStrictTotalOrder()
    ensures forall a :: !Less(a, a)
    ensures forall a, b :: Less(a, b) ==> !Less(b, a)
    ensures forall a, b, c :: Less(a, b) && Less(b, c) ==> Less(a, c)
    ensures forall a, b :: a == b || Less(a, b) || Less(b, a)
  {
    forall a {
      LexIrreflexive(a);
    }
    forall a, b | Less(a, b)
      ensures !Less(b, a)
    {
      if |a| == |b| {
        LexAsymmetric(a, b);
      }
    }
    forall a, b, c | Less(a, b) && Less(b, c)
      ensures Less(a, c)
    {
      if |a| == |b| == |c| {
        LexTransitive(a, b, c);
      }
    }
    forall a, b
      ensures a == b || Less(a, b) || Less(b, a)
    {
      if |a| == |b| {
        LexTotal(a, b);
      }
    }
  }

  /** `m` is the least element of `s`. */
  predicate IsLeast(m: string, s: set<string>) {
    m in s && forall x :: x in s && x != m ==> Less(m, x)
  }

  lemma {:induction false} LeastExists(s: set<string>)
    requires s != {}
    ensures exists m :: IsLeast(m, s)
    decreases |s|
  {
    var y :| y in s;
    if s != {y} {
      LeastExists(s - {y});
      var m :| IsLeast(m, s - {y});
      LessIsStrictTotalOrder();
      if Less(m, y) {
        assert IsLeast(m, s);
      } else {
        assert IsLeast(y, s);
      }
    } else {
      assert IsLeast(y, s);
    }
  }

  lemma LeastUnique(s: set<string>, m: string, n: string)
    requires IsLeast(m, s) && IsLeast(n, s)
    ensures m == n
  {
    LessIsStrictTotalOrder();
  }

  /** The least element of a non-empty set. */
  function Least(s: set<string>): (m: string)
    requires s != {}
    ensures IsLeast(m, s)
  {
    LeastExists(s);
    LessIsStrictTotalOrder();
    var m :| IsLeast(m, s);
    m
  }

  /** Strictly increasing in shortlex order. */
  predicate Increasing(r: seq<string>) {
    forall i, j :: 0 <= i < j < |r| ==> Less(r[i], r[j])
  }

  /** The elements of a finite set of strings, in increasing order. */
  function SortedElements(s: set<string>): (r: seq<string>)
    ensures Increasing(r)
    ensures |r| == |s|
    ensures forall x :: x in s <==> x in r
    decreases |s|
  {
    if s == {} then []
    else
      var m := Least(s);
      var rest := SortedElements(s - {m});
      assert forall i :: 0 <= i < |rest| ==> Less(m, rest[i]) by {
        forall i | 0 <= i < |rest|
          ensures Less(m, rest[i])
        {
          assert rest[i] in s - {m};
        }
      }
      [m] + rest
  }

  /** Canonical decimal: digits only, no leading zero unless it is "0". */
  predicate Canonical(s: string) {
    AllDigits(s) && (|s| == 1 || s[0] != '0')
  }

  function Pow10(n: nat): (p: nat)
    ensures p >= 1
  {
    if n == 0 then 1 else 10 * Pow10(n - 1)
  }

  lemma {:induction false} DigitsValueBound(s: string)
    requires forall i :: 0 <= i < |s| ==> IsDigit(s[i])
    ensures DigitsValue(s) < Pow10(|s|)
    decreases |s|
  {
    if s != [] {
      DigitsValueBound(s[..|s| - 1]);
    }
  }

  lemma ShiftDigit(d: int, p: int, x: int, l: int)
    ensures (d * p + x) * 10 + l == d * (10 * p) + (x * 10 + l)
  {
  }

  lemma {:induction false} MulMonotone(a: int, b: int, p: nat)
    requires a <= b
    ensures a * p <= b * p
    decreases b - a
  {
    if a < b {
      MulMonotone(a + 1, b, p);
      assert (a + 1) * p == a * p + p;
    }
  }

  /** Comparing two numbers written as a leading digit of weight `p` followed
      by a remainder below `p`. */
  lemma WeightedCompare(da: int, db: int, p: nat, x: int, y: int)
    requires 0 <= x < p && 0 <= y < p
    ensures da * p + x < db * p + y <==> (da < db || (da == db && x < y))
  {
    if da < db {
      MulMonotone(da + 1, db, p);
      assert (da + 1) * p == da * p + p;
    } else if db < da {
      MulMonotone(db + 1, da, p);
      assert (db + 1) * p == db * p + p;
    }
  }

  /** The leading digit's weight, reading the value from the left. */
  lemma {:induction false} DigitsValueHead(s: string)
    requires s != [] && forall i :: 0 <= i < |s| ==> IsDigit(s[i])
    ensures DigitsValue(s) == (s[0] as int - '0' as int) * Pow10(|s| - 1) + DigitsValue(s[1..])
    decreases |s|
  {
    if |s| == 1 {
      assert s[..0] == [] && s[1..] == [];
    } else {
      var init := s[..|s| - 1];
      DigitsValueHead(init);
      assert init[0] == s[0];
      assert s[1..][..|s| - 2] == init[1..];
      var d0 := s[0] as int - '0' as int;
      var x := DigitsValue(init[1..]);
      var l := s[|s| - 1] as int - '0' as int;
      var p := Pow10(|s| - 2);
      assert DigitsValue(s) == DigitsValue(init) * 10 + l;
      assert DigitsValue(init) == d0 * p + x;
      assert DigitsValue(s[1..]) == x * 10 + l;
      ShiftDigit(d0, p, x, l);
    }
  }

  lemma {:induction false} LexMatchesValue(a: string, b: string)
    requires |a| == |b|
    requires forall i :: 0 <= i < |a| ==> IsDigit(a[i])
    requires forall i :: 0 <= i < |b| ==> IsDigit(b[i])
    ensures LexLess(a, b) <==> DigitsValue(a) < DigitsValue(b)
    decreases |a|
  {
    if a != [] {
      DigitsValueHead(a);
      DigitsValueHead(b);
      DigitsValueBound(a[1..]);
      DigitsValueBound(b[1..]);
      LexMatchesValue(a[1..], b[1..]);
      WeightedCompare(a[0] as int - '0' as int, b[0] as int - '0' as int, Pow10(|a| - 1),
        DigitsValue(a[1..]), DigitsValue(b[1..]));
    }
  }

  /** A canonical number with more digits is the larger one. */
  lemma LongerIsLarger(a: string, b: string)
    requires Canonical(a) && Canonical(b) && |a| < |b|
    ensures DigitsValue(a) < DigitsValue(b)
  {
    DigitsValueBound(a);
    DigitsValueHead(b);
    Pow10Monotone(|a|, |b| - 1);
    var d := b[0] as int - '0' as int;
    MulMonotone(1, d, Pow10(|b| - 1));
  }

  /** On canonical decimal strings shortlex order is numeric order, so
      sorting ids in shortlex order is sorting them as integers. */
  lemma CanonicalOrderIsNumeric(a: string, b: string)
    requires Canonical(a) && Canonical(b)
    ensures Less(a, b) <==> DigitsValue(a) < DigitsValue(b)
  {
    if |a| < |b| {
      LongerIsLarger(a, b);
    } else if |b| < |a| {
      LongerIsLarger(b, a);
    } else {
      LexMatchesValue(a, b);
    }
  }

  lemma {:induction false} Pow10Monotone(m: nat, n: nat)
    requires m <= n
    ensures Pow10(m) <= Pow10(n)
    decreases n
  {
    if m < n {
      Pow10Monotone(m, n - 1);
    }
  }
}
