/** Strings as the source uses them: ordered by sort.Strings, and built from decimal numbers. */
module Strings {

  ghost predicate Distinct(s: seq<string>) {
    forall i, j :: 0 <= i < j < |s| ==> s[i] != s[j]
  }

  function Elems(s: seq<string>): set<string> {
    set x | x in s
  }

  /** Lexicographic order. */
  predicate StrLe(a: string, b: string) {
    a == [] || (b != [] && (a[0] < b[0] || (a[0] == b[0] && StrLe(a[1..], b[1..]))))
  }

  /** `a` is `b`, a prefix of it, or smaller at the first character in which they differ. */
  ghost predicate AtOrBefore(a: string, b: string) {
    a <= b || exists k: nat :: SmallerAt(a, b, k)
  }

  ghost predicate Ascending(s: seq<string>) {
    forall i, j :: 0 <= i < j < |s| ==> AtOrBefore(s[i], s[j])
  }

  ghost predicate SmallerAt(a: string, b: string, k: nat) {
    k < |a| && k < |b| && a[..k] == b[..k] && a[k] < b[k]
  }

  /** The order is the lexicographic one. */
  lemma {:induction false} StrLeMeaning(a: string, b: string)
    ensures StrLe(a, b) <==> AtOrBefore(a, b)
  {
    if a != [] && b != [] {
      if a[0] == b[0] {
        StrLeMeaning(a[1..], b[1..]);
        SameStart(a, b);
      } else {
        assert SmallerAt(a, b, 0) <==> a[0] < b[0];
        forall k: nat | SmallerAt(a, b, k) ensures k == 0 {
          SmallerStart(a, b, k);
        }
      }
    }
  }

  lemma SmallerStart(a: string, b: string, k: nat)
    requires SmallerAt(a, b, k)
    ensures k == 0 || a[0] == b[0]
  {
    if k > 0 {
      assert a[..k][0] == b[..k][0];
    }
  }

  lemma SameStart(a: string, b: string)
    requires a != [] && b != [] && a[0] == b[0]
    ensures AtOrBefore(a, b) <==> AtOrBefore(a[1..], b[1..])
  {
    assert a == [a[0]] + a[1..] && b == [b[0]] + b[1..];
    assert a <= b <==> a[1..] <= b[1..];
    forall k: nat | SmallerAt(a, b, k) ensures k > 0 && SmallerAt(a[1..], b[1..], k - 1) {
      assert k > 0;
      assert a[1..][..k - 1] == a[..k][1..] && b[1..][..k - 1] == b[..k][1..];
    }
    forall k: nat | SmallerAt(a[1..], b[1..], k) ensures SmallerAt(a, b, k + 1) {
      assert a[..k + 1] == [a[0]] + a[1..][..k] && b[..k + 1] == [b[0]] + b[1..][..k];
    }
  }

  lemma {:induction false} StrLeTotal(a: string, b: string)
    ensures StrLe(a, b) || StrLe(b, a)
    ensures StrLe(a, b) && StrLe(b, a) ==> a == b
  {
    if a != [] && b != [] && a[0] == b[0] {
      StrLeTotal(a[1..], b[1..]);
      assert a == [a[0]] + a[1..] && b == [b[0]] + b[1..];
    }
  }

  lemma {:induction false} StrLeTransitive(a: string, b: string, c: string)
    requires StrLe(a, b) && StrLe(b, c)
    ensures StrLe(a, c)
  {
    if a != [] && a[0] == b[0] && b[0] == c[0] {
      StrLeTransitive(a[1..], b[1..], c[1..]);
    }
  }

  ghost predicate IsLeast(s: set<string>, m: string) {
    m in s && forall x :: x in s ==> StrLe(m, x)
  }

  lemma {:induction false} LeastExists(s: set<string>)
    requires s != {}
    ensures exists m :: IsLeast(s, m)
    decreases |s|
  {
    var x :| x in s;
    StrLeTotal(x, x);
    if s == {x} {
      assert IsLeast(s, x);
    } else {
      var rest := s - {x};
      assert s == rest + {x};
      LeastExists(rest);
      var m :| IsLeast(rest, m);
      StrLeTotal(m, x);
      if StrLe(m, x) {
        assert IsLeast(s, m);
      } else {
        forall y | y in s ensures StrLe(x, y) {
          if y in rest {
            StrLeTransitive(x, m, y);
          }
        }
        assert IsLeast(s, x);
      }
    }
  }

  ghost function TheLeast(s: set<string>): (m: string)
    requires s != {}
    ensures IsLeast(s, m)
  {
    LeastExists(s);
    var m :| IsLeast(s, m);
    m
  }

  /** The elements of a set in lexicographic order. */
  ghost function Sorted(s: set<string>): seq<string>
    decreases |s|
  {
    if s == {} then [] else [TheLeast(s)] + Sorted(s - {TheLeast(s)})
  }

  lemma {:induction false} SortedSpec(s: set<string>)
    ensures Elems(Sorted(s)) == s && Distinct(Sorted(s))
    decreases |s|
  {
    if s != {} {
      var m := TheLeast(s);
      var rest := Sorted(s - {m});
      SortedSpec(s - {m});
      assert m !in rest by { assert m !in Elems(rest); }
      assert Elems([m] + rest) == {m} + Elems(rest);
    }
  }

  lemma {:induction false} SortedIsOrdered(s: set<string>)
    ensures forall i, j :: 0 <= i < j < |Sorted(s)| ==> StrLe(Sorted(s)[i], Sorted(s)[j])
    decreases |s|
  {
    if s != {} {
      var m := TheLeast(s);
      var rest := Sorted(s - {m});
      SortedIsOrdered(s - {m});
      SortedSpec(s - {m});
      forall j | 0 <= j < |rest| ensures StrLe(m, rest[j]) {
        assert rest[j] in Elems(rest);
      }
    }
  }

  method Least(s: set<string>) returns (m: string)
    requires s != {}
    ensures IsLeast(s, m)
  {
    LeastExists(s);
    m :| m in s && forall x :: x in s ==> StrLe(m, x);
  }

  /** sort.Strings on a list without duplicates, by selection. */
  method SortStrings(xs: seq<string>) returns (r: seq<string>)
    requires Distinct(xs)
    ensures r == Sorted(Elems(xs))
    ensures Elems(r) == Elems(xs) && Distinct(r)
    ensures Ascending(r)
  {
    var left := Elems(xs);
    ghost var goal := Sorted(left);
    r := [];
    while left != {}
      invariant r + Sorted(left) == goal
      decreases left
    {
      var m := Least(left);
      SortedUnfolds(left, m);
      assert r + ([m] + Sorted(left - {m})) == (r + [m]) + Sorted(left - {m});
      r := r + [m];
      left := left - {m};
    }
    assert r == goal;
    SortedSpec(Elems(xs));
    SortedIsOrdered(Elems(xs));
    forall i, j | 0 <= i < j < |r| ensures AtOrBefore(r[i], r[j]) {
      StrLeMeaning(r[i], r[j]);
    }
  }

  lemma SortedUnfolds(s: set<string>, m: string)
    requires IsLeast(s, m)
    ensures Sorted(s) == [m] + Sorted(s - {m})
  {
    StrLeTotal(TheLeast(s), m);
  }

  // ----- Decimal numbers -----

  const DIGITS: string := "0123456789"

  /** The decimal form of a number, as %d prints it. */
  function Decimal(n: nat): (s: string)
    ensures |s| >= 1
    ensures forall i :: 0 <= i < |s| ==> s[i] in DIGITS
  {
    if n < 10 then [DIGITS[n]] else Decimal(n / 10) + [DIGITS[n % 10]]
  }

  lemma DigitInjective(i: nat, j: nat)
    requires i < 10 && j < 10
    ensures DIGITS[i] == DIGITS[j] ==> i == j
  {
  }

  lemma LastDigit(n: nat)
    ensures var s := Decimal(n);
            && s[|s| - 1] == DIGITS[n % 10]
            && (if n < 10 then |s| == 1 else |s| > 1 && s[..|s| - 1] == Decimal(n / 10))
  {
  }

  lemma {:induction false} DecimalInjective(a: nat, b: nat)
    requires Decimal(a) == Decimal(b)
    ensures a == b
    decreases a
  {
    LastDigit(a);
    LastDigit(b);
    DigitInjective(a % 10, b % 10);
    if a >= 10 && b >= 10 {
      DecimalInjective(a / 10, b / 10);
    }
  }

  ghost predicate AreDigits(s: string) {
    forall i :: 0 <= i < |s| ==> '0' <= s[i] <= '9'
  }

  /** The number a string of digits stands for. */
  ghost function ValueOf(s: string): int {
    if s == [] then 0 else 10 * ValueOf(s[..|s| - 1]) + (s[|s| - 1] as int - '0' as int)
  }

  lemma OneMoreDigit(s: string, d: nat)
    requires d < 10 && AreDigits(s)
    ensures AreDigits(s + [DIGITS[d]]) && ValueOf(s + [DIGITS[d]]) == 10 * ValueOf(s) + d
  {
    assert (s + [DIGITS[d]])[..|s|] == s;
    assert '0' <= DIGITS[d] <= '9' && DIGITS[d] as int - '0' as int == d;
  }

  /** The decimal form reads back as the number and has no leading zero. */
  lemma {:induction false} DecimalMeaning(n: nat)
    ensures AreDigits(Decimal(n)) && ValueOf(Decimal(n)) == n
    ensures n >= 1 ==> Decimal(n)[0] != '0'
    ensures n == 0 ==> Decimal(n) == "0"
  {
    if n >= 10 {
      DecimalMeaning(n / 10);
      OneMoreDigit(Decimal(n / 10), n % 10);
    } else {
      OneMoreDigit([], n);
      assert [] + [DIGITS[n]] == Decimal(n);
    }
  }
}
