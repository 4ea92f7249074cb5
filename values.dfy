/**
 The values a decoded record holds, and the three operations on them that the
 predicates of LoadUtils.py rely on: Python's `==` (datatype equality here),
 Python's `<` between two values of the same kind, and `str.lower()` followed
 by the substring test `needle in haystack`.
 */
module Values {

  /** One JSON value of a record field. JSON integers and floats are one kind,
      `Num`, because Python compares an int with a float by exact value. */
  datatype Value =
    | Num(x: real)
    | Str(s: string)
    | Bool(b: bool)
    | Null

  /** One decoded line: a JSON object, keys to values. */
  type Record = map<string, Value>

  // ---------------------------------------------------------------------------
  // str.lower(), restricted to ASCII letters

  predicate IsUpper(c: char) {
    'A' <= c <= 'Z'
  }

  function LowerChar(c: char): char {
    if IsUpper(c) then (c as int + 32) as char else c
  }

  /** `s.lower()`: every upper-case letter becomes its lower-case letter and
      every other character stays. */
  function Lower(s: string): (r: string)
    ensures |r| == |s|
    ensures forall i :: 0 <= i < |r| ==> !IsUpper(r[i])
    ensures forall i :: 0 <= i < |r| ==>
      if IsUpper(s[i]) then r[i] as int == s[i] as int + 32 else r[i] == s[i]
  {
    seq(|s|, i requires 0 <= i < |s| => LowerChar(s[i]))
  }

  /** Lower-casing twice is lower-casing once. */
  lemma LowerIdempotent(s: string)
    ensures Lower(Lower(s)) == Lower(s)
  {
  }

  /** Strings that differ only in the case of their letters lower-case alike. */
  lemma LowerIgnoresCase(s: string, t: string)
    requires |s| == |t|
    requires forall i :: 0 <= i < |s| ==> s[i] == t[i] || LowerChar(s[i]) == t[i] || s[i] == LowerChar(t[i])
    ensures Lower(s) == Lower(t)
  {
  }

  // ---------------------------------------------------------------------------
  // Python's `needle in haystack` on two strings

  /** `n` occurs in `h` starting at position `i`. */
  predicate OccursAt(h: string, n: string, i: int) {
    0 <= i <= |h| - |n| && h[i..i + |n|] == n
  }

  /** Python's `n in h`: scans `h` from the left for an occurrence of `n`. */
  function Contains(h: string, n: string): (r: bool)
    ensures |n| == 0 ==> r
    ensures r ==> |n| <= |h|
    decreases |h|
  {
    if n <= h then true
    else if |h| == 0 then false
    else Contains(h[1..], n)
  }

  /** When the scan succeeds there is an occurrence. */
  lemma {:induction false} ContainsSound(h: string, n: string)
    requires Contains(h, n)
    ensures exists i :: OccursAt(h, n, i)
    decreases |h|
  {
    if n <= h {
      assert OccursAt(h, n, 0);
    } else {
      ContainsSound(h[1..], n);
      var j :| OccursAt(h[1..], n, j);
      assert h[j + 1..j + 1 + |n|] == h[1..][j..j + |n|];
      assert OccursAt(h, n, j + 1);
    }
  }

  /** Every occurrence is found by the scan. */
  lemma {:induction false} ContainsComplete(h: string, n: string, i: int)
    requires OccursAt(h, n, i)
    ensures Contains(h, n)
    decreases |h|
  {
    if i > 0 && !(n <= h) {
      assert h[1..][i - 1..i - 1 + |n|] == h[i..i + |n|];
      ContainsComplete(h[1..], n, i - 1);
    }
  }

  /** The substring test finds an occurrence exactly when there is one. */
  lemma ContainsIff(h: string, n: string)
    ensures Contains(h, n) <==> exists i :: OccursAt(h, n, i)
  {
    if Contains(h, n) {
      ContainsSound(h, n);
    }
    forall i | OccursAt(h, n, i)
      ensures Contains(h, n)
    {
      ContainsComplete(h, n, i);
    }
  }

  // ---------------------------------------------------------------------------
  // Python's `<` on values

  /** Lexicographic order by code point, as Python compares two `str`s: a proper
      prefix is smaller. */
  function StrLess(a: string, b: string): bool
    decreases |a|
  {
    if |b| == 0 then false
    else if |a| == 0 then true
    else if a[0] != b[0] then a[0] < b[0]
    else StrLess(a[1..], b[1..])
  }

  /** A proper prefix is smaller. */
  lemma {:induction false} StrLessPrefix(a: string, b: string)
    requires |b| > 0
    ensures StrLess(a, a + b)
    decreases |a|
  {
    if |a| > 0 {
      assert (a + b)[1..] == a[1..] + b;
      StrLessPrefix(a[1..], b);
    }
  }

  /** After a common prefix of length `k`, the first differing character
      decides: code-point order, not length. */
  lemma {:induction false} StrLessFirstDifference(a: string, b: string, k: nat)
    requires k < |a| && k < |b| && a[..k] == b[..k] && a[k] != b[k]
    ensures StrLess(a, b) <==> a[k] < b[k]
    decreases k
  {
    if k > 0 {
      assert a[0] == a[..k][0] && b[0] == b[..k][0];
      assert a[1..][..k - 1] == a[..k][1..] && b[1..][..k - 1] == b[..k][1..];
      StrLessFirstDifference(a[1..], b[1..], k - 1);
    }
  }

  /** `a < b` and `a > b` are defined between two numbers, two strings or two
      booleans; the model raises on any other pair (Python also orders a
      boolean against a number, which this model leaves out). */
  predicate Comparable(a: Value, b: Value) {
    (a.Num? && b.Num?) || (a.Str? && b.Str?) || (a.Bool? && b.Bool?)
  }

  /** Python's `a < b` on two comparable values (False < True for booleans). */
  function Less(a: Value, b: Value): bool
    requires Comparable(a, b)
  {
    match a
    case Num(x) => x < b.x
    case Str(s) => StrLess(s, b.s)
    case Bool(p) => !p && b.b
  }

  /** No string is less than itself. */
  lemma {:induction false} StrLessIrreflexive(a: string)
    ensures !StrLess(a, a)
    decreases |a|
  {
    if |a| > 0 {
      StrLessIrreflexive(a[1..]);
    }
  }

  /** Exactly one of `a < b`, `a == b`, `b < a` holds for two strings. */
  lemma {:induction false} StrLessTrichotomy(a: string, b: string)
    ensures StrLess(a, b) || a == b || StrLess(b, a)
    ensures !(StrLess(a, b) && StrLess(b, a))
    ensures a == b ==> !StrLess(a, b)
    decreases |a|
  {
    StrLessIrreflexive(a);
    if |a| > 0 && |b| > 0 {
      StrLessTrichotomy(a[1..], b[1..]);
      if a[0] == b[0] && a[1..] == b[1..] {
        assert a == [a[0]] + a[1..] && b == [b[0]] + b[1..];
      }
    }
  }

  /** String order is transitive. */
  lemma {:induction false} StrLessTransitive(a: string, b: string, c: string)
    requires StrLess(a, b) && StrLess(b, c)
    ensures StrLess(a, c)
    decreases |a|
  {
    if |a| > 0 && a[0] == b[0] && b[0] == c[0] {
      StrLessTransitive(a[1..], b[1..], c[1..]);
    }
  }

  /** On comparable values `<` is a strict total order. */
  lemma LessIsStrictTotalOrder(a: Value, b: Value)
    requires Comparable(a, b)
    ensures Less(a, b) || a == b || Less(b, a)
    ensures !(Less(a, b) && Less(b, a))
  {
    if a.Str? {
      StrLessTrichotomy(a.s, b.s);
    }
  }

  /** `<` is transitive on comparable values: with totality and asymmetry it is
      a strict total order on each kind. */
  lemma LessTransitive(a: Value, b: Value, c: Value)
    requires Comparable(a, b) && Comparable(b, c)
    requires Less(a, b) && Less(b, c)
    ensures Comparable(a, c) && Less(a, c)
  {
    if a.Str? {
      StrLessTransitive(a.s, b.s, c.s);
    }
  }
}
