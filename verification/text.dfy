/** String helpers with JavaScript meaning: `String.prototype.includes`,
    the `<`/`>` comparison of strings, `Number.prototype.toString` for
    non-negative integers and `String.prototype.padStart`. */
module Text {

  /** `s.includes(sub)`: `sub` occurs in `s` at some position. */
  predicate Contains(s: string, sub: string) {
    exists i :: 0 <= i <= |s| && OccursAt(s, sub, i)
  }

  /** `sub` occurs in `s` starting at index `i`. */
  predicate OccursAt(s: string, sub: string, i: int) {
    0 <= i <= |s| - |sub| && s[i..i + |sub|] == sub
  }

  lemma ContainsInfix(a: string, sub: string, b: string)
    ensures Contains(a + sub + b, sub)
  {
    var s := a + sub + b;
    assert OccursAt(s, sub, |a|);
  }

  lemma ContainsInside(a: string, sub: string, b: string)
    ensures Contains(a + (sub + b), sub)
  {
    var s := a + (sub + b);
    assert s[|a|..|a| + |sub|] == sub;
    assert OccursAt(s, sub, |a|);
  }

  lemma ContainsStart(p: string, b: string)
    ensures Contains(p + b, p)
  {
    assert (p + b)[..|p|] == p;
    assert OccursAt(p + b, p, 0);
  }

  /** Appending to a string keeps what it contains. */
  lemma ContainsExtend(s: string, sub: string, b: string)
    requires Contains(s, sub)
    ensures Contains(s + b, sub)
  {
    var i :| 0 <= i <= |s| && OccursAt(s, sub, i);
    assert (s + b)[i..i + |sub|] == s[i..i + |sub|];
    assert OccursAt(s + b, sub, i);
  }

  /** JavaScript's `a < b` on strings: lexicographic comparison of the
      characters, a proper prefix being smaller. */
  predicate LexLess(a: string, b: string) {
    if |a| == 0 then |b| > 0
    else if |b| == 0 then false
    else a[0] < b[0] || (a[0] == b[0] && LexLess(a[1..], b[1..]))
  }

  lemma {:induction false} LexLessIrreflexive(a: string)
    ensures !LexLess(a, a)
    decreases |a|
  {
    if |a| > 0 {
      LexLessIrreflexive(a[1..]);
    }
  }

  lemma {:induction false} LexLessTransitive(a: string, b: string, c: string)
    requires LexLess(a, b) && LexLess(b, c)
    ensures LexLess(a, c)
    decreases |a|
  {
    if |a| > 0 && |b| > 0 && |c| > 0 && a[0] == b[0] && b[0] == c[0] {
      LexLessTransitive(a[1..], b[1..], c[1..]);
    }
  }

  lemma {:induction false} LexLessTotal(a: string, b: string)
    requires a != b
    ensures LexLess(a, b) || LexLess(b, a)
    decreases |a|
  {
    if |a| > 0 && |b| > 0 && a[0] == b[0] {
      assert a == [a[0]] + a[1..] && b == [b[0]] + b[1..];
      LexLessTotal(a[1..], b[1..]);
    }
  }

  /** A common prefix does not change the order of two strings. */
  lemma {:induction false} LexLessCommonPrefix(p: string, a: string, b: string)
    ensures LexLess(p + a, p + b) <==> LexLess(a, b)
    decreases |p|
  {
    if |p| == 0 {
      assert p + a == a && p + b == b;
    } else {
      assert (p + a)[1..] == p[1..] + a && (p + b)[1..] == p[1..] + b;
      LexLessCommonPrefix(p[1..], a, b);
    }
  }

  /** Neither does a common suffix of two strings of the same length. */
  lemma {:induction false} LexLessCommonSuffix(a: string, b: string, s: string)
    requires |a| == |b|
    ensures LexLess(a + s, b + s) <==> LexLess(a, b)
    decreases |a|
  {
    if |a| == 0 {
      assert a + s == s && b + s == s;
      LexLessIrreflexive(s);
    } else {
      assert (a + s)[1..] == a[1..] + s && (b + s)[1..] == b[1..] + s;
      LexLessCommonSuffix(a[1..], b[1..], s);
    }
  }

  /** The decimal digit characters for `0 <= d < 10`. */
  function Digit(d: nat): char
    requires d < 10
  {
    "0123456789"[d]
  }

  /** `n.toString()` for a non-negative integer: its decimal digits without
      leading zeros. */
  function NatToString(n: nat): (s: string)
    ensures |s| >= 1
    ensures forall i :: 0 <= i < |s| ==> '0' <= s[i] <= '9'
    ensures |s| > 1 ==> s[0] != '0'
  {
    if n < 10 then [Digit(n)] else NatToString(n / 10) + [Digit(n % 10)]
  }

  /** The value of a string of decimal digits. */
  function DecimalValue(s: string): int
  {
    if |s| == 0 then 0 else 10 * DecimalValue(s[..|s| - 1]) + (s[|s| - 1] as int - '0' as int)
  }

  /** Reading the digits back gives the number: `toString` loses nothing. */
  lemma {:induction false} NatToStringRoundTrip(n: nat)
    ensures DecimalValue(NatToString(n)) == n
  {
    var s := NatToString(n);
    if n >= 10 {
      NatToStringRoundTrip(n / 10);
      assert s[..|s| - 1] == NatToString(n / 10);
    }
  }

  /** `s.padStart(width, c)` for a one-character pad string. */
  function PadStart(s: string, width: nat, c: char): (r: string)
    ensures |r| == if |s| >= width then |s| else width
    ensures r[|r| - |s|..] == s
    ensures forall i :: 0 <= i < |r| - |s| ==> r[i] == c
  {
    if |s| >= width then s else seq(width - |s|, _ => c) + s
  }
}
