/**
 * String helpers shared by the browser scripts and servers: decimal
 * rendering of integers (`Number.prototype.toString`), `padStart`, string
 * comparison as JavaScript's `<` does it, and `String.prototype.trim`.
 */
module Text {
  import opened Wrappers

  predicate IsDigit(c: char) {
    '0' <= c <= '9'
  }

  predicate AllDigits(s: string) {
    forall i :: 0 <= i < |s| ==> IsDigit(s[i])
  }

  function DigitChar(d: nat): (c: char)
    requires d < 10
    ensures IsDigit(c)
  {
    (('0' as int) + d) as char
  }

  function DigitValue(c: char): (d: nat)
    requires IsDigit(c)
    ensures d < 10 && DigitChar(d) == c
  {
    (c as int) - ('0' as int)
  }

  function Pow10(k: nat): (p: nat)
    ensures p >= 1
  {
    if k == 0 then 1 else 10 * Pow10(k - 1)
  }

  /** The decimal text of `n`, without leading zeros, as `String(n)` gives it. */
  function Decimal(n: nat): (s: string)
    ensures 1 <= |s| && AllDigits(s)
  {
    if n < 10 then [DigitChar(n)] else Decimal(n / 10) + [DigitChar(n % 10)]
  }

  /** The value of a string of decimal digits, leading zeros allowed (as `parseInt(s, 10)`). */
  function DigitsValue(s: string): nat
    requires AllDigits(s)
  {
    if s == [] then 0 else 10 * DigitsValue(s[..|s| - 1]) + DigitValue(s[|s| - 1])
  }

  lemma {:induction false} DecimalValue(n: nat)
    ensures DigitsValue(Decimal(n)) == n
  {
    if n >= 10 {
      var s := Decimal(n);
      assert s[..|s| - 1] == Decimal(n / 10);
      DecimalValue(n / 10);
    }
  }

  lemma DecimalInjective(a: nat, b: nat)
    requires Decimal(a) == Decimal(b)
    ensures a == b
  {
    DecimalValue(a);
    DecimalValue(b);
  }

  lemma {:induction false} DecimalLength(n: nat, k: nat)
    requires 1 <= k && n < Pow10(k)
    ensures |Decimal(n)| <= k
  {
    if n >= 10 {
      assert k >= 2;
      DecimalLength(n / 10, k - 1);
    }
  }

  lemma {:induction false} DecimalLengthLower(n: nat, k: nat)
    requires 1 <= k && Pow10(k - 1) <= n
    ensures |Decimal(n)| >= k
  {
    if k > 1 {
      assert n >= 10;
      DecimalLengthLower(n / 10, k - 1);
    }
  }

  /** `s.padStart(width, fill)`: `fill` characters in front of `s` up to `width` characters. */
  function PadStart(s: string, width: nat, fill: char): (r: string)
    ensures |r| == if |s| >= width then |s| else width
    ensures r[|r| - |s|..] == s
    ensures forall i :: 0 <= i < |r| - |s| ==> r[i] == fill
  {
    if |s| >= width then s else seq(width - |s|, _ => fill) + s
  }

  lemma {:induction false} LeadingZerosValue(z: nat, s: string)
    requires AllDigits(s)
    ensures AllDigits(seq(z, _ => '0') + s)
    ensures DigitsValue(seq(z, _ => '0') + s) == DigitsValue(s)
  {
    var t := seq(z, _ => '0') + s;
    if s == [] {
      assert t == seq(z, _ => '0');
      ZerosValue(z);
    } else {
      assert t[..|t| - 1] == seq(z, _ => '0') + s[..|s| - 1];
      LeadingZerosValue(z, s[..|s| - 1]);
    }
  }

  lemma {:induction false} ZerosValue(z: nat)
    ensures AllDigits(seq(z, _ => '0'))
    ensures DigitsValue(seq(z, _ => '0')) == 0
  {
    if z > 0 {
      assert seq(z, _ => '0')[..z - 1] == seq(z - 1, _ => '0');
      ZerosValue(z - 1);
    }
  }

  /** `n` rendered in exactly `width` digits with leading zeros, when it fits. */
  function Fixed(n: nat, width: nat): string {
    PadStart(Decimal(n), width, '0')
  }

  lemma FixedRoundTrip(n: nat, width: nat)
    requires 1 <= width && n < Pow10(width)
    ensures |Fixed(n, width)| == width && AllDigits(Fixed(n, width))
    ensures DigitsValue(Fixed(n, width)) == n
  {
    DecimalLength(n, width);
    DecimalValue(n);
    var d := Decimal(n);
    if |d| < width {
      LeadingZerosValue(width - |d|, d);
    }
  }

  /** Digit strings of one length with one value are the same string. */
  lemma {:induction false} DigitsValueInjective(a: string, b: string)
    requires AllDigits(a) && AllDigits(b) && |a| == |b|
    requires DigitsValue(a) == DigitsValue(b)
    ensures a == b
  {
    if a != [] {
      var n := |a| - 1;
      DigitsValueLast(a);
      DigitsValueLast(b);
      LastDigitSplit(DigitsValue(a[..n]), DigitValue(a[n]), DigitsValue(b[..n]), DigitValue(b[n]));
      DigitsValueInjective(a[..n], b[..n]);
      assert a[n] == DigitChar(DigitValue(a[n])) && b[n] == DigitChar(DigitValue(b[n]));
      SameInitAndLast(a, b);
    }
  }

  /** The value of a digit string is ten times the value of its initial digits plus its last digit. */
  lemma DigitsValueLast(a: string)
    requires AllDigits(a) && a != []
    ensures AllDigits(a[..|a| - 1])
    ensures DigitsValue(a) == 10 * DigitsValue(a[..|a| - 1]) + DigitValue(a[|a| - 1])
  {
  }

  /** Two non-empty sequences with equal initial parts and equal last elements are equal. */
  lemma SameInitAndLast<T>(a: seq<T>, b: seq<T>)
    requires |a| == |b| && a != []
    requires a[..|a| - 1] == b[..|b| - 1] && a[|a| - 1] == b[|b| - 1]
    ensures a == b
  {
    assert a == a[..|a| - 1] + [a[|a| - 1]];
    assert b == b[..|b| - 1] + [b[|b| - 1]];
  }

  /** A number ending in one digit determines that digit and the rest. */
  lemma LastDigitSplit(p: nat, x: nat, q: nat, y: nat)
    requires x < 10 && y < 10 && 10 * p + x == 10 * q + y
    ensures x == y && p == q
  {
    assert (10 * p + x) % 10 == x;
    assert (10 * q + y) % 10 == y;
  }

  /** Two-digit rendering of a number below 100. */
  lemma Fixed2Digits(n: nat)
    requires n < 100
    ensures Fixed(n, 2) == [DigitChar(n / 10), DigitChar(n % 10)]
  {
    if n >= 10 {
      assert Decimal(n) == Decimal(n / 10) + [DigitChar(n % 10)];
    }
  }

  // ----- JavaScript string comparison -----

  /** `a < b` on strings: lexicographic order on characters, a proper prefix first. */
  predicate Less(a: string, b: string) {
    if a == [] then b != []
    else if b == [] then false
    else if a[0] != b[0] then a[0] < b[0]
    else Less(a[1..], b[1..])
  }

  /** `a <= b` on strings, which JavaScript evaluates as `!(b < a)`. */
  predicate LessEq(a: string, b: string) {
    !Less(b, a)
  }

  lemma {:induction false} LessIrreflexive(a: string)
    ensures !Less(a, a)
  {
    if a != [] {
      LessIrreflexive(a[1..]);
    }
  }

  lemma {:induction false} LessTrichotomy(a: string, b: string)
    ensures Less(a, b) || a == b || Less(b, a)
    ensures !(Less(a, b) && Less(b, a))
  {
    if a != [] && b != [] && a[0] == b[0] {
      LessTrichotomy(a[1..], b[1..]);
      if a[1..] == b[1..] {
        assert a == [a[0]] + a[1..] && b == [b[0]] + b[1..];
      }
    }
  }

  lemma {:induction false} LessTransitive(a: string, b: string, c: string)
    requires Less(a, b) && Less(b, c)
    ensures Less(a, c)
  {
    if a != [] && a[0] == b[0] && b[0] == c[0] {
      LessTransitive(a[1..], b[1..], c[1..]);
    }
  }

  lemma LessEqTransitive(a: string, b: string, c: string)
    requires LessEq(a, b) && LessEq(b, c)
    ensures LessEq(a, c)
  {
    LessEqIsLessOrEqual(a, b);
    LessEqIsLessOrEqual(b, c);
    LessEqIsLessOrEqual(a, c);
    if Less(a, b) && Less(b, c) {
      LessTransitive(a, b, c);
    }
  }

  lemma LessEqIsLessOrEqual(a: string, b: string)
    ensures LessEq(a, b) <==> Less(a, b) || a == b
  {
    LessTrichotomy(a, b);
    LessIrreflexive(a);
  }

  /** Comparing two concatenations whose first parts have the same length. */
  lemma {:induction false} LessConcat(a: string, b: string, c: string, d: string)
    requires |a| == |c|
    ensures Less(a + b, c + d) <==> Less(a, c) || (a == c && Less(b, d))
  {
    if a != [] {
      assert (a + b)[0] == a[0] && (c + d)[0] == c[0];
      assert (a + b)[1..] == a[1..] + b && (c + d)[1..] == c[1..] + d;
      LessConcat(a[1..], b, c[1..], d);
      if a[0] == c[0] && a[1..] == c[1..] {
        assert a == [a[0]] + a[1..] && c == [c[0]] + c[1..];
      }
    } else {
      assert a + b == b && c + d == d;
    }
  }

  /** Numbers below 100 compare as their (tens, units) pairs do. */
  lemma TensUnitsOrder(x: nat, y: nat)
    requires x < 100 && y < 100
    ensures x < y <==> x / 10 < y / 10 || (x / 10 == y / 10 && x % 10 < y % 10)
  {
    assert x == 10 * (x / 10) + x % 10;
    assert y == 10 * (y / 10) + y % 10;
  }

  /** Two-character strings compare by their first characters, then their second. */
  lemma LessPair(p: char, q: char, r: char, t: char)
    ensures Less([p, q], [r, t]) <==> p < r || (p == r && q < t)
  {
    assert [p, q][1..] == [q] && [r, t][1..] == [t];
    assert [q][1..] == [] && [t][1..] == [];
    assert Less([q], [t]) <==> q < t;
    assert Less([p, q], [r, t]) <==> if p != r then p < r else Less([q], [t]);
  }

  /** Digit characters are ordered as their values. */
  lemma DigitCharOrder(x: nat, y: nat)
    requires x < 10 && y < 10
    ensures DigitChar(x) < DigitChar(y) <==> x < y
    ensures DigitChar(x) == DigitChar(y) <==> x == y
  {
  }

  /** On two-digit renderings, string order is numeric order. */
  lemma LessFixed2(x: nat, y: nat)
    requires x < 100 && y < 100
    ensures Less(Fixed(x, 2), Fixed(y, 2)) <==> x < y
  {
    Fixed2Digits(x);
    Fixed2Digits(y);
    LessPair(DigitChar(x / 10), DigitChar(x % 10), DigitChar(y / 10), DigitChar(y % 10));
    DigitCharOrder(x / 10, y / 10);
    DigitCharOrder(x % 10, y % 10);
    TensUnitsOrder(x, y);
  }

  // ----- String.prototype.trim -----

  /** The characters ECMAScript's `trim` (and the regular expression class `\s`) treat as white space. */
  predicate IsSpace(c: char) {
    c == '\t' || c == '\n' || c == '\U{000B}' || c == '\U{000C}' || c == '\r' || c == ' '
    || c == '\U{00A0}' || c == '\U{1680}' || ('\U{2000}' <= c <= '\U{200A}')
    || c == '\U{2028}' || c == '\U{2029}' || c == '\U{202F}' || c == '\U{205F}'
    || c == '\U{3000}' || c == '\U{FEFF}'
  }

  function TrimStart(s: string): (r: string)
    ensures r == [] || !IsSpace(r[0])
    ensures |r| <= |s| && r == s[|s| - |r|..]
    ensures forall i :: 0 <= i < |s| - |r| ==> IsSpace(s[i])
  {
    if s != [] && IsSpace(s[0]) then TrimStart(s[1..]) else s
  }

  function TrimEnd(s: string): (r: string)
    ensures r == [] || !IsSpace(r[|r| - 1])
    ensures |r| <= |s| && r == s[..|r|]
    ensures forall i :: |r| <= i < |s| ==> IsSpace(s[i])
  {
    if s != [] && IsSpace(s[|s| - 1]) then TrimEnd(s[..|s| - 1]) else s
  }

  /** `s.trim()`: `s` without its leading and trailing white space. */
  function Trim(s: string): string {
    TrimEnd(TrimStart(s))
  }

  lemma {:induction false} TrimStartOfNoSpace(s: string)
    requires s == [] || !IsSpace(s[0])
    ensures TrimStart(s) == s
  {
  }

  lemma {:induction false} TrimEndOfNoSpace(s: string)
    requires s == [] || !IsSpace(s[|s| - 1])
    ensures TrimEnd(s) == s
  {
  }

  /**
   * Trim is the slice `s[i..i + |Trim(s)|]` of its input whose cut-off ends
   * are white space, and it has no white space left at either end.
   */
  lemma TrimShape(s: string) returns (i: nat)
    ensures var r := Trim(s);
      && (r == [] || (!IsSpace(r[0]) && !IsSpace(r[|r| - 1])))
      && i + |r| <= |s| && r == s[i..i + |r|]
      && (forall k :: 0 <= k < i ==> IsSpace(s[k]))
      && (forall k :: i + |r| <= k < |s| ==> IsSpace(s[k]))
  {
    TrimEnds(s);
    i := TrimSlice(s);
  }

  lemma TrimEnds(s: string)
    ensures var r := Trim(s); r == [] || (!IsSpace(r[0]) && !IsSpace(r[|r| - 1]))
  {
    var t := TrimStart(s);
    var r := TrimEnd(t);
    if r != [] {
      assert r[0] == t[0];
    }
  }

  lemma TrimSlice(s: string) returns (i: nat)
    ensures var r := Trim(s);
      && i + |r| <= |s| && r == s[i..i + |r|]
      && (forall k :: 0 <= k < i ==> IsSpace(s[k]))
      && (forall k :: i + |r| <= k < |s| ==> IsSpace(s[k]))
  {
    var t := TrimStart(s);
    var r := TrimEnd(t);
    i := |s| - |t|;
    SpaceCutSlice(s, t, r, i);
  }

  /**
   * `t` is `s` from `i` on and `r` is `t` without its last characters, all
   * white space: `r` is a slice of `s` followed by white space only.
   */
  lemma SpaceCutSlice(s: string, t: string, r: string, i: nat)
    requires i + |t| == |s| && t == s[i..] && |r| <= |t| && r == t[..|r|]
    requires forall k :: |r| <= k < |t| ==> IsSpace(t[k])
    ensures i + |r| <= |s| && r == s[i..i + |r|]
    ensures forall k :: i + |r| <= k < |s| ==> IsSpace(s[k])
  {
    assert r == s[i..i + |r|];
    forall k | i + |r| <= k < |s| ensures IsSpace(s[k]) {
      assert s[k] == t[k - i];
    }
  }

  lemma TrimIdempotent(s: string)
    ensures Trim(Trim(s)) == Trim(s)
  {
    var t := TrimStart(s);
    var r := TrimEnd(t);
    if r != [] {
      assert r[0] == t[0];
    }
    TrimStartOfNoSpace(r);
    TrimEndOfNoSpace(r);
  }

  lemma {:induction false} TrimEmptyIffAllSpace(s: string)
    ensures Trim(s) == [] <==> forall i :: 0 <= i < |s| ==> IsSpace(s[i])
  {
    var t := TrimStart(s);
    if t != [] {
      assert !IsSpace(t[0]);
      assert TrimEnd(t)[0] == t[0];
      assert !IsSpace(s[|s| - |t|]);
    }
  }

  /** An optional string that JavaScript treats as true: present and not empty. */
  predicate Truthy(o: Option<string>) {
    o.Some? && o.value != ""
  }

  /** `String(n)` for any integer: a minus sign before the decimal digits of a negative number. */
  function IntString(n: int): string {
    if n < 0 then "-" + Decimal(-n) else Decimal(n)
  }

  lemma {:induction false} PadStartDigits(s: string, width: nat)
    requires AllDigits(s)
    ensures AllDigits(PadStart(s, width, '0'))
  {
  }

  /** `s.split(c)[0]`: the text before the first `c`, or all of `s` when it has none. */
  function BeforeFirst(s: string, c: char): (r: string)
    ensures |r| <= |s| && r == s[..|r|]
    ensures c !in r
    ensures |r| < |s| ==> s[|r|] == c
  {
    if s == [] then [] else if s[0] == c then [] else [s[0]] + BeforeFirst(s[1..], c)
  }

  /** The text before a separator that the prefix does not contain. */
  lemma {:induction false} BeforeFirstConcat(a: string, c: char, b: string)
    requires c !in a
    ensures BeforeFirst(a + [c] + b, c) == a
  {
    if a != [] {
      assert (a + [c] + b)[1..] == a[1..] + [c] + b;
      BeforeFirstConcat(a[1..], c, b);
    }
  }

  /**
   * A prefix and a string of digits joined by `sep`, which is no digit,
   * determine both parts: the digits run back from the end up to the last
   * `sep`.
   */
  lemma LastOfJoin(a: string, sep: char, d: string)
    ensures var s := a + [sep] + d; |s| == |a| + |d| + 1 && s[|s| - 1] == if d == [] then sep else d[|d| - 1]
  {
  }

  lemma {:induction false} JoinDigitsInjective(a: string, d: string, b: string, e: string, sep: char)
    requires !IsDigit(sep) && AllDigits(d) && AllDigits(e)
    requires a + [sep] + d == b + [sep] + e
    ensures a == b && d == e
  {
    var s, t := a + [sep] + d, b + [sep] + e;
    if d == [] && e == [] {
      assert a == s[..|a|] && b == t[..|b|];
    } else if d == [] || e == [] {
      // one side ends in the separator, the other in a digit
      LastOfJoin(a, sep, d);
      LastOfJoin(b, sep, e);
      assert false;
    } else {
      var d', e' := d[..|d| - 1], e[..|e| - 1];
      assert s == a + [sep] + d' + [d[|d| - 1]];
      assert t == b + [sep] + e' + [e[|e| - 1]];
      assert a + [sep] + d' == s[..|s| - 1] == t[..|t| - 1] == b + [sep] + e';
      JoinDigitsInjective(a, d', b, e', sep);
      assert d == d' + [d[|d| - 1]] && e == e' + [e[|e| - 1]];
    }
  }

  // ----- Prefixes -----

  predicate StartsWith(s: string, p: string) {
    |p| <= |s| && s[..|p|] == p
  }
}
