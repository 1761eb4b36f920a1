/**
 * String operations the backend and the pages rely on: the ordering MongoDB
 * uses for strings, prefixes and substrings, ASCII case folding,
 * JavaScript's `trim`, and decimal digit strings.
 */
module Strings {

  // ---------------------------------------------------------------------------
  // Lexicographic order
  // ---------------------------------------------------------------------------

  /**
   * Strict lexicographic order, comparing characters by code point: the order of
   * MongoDB's `$lt` and `$sort` on strings. (Dafny's own `<` on sequences means
   * "proper prefix", which is a different relation.)
   */
  predicate LexLess(a: string, b: string)
    decreases |a|
  {
    if |a| == 0 then |b| > 0
    else if |b| == 0 then false
    else if a[0] != b[0] then a[0] < b[0]
    else LexLess(a[1..], b[1..])
  }

  lemma {:induction false} LexLessIrreflexive(a: string)
    ensures !LexLess(a, a)
    decreases |a|
  {
    if |a| > 0 {
      LexLessIrreflexive(a[1..]);
    }
  }

  lemma {:induction false} LexLessAsymmetric(a: string, b: string)
    ensures LexLess(a, b) ==> !LexLess(b, a)
    decreases |a|
  {
    if |a| > 0 && |b| > 0 && a[0] == b[0] {
      LexLessAsymmetric(a[1..], b[1..]);
    }
  }

  lemma {:induction false} LexLessTransitive(a: string, b: string, c: string)
    requires LexLess(a, b) && LexLess(b, c)
    ensures LexLess(a, c)
    decreases |a|
  {
    if |a| > 0 && |b| > 0 && |c| > 0 && a[0] == b[0] && b[0] == c[0] {
      LexLessTransitive(a[1..], b[1..], c[1..]);
    }
  }

  lemma {:induction false} LexLessTotal(a: string, b: string)
    ensures a == b || LexLess(a, b) || LexLess(b, a)
    decreases |a|
  {
    if |a| > 0 && |b| > 0 && a[0] == b[0] {
      LexLessTotal(a[1..], b[1..]);
      if a[1..] == b[1..] {
        assert a == [a[0]] + a[1..] && b == [b[0]] + b[1..];
      }
    }
  }

  // ---------------------------------------------------------------------------
  // Prefixes and substrings
  // ---------------------------------------------------------------------------

  /** JavaScript's `s.startsWith(prefix)`. */
  predicate StartsWith(s: string, prefix: string) {
    |prefix| <= |s| && s[..|prefix|] == prefix
  }

  /** `sub` occurs in `s` starting at index `i`. */
  predicate OccursAt(s: string, sub: string, i: int) {
    0 <= i && i + |sub| <= |s| && s[i..i + |sub|] == sub
  }

  /** `sub` is a (contiguous) substring of `s`. */
  predicate Contains(s: string, sub: string)
    decreases |s|
  {
    StartsWith(s, sub) || (|s| > 0 && Contains(s[1..], sub))
  }

  /** The recursive search finds exactly the occurrences there are. */
  lemma {:induction false} ContainsIffOccurs(s: string, sub: string)
    ensures Contains(s, sub) <==> exists i :: OccursAt(s, sub, i)
    decreases |s|
  {
    if StartsWith(s, sub) {
      assert OccursAt(s, sub, 0);
    } else if |s| > 0 {
      ContainsIffOccurs(s[1..], sub);
      if Contains(s[1..], sub) {
        var i :| OccursAt(s[1..], sub, i);
        assert s[1..][i..i + |sub|] == s[i + 1..i + 1 + |sub|];
        assert OccursAt(s, sub, i + 1);
      }
      if exists i :: OccursAt(s, sub, i) {
        var i :| OccursAt(s, sub, i);
        assert i != 0;
        assert s[1..][i - 1..i - 1 + |sub|] == s[i..i + |sub|];
        assert OccursAt(s[1..], sub, i - 1);
      }
    }
  }

  // ---------------------------------------------------------------------------
  // Case folding (ASCII)
  // ---------------------------------------------------------------------------

  function LowerChar(c: char): char {
    if 'A' <= c <= 'Z' then (c as int + 32) as char else c
  }

  /** Lower-casing, as Mongoose's `lowercase` setter and a regex's `i` flag do for ASCII letters. */
  function ToLower(s: string): (r: string)
    ensures |r| == |s|
    ensures forall i :: 0 <= i < |s| ==> r[i] == LowerChar(s[i])
  {
    seq(|s|, i requires 0 <= i < |s| => LowerChar(s[i]))
  }

  predicate IsLower(s: string) {
    forall i :: 0 <= i < |s| ==> !('A' <= s[i] <= 'Z')
  }

  lemma ToLowerIsLower(s: string)
    ensures IsLower(ToLower(s))
  {
  }

  /** Lower-casing leaves exactly the lower-case strings alone, so applying it twice changes nothing more. */
  lemma {:induction false} ToLowerIdempotent(s: string)
    ensures ToLower(s) == s <==> IsLower(s)
    ensures ToLower(ToLower(s)) == ToLower(s)
  {
    if IsLower(s) {
      assert forall i :: 0 <= i < |s| ==> ToLower(s)[i] == s[i];
    } else {
      var i :| 0 <= i < |s| && 'A' <= s[i] <= 'Z';
      assert ToLower(s)[i] != s[i];
    }
    assert forall i :: 0 <= i < |s| ==> ToLower(ToLower(s))[i] == ToLower(s)[i];
  }

  /** Case-insensitive substring test: a `$regex` with option `i` over a pattern free of metacharacters. */
  predicate ContainsIgnoreCase(s: string, sub: string) {
    Contains(ToLower(s), ToLower(sub))
  }

  // ---------------------------------------------------------------------------
  // JavaScript's trim
  // ---------------------------------------------------------------------------

  /** The white space and line terminators that JavaScript's `String.prototype.trim` removes. */
  predicate IsSpace(c: char) {
    c == ' ' || c == '\t' || c == '\n' || c == '\r' || c == '\U{0B}' || c == '\U{0C}'
    || c == '\U{A0}' || c == '\U{1680}' || ('\U{2000}' <= c <= '\U{200A}')
    || c == '\U{2028}' || c == '\U{2029}' || c == '\U{202F}' || c == '\U{205F}'
    || c == '\U{3000}' || c == '\U{FEFF}'
  }

  function TrimStart(s: string): (r: string)
    ensures |r| <= |s| && r == s[|s| - |r|..]
    ensures r == [] || !IsSpace(r[0])
    ensures forall i :: 0 <= i < |s| - |r| ==> IsSpace(s[i])
    decreases |s|
  {
    if |s| > 0 && IsSpace(s[0]) then TrimStart(s[1..]) else s
  }

  function TrimEnd(s: string): (r: string)
    ensures |r| <= |s| && r == s[..|r|]
    ensures r == [] || !IsSpace(r[|r| - 1])
    ensures forall i :: |r| <= i < |s| ==> IsSpace(s[i])
    decreases |s|
  {
    if |s| > 0 && IsSpace(s[|s| - 1]) then TrimEnd(s[..|s| - 1]) else s
  }

  /** JavaScript's `s.trim()`, applied by Mongoose's `trim` setter. */
  function Trim(s: string): string {
    TrimEnd(TrimStart(s))
  }

  predicate IsTrimmed(s: string) {
    s == [] || (!IsSpace(s[0]) && !IsSpace(s[|s| - 1]))
  }

  /** Trimming leaves no white space at either end, and only strips white space. */
  lemma TrimSpec(s: string)
    ensures IsTrimmed(Trim(s))
    ensures exists i, j :: (0 <= i <= j <= |s| && Trim(s) == s[i..j]
                            && (forall k :: 0 <= k < i ==> IsSpace(s[k]))
                            && (forall k :: j <= k < |s| ==> IsSpace(s[k])))
  {
    var t := TrimStart(s);
    var r := TrimEnd(t);
    var i := |s| - |t|;
    var j := i + |r|;
    assert t == s[i..];
    assert r == t[..|r|];
    assert r == s[i..j];
    forall k | j <= k < |s|
      ensures IsSpace(s[k])
    {
      assert s[k] == t[k - i];
    }
    if r != [] {
      assert r[0] == t[0];
    }
    assert IsTrimmed(r);
  }

  lemma TrimIdempotent(s: string)
    ensures Trim(Trim(s)) == Trim(s)
  {
    TrimSpec(s);
    TrimOfTrimmed(Trim(s));
  }

  lemma TrimOfTrimmed(s: string)
    requires IsTrimmed(s)
    ensures Trim(s) == s
  {
  }

  /** A string trims to nothing exactly when it is all white space. */
  lemma TrimEmptyIff(s: string)
    ensures Trim(s) == [] <==> forall k :: 0 <= k < |s| ==> IsSpace(s[k])
  {
    var t := TrimStart(s);
    if forall k :: 0 <= k < |s| ==> IsSpace(s[k]) {
      assert t == [];
    }
  }

  // ---------------------------------------------------------------------------
  // Decimal digit strings
  // ---------------------------------------------------------------------------

  predicate IsDigit(c: char) {
    '0' <= c <= '9'
  }

  predicate AllDigits(s: string) {
    forall i :: 0 <= i < |s| ==> IsDigit(s[i])
  }

  function DigitValue(c: char): (d: nat)
    requires IsDigit(c)
    ensures d < 10
  {
    c as int - '0' as int
  }

  function DigitChar(d: nat): (c: char)
    requires d < 10
    ensures IsDigit(c) && DigitValue(c) == d
  {
    ('0' as int + d) as char
  }

  function Pow10(k: nat): (p: nat)
    ensures p >= 1
  {
    if k == 0 then 1 else 10 * Pow10(k - 1)
  }

  /** The number a string of decimal digits denotes. */
  function ParseDecimal(s: string): nat
    requires AllDigits(s)
    decreases |s|
  {
    if s == [] then 0 else 10 * ParseDecimal(s[..|s| - 1]) + DigitValue(s[|s| - 1])
  }

  /** JavaScript's `n.toString()` for a non-negative integer. */
  function DecimalString(n: nat): (r: string)
    ensures 1 <= |r| && AllDigits(r)
    ensures |r| > 1 ==> r[0] != '0'
    decreases n
  {
    if n < 10 then [DigitChar(n)] else DecimalString(n / 10) + [DigitChar(n % 10)]
  }

  /** Reading back the digits `toString` writes gives the number again. */
  lemma {:induction false} DecimalRoundTrip(n: nat)
    ensures ParseDecimal(DecimalString(n)) == n
    decreases n
  {
    if n >= 10 {
      DecimalRoundTrip(n / 10);
      var s := DecimalString(n);
      assert s[..|s| - 1] == DecimalString(n / 10);
    }
  }

  /** Distinct numbers have distinct decimal strings. */
  lemma DecimalInjective(m: nat, n: nat)
    ensures DecimalString(m) == DecimalString(n) ==> m == n
  {
    DecimalRoundTrip(m);
    DecimalRoundTrip(n);
  }

  /** A number of exactly `k` digits is written with `k` characters. */
  lemma {:induction false} DecimalLength(n: nat, k: nat)
    requires 1 <= k && n < Pow10(k)
    requires k > 1 ==> Pow10(k - 1) <= n
    ensures |DecimalString(n)| == k
    decreases k
  {
    if k > 1 {
      assert Pow10(k - 1) >= 10 by {
        assert Pow10(k - 1) == 10 * Pow10(k - 2);
      }
      DecimalLength(n / 10, k - 1);
    }
  }

  lemma {:induction false} ParseDecimalBound(s: string)
    requires AllDigits(s)
    ensures ParseDecimal(s) < Pow10(|s|)
    decreases |s|
  {
    if s != [] {
      ParseDecimalBound(s[..|s| - 1]);
    }
  }

  /** The value of a concatenation of digit strings. */
  lemma {:induction false} ParseDecimalAppend(a: string, b: string)
    requires AllDigits(a) && AllDigits(b)
    ensures AllDigits(a + b)
    ensures ParseDecimal(a + b) == ParseDecimal(a) * Pow10(|b|) + ParseDecimal(b)
    decreases |b|
  {
    if b == [] {
      assert a + b == a;
    } else {
      var b' := b[..|b| - 1];
      ParseDecimalAppend(a, b');
      var ab := a + b;
      assert ab[..|ab| - 1] == a + b' && ab[|ab| - 1] == b[|b| - 1];
      var pa, pb', d, q := ParseDecimal(a), ParseDecimal(b'), DigitValue(b[|b| - 1]), Pow10(|b'|);
      assert ParseDecimal(ab) == 10 * (pa * q + pb') + d;
      assert ParseDecimal(b) == 10 * pb' + d;
      assert Pow10(|b|) == 10 * q;
      ShiftDigit(pa, pb', d, q);
    }
  }

  /** Shifting a prefix's value one more digit to the left, as arithmetic. */
  lemma ShiftDigit(pa: nat, pb: nat, d: nat, q: nat)
    ensures 10 * (pa * q + pb) + d == pa * (10 * q) + (10 * pb + d)
  {
  }

  /** Prepending a digit adds its value at the next power of ten. */
  lemma ParseDecimalCons(c: char, s: string)
    requires IsDigit(c) && AllDigits(s)
    ensures AllDigits([c] + s)
    ensures ParseDecimal([c] + s) == DigitValue(c) * Pow10(|s|) + ParseDecimal(s)
  {
    assert [c][..0] == [];
    assert ParseDecimal([c]) == DigitValue(c);
    ParseDecimalAppend([c], s);
  }

  /** A smaller leading digit decides, whatever follows it. */
  lemma LeadingDigitDecides(da: nat, db: nat, p: nat, ra: nat, rb: nat)
    requires da < db && ra < p
    ensures da * p + ra < db * p + rb
  {
    assert (da + 1) * p <= db * p;
  }

  /**
   * On digit strings of one length, the lexicographic order is the numeric
   * order: the reason fixed-width, zero-padded fields sort correctly as text.
   */
  lemma {:induction false} DigitsLexIsNumeric(a: string, b: string)
    requires AllDigits(a) && AllDigits(b) && |a| == |b|
    ensures LexLess(a, b) <==> ParseDecimal(a) < ParseDecimal(b)
    decreases |a|
  {
    if |a| > 0 {
      var a', b' := a[1..], b[1..];
      assert [a[0]] + a' == a && [b[0]] + b' == b;
      ParseDecimalCons(a[0], a');
      ParseDecimalCons(b[0], b');
      ParseDecimalBound(a');
      ParseDecimalBound(b');
      DigitsLexIsNumeric(a', b');
      var p := Pow10(|a'|);
      var da, db := DigitValue(a[0]), DigitValue(b[0]);
      if da < db {
        LeadingDigitDecides(da, db, p, ParseDecimal(a'), ParseDecimal(b'));
      } else if db < da {
        LeadingDigitDecides(db, da, p, ParseDecimal(b'), ParseDecimal(a'));
      }
    }
  }

  /**
   * Two strings of one fixed-width layout: the same length, digits in the same
   * places, and the same separator characters everywhere else.
   */
  predicate SameLayout(a: string, b: string) {
    && |a| == |b|
    && (forall i :: 0 <= i < |a| ==> (IsDigit(a[i]) <==> IsDigit(b[i])))
    && (forall i :: 0 <= i < |a| && !IsDigit(a[i]) ==> a[i] == b[i])
  }

  /** The digits of `s`, in order, with every other character dropped. */
  function DigitsOf(s: string): (r: string)
    ensures AllDigits(r)
    decreases |s|
  {
    if s == [] then [] else (if IsDigit(s[0]) then [s[0]] else []) + DigitsOf(s[1..])
  }

  lemma {:induction false} DigitsOfAppend(a: string, b: string)
    ensures DigitsOf(a + b) == DigitsOf(a) + DigitsOf(b)
    decreases |a|
  {
    if a != [] {
      assert (a + b)[1..] == a[1..] + b;
      DigitsOfAppend(a[1..], b);
    } else {
      assert a + b == b;
    }
  }

  lemma {:induction false} DigitsOfDigits(s: string)
    requires AllDigits(s)
    ensures DigitsOf(s) == s
    decreases |s|
  {
    if s != [] {
      DigitsOfDigits(s[1..]);
    }
  }

  /** Comparing two strings of one layout compares the numbers their digits spell. */
  lemma {:induction false} SameLayoutLexIsNumeric(a: string, b: string)
    requires SameLayout(a, b)
    ensures |DigitsOf(a)| == |DigitsOf(b)|
    ensures LexLess(a, b) <==> ParseDecimal(DigitsOf(a)) < ParseDecimal(DigitsOf(b))
  {
    SameLayoutDigits(a, b);
    DigitsLexIsNumeric(DigitsOf(a), DigitsOf(b));
  }

  lemma {:induction false} SameLayoutDigits(a: string, b: string)
    requires SameLayout(a, b)
    ensures |DigitsOf(a)| == |DigitsOf(b)|
    ensures LexLess(a, b) <==> LexLess(DigitsOf(a), DigitsOf(b))
    decreases |a|
  {
    if |a| > 0 {
      assert SameLayout(a[1..], b[1..]) by {
        forall i | 0 <= i < |a| - 1
          ensures IsDigit(a[1..][i]) <==> IsDigit(b[1..][i])
        {
          assert a[1..][i] == a[i + 1] && b[1..][i] == b[i + 1];
        }
      }
      SameLayoutDigits(a[1..], b[1..]);
      var da, db := DigitsOf(a), DigitsOf(b);
      if IsDigit(a[0]) {
        assert da == [a[0]] + DigitsOf(a[1..]) && db == [b[0]] + DigitsOf(b[1..]);
        assert da[0] == a[0] && db[0] == b[0];
        assert da[1..] == DigitsOf(a[1..]) && db[1..] == DigitsOf(b[1..]);
      } else {
        assert a[0] == b[0];
        assert da == DigitsOf(a[1..]) && db == DigitsOf(b[1..]);
      }
    }
  }
}
