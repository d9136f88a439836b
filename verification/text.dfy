/**
 * The string primitives of Python and SQLite that the patient registry relies on:
 * `str.strip`, `int(...)`, `str(int)`, `format(s, '<w')`, the case-insensitive
 * `LIKE '%term%'` match and the BINARY collation used by `ORDER BY`.
 * Digits are the ASCII digits '0'..'9' only.
 */
module Text {
  import opened Wrappers

  predicate IsDigit(c: char) { '0' <= c <= '9' }

  predicate AllDigits(s: string) { forall i :: 0 <= i < |s| ==> IsDigit(s[i]) }

  /** The characters Python's `str.isspace()` and `str.strip()` treat as whitespace. */
  predicate IsSpace(c: char) {
    var n := c as int;
    (9 <= n <= 13) || (28 <= n <= 32) || n == 0x85 || n == 0xA0 || n == 0x1680
    || (0x2000 <= n <= 0x200A) || n == 0x2028 || n == 0x2029 || n == 0x202F
    || n == 0x205F || n == 0x3000
  }

  predicate AllSpace(s: string) { forall i :: 0 <= i < |s| ==> IsSpace(s[i]) }

  /** No whitespace at either end: what `str.strip()` produces. */
  predicate Trimmed(s: string) { s == [] || (!IsSpace(s[0]) && !IsSpace(s[|s| - 1])) }

  function TrimLeft(s: string): (r: string)
    ensures |r| <= |s| && r == s[|s| - |r|..]
    ensures forall i :: 0 <= i < |s| - |r| ==> IsSpace(s[i])
    ensures r == [] || !IsSpace(r[0])
  {
    if s != [] && IsSpace(s[0]) then TrimLeft(s[1..]) else s
  }

  function TrimRight(s: string): (r: string)
    ensures |r| <= |s| && r == s[..|r|]
    ensures forall i :: |r| <= i < |s| ==> IsSpace(s[i])
    ensures r == [] || !IsSpace(r[|r| - 1])
  {
    if s != [] && IsSpace(s[|s| - 1]) then TrimRight(s[..|s| - 1]) else s
  }

  /** Python's `s.strip()`. */
  function Trim(s: string): (r: string)
    ensures Trimmed(r)
    ensures r == [] <==> AllSpace(s)
    ensures |r| <= |s|
  {
    var l := TrimLeft(s);
    var r := TrimRight(l);
    assert r != [] ==> r[0] == l[0];
    assert r == [] ==> l == [];
    r
  }

  /** Stripping a string that has no surrounding whitespace leaves it as it is. */
  lemma TrimOfTrimmed(s: string)
    requires Trimmed(s)
    ensures Trim(s) == s
  {
    assert TrimLeft(s) == s;
  }

  /** Stripping twice is stripping once. */
  lemma TrimIdempotent(s: string)
    ensures Trim(Trim(s)) == Trim(s)
  {
    TrimOfTrimmed(Trim(s));
  }

  /** Whitespace before some text does not change what is left once it is stripped on the left. */
  lemma {:induction false} TrimLeftSkips(a: string, u: string)
    requires AllSpace(a)
    ensures TrimLeft(a + u) == TrimLeft(u)
  {
    if a != [] {
      var a' := a[1..];
      assert IsSpace(a[0]);
      assert (a + u)[0] == a[0] && (a + u)[1..] == a' + u;
      assert AllSpace(a') by {
        forall i | 0 <= i < |a'| ensures IsSpace(a'[i]) { assert a'[i] == a[i + 1]; }
      }
      TrimLeftSkips(a', u);
    } else {
      assert a + u == u;
    }
  }

  /** Whitespace after some text does not change what is left once it is stripped on the right. */
  lemma {:induction false} TrimRightSkips(u: string, b: string)
    requires AllSpace(b)
    ensures TrimRight(u + b) == TrimRight(u)
  {
    if b != [] {
      var b' := b[..|b| - 1];
      assert IsSpace(b[|b| - 1]);
      assert (u + b)[|u + b| - 1] == b[|b| - 1] && (u + b)[..|u + b| - 1] == u + b';
      assert AllSpace(b') by {
        forall i | 0 <= i < |b'| ensures IsSpace(b'[i]) { assert b'[i] == b[i]; }
      }
      TrimRightSkips(u, b');
    } else {
      assert u + b == u;
    }
  }

  /** Stripping text surrounded by whitespace gives back the text. */
  lemma TrimAround(a: string, t: string, b: string)
    requires AllSpace(a) && AllSpace(b) && Trimmed(t) && t != []
    ensures Trim(a + t + b) == t
  {
    assert a + t + b == a + (t + b);
    TrimLeftSkips(a, t + b);
    assert TrimLeft(t + b) == t + b;
    TrimRightSkips(t, b);
    TrimOfTrimmed(t);
  }

  // ---------------------------------------------------------------------------
  // Integers: Python's int(text) and str(n)
  // ---------------------------------------------------------------------------

  function DigitValue(c: char): nat
    requires IsDigit(c)
  {
    c as int - '0' as int
  }

  function DigitChar(d: nat): (c: char)
    requires d < 10
    ensures IsDigit(c) && DigitValue(c) == d
  {
    (d + '0' as int) as char
  }

  predicate DigitsOrUnderscores(s: string) {
    forall i :: 0 <= i < |s| ==> IsDigit(s[i]) || s[i] == '_'
  }

  /**
   * The digit part of a decimal literal as `int()` accepts it: ASCII digits, each
   * underscore standing alone between two digits.
   */
  predicate IsDigitRun(s: string) {
    && |s| > 0 && IsDigit(s[0]) && IsDigit(s[|s| - 1])
    && DigitsOrUnderscores(s)
    && (forall i :: 0 <= i < |s| - 1 && s[i] == '_' ==> IsDigit(s[i + 1]))
  }

  /** The decimal value of a digit run, underscores ignored. */
  function ValueOf(s: string): nat
    requires DigitsOrUnderscores(s)
  {
    if s == [] then 0
    else if s[|s| - 1] == '_' then ValueOf(s[..|s| - 1])
    else ValueOf(s[..|s| - 1]) * 10 + DigitValue(s[|s| - 1])
  }

  /** The number of digits in a digit run: its characters other than underscores. */
  function DigitCount(s: string): nat {
    if s == [] then 0
    else DigitCount(s[..|s| - 1]) + (if s[|s| - 1] == '_' then 0 else 1)
  }

  /**
   * The most digits CPython (3.11 on, and the 3.10.7 / 3.9.14 / 3.8.14 releases) converts
   * between `int` and `str` in base 10: `sys.int_info.default_max_str_digits`.
   */
  const MaxStrDigits: nat := 4300

  /**
   * The whitespace `int()` skips around a numeral: the `str.isspace()` characters except
   * U+001C..U+001F. CPython maps every non-ASCII space to ' ' but hands ASCII characters
   * unchanged to its numeral scanner, which does not take these four for blanks.
   */
  predicate IsIntSpace(c: char) { IsSpace(c) && !(0x1C <= c as int <= 0x1F) }

  function IntStripLeft(s: string): string {
    if s != [] && IsIntSpace(s[0]) then IntStripLeft(s[1..]) else s
  }

  function IntStripRight(s: string): string {
    if s != [] && IsIntSpace(s[|s| - 1]) then IntStripRight(s[..|s| - 1]) else s
  }

  /** The text `int()` reads: without the whitespace it skips at either end. */
  function IntStrip(s: string): string {
    IntStripRight(IntStripLeft(s))
  }

  /** What `int()` skips on the left is whitespace. */
  lemma {:induction false} IntStripLeftSplit(s: string) returns (a: string)
    ensures s == a + IntStripLeft(s) && AllSpace(a)
  {
    if s != [] && IsIntSpace(s[0]) {
      var a' := IntStripLeftSplit(s[1..]);
      a := [s[0]] + a';
      assert s == [s[0]] + s[1..];
    } else {
      a := [];
    }
  }

  /** What `int()` skips on the right is whitespace. */
  lemma {:induction false} IntStripRightSplit(s: string) returns (b: string)
    ensures s == IntStripRight(s) + b && AllSpace(b)
  {
    if s != [] && IsIntSpace(s[|s| - 1]) {
      var b' := IntStripRightSplit(s[..|s| - 1]);
      b := b' + [s[|s| - 1]];
      assert s == s[..|s| - 1] + [s[|s| - 1]];
    } else {
      b := [];
    }
  }

  /** The text is what `int()` reads, surrounded by whitespace. */
  lemma IntStripSplit(s: string) returns (a: string, b: string)
    ensures s == a + IntStrip(s) + b && AllSpace(a) && AllSpace(b)
  {
    a := IntStripLeftSplit(s);
    b := IntStripRightSplit(IntStripLeft(s));
  }

  /** Text without surrounding `str.strip()` whitespace has none `int()` would skip either. */
  lemma IntStripOfTrimmed(s: string)
    requires Trimmed(s)
    ensures IntStrip(s) == s
  {
    assert IntStripLeft(s) == s;
  }

  /**
   * Python's `int(text)` in base 10: surrounding whitespace, an optional sign, then a
   * digit run of at most `MaxStrDigits` digits; anything else is a `ValueError` (here `None`).
   */
  function ParseInt(text: string): Option<int>
  {
    ParseNumeral(IntStrip(text))
  }

  /** The numeral `int()` accepts once the whitespace is gone: an optional sign, then a digit run. */
  function ParseNumeral(t: string): Option<int>
  {
    if |t| > 0 && (t[0] == '+' || t[0] == '-') then
      if IsDigitRun(t[1..]) && DigitCount(t[1..]) <= MaxStrDigits then
        var v: int := ValueOf(t[1..]);
        Some(if t[0] == '-' then -v else v)
      else None
    else if IsDigitRun(t) && DigitCount(t) <= MaxStrDigits then Some(ValueOf(t))
    else None
  }

  /** A numeral `int()` accepts starts with a sign or a digit and ends with a digit. */
  lemma NumeralTrimmed(t: string)
    requires ParseNumeral(t).Some?
    ensures t != [] && Trimmed(t)
  {
    if t[0] == '+' || t[0] == '-' {
      assert IsDigitRun(t[1..]);
      assert t[1..][|t| - 2] == t[|t| - 1];
    }
  }

  /** A digit run longer than the limit is refused, whatever its value. */
  lemma ParseNumeralTooLong(t: string)
    requires IsDigitRun(t) && DigitCount(t) > MaxStrDigits
    ensures ParseNumeral(t) == None && ParseNumeral("-" + t) == None && ParseNumeral("+" + t) == None
  {
    assert ("-" + t)[1..] == t;
    assert ("+" + t)[1..] == t;
  }

  /** Python's `str(n)` for n >= 0: the shortest decimal numeral. */
  function NatToString(n: nat): (r: string)
    ensures |r| > 0 && AllDigits(r)
    ensures r[0] == '0' ==> n == 0
  {
    if n < 10 then [DigitChar(n)] else NatToString(n / 10) + [DigitChar(n % 10)]
  }

  /** Python's `str(n)` (and `format(n)`) for any integer. */
  function IntToString(n: int): string
  {
    if n < 0 then "-" + NatToString(-n) else NatToString(n)
  }

  /** `str(n)` is a minus sign exactly for negatives, then at least one digit; it has no blanks. */
  lemma IntToStringShape(n: int)
    ensures var r := IntToString(n);
      && |r| > (if n < 0 then 1 else 0) && (r[0] == '-' <==> n < 0)
      && AllDigits(if n < 0 then r[1..] else r)
      && Trimmed(r)
  {
    var r := IntToString(n);
    var d := NatToString(if n < 0 then -n else n);
    assert r[|r| - 1] == d[|d| - 1];
  }

  lemma {:induction false} ValueOfNatToString(n: nat)
    ensures ValueOf(NatToString(n)) == n
  {
    var s := NatToString(n);
    if n >= 10 {
      ValueOfNatToString(n / 10);
      assert s[..|s| - 1] == NatToString(n / 10);
    }
  }

  /** `str(n)` is defined: the magnitude has at most `MaxStrDigits` digits. */
  predicate WithinStrLimit(n: int) {
    |NatToString(if n < 0 then -n else n)| <= MaxStrDigits
  }

  /** A numeral without underscores has as many digits as characters. */
  lemma {:induction false} DigitCountOfDigits(s: string)
    requires AllDigits(s)
    ensures DigitCount(s) == |s|
  {
    if s != [] {
      DigitCountOfDigits(s[..|s| - 1]);
    }
  }

  function Pow10(k: nat): nat {
    if k == 0 then 1 else 10 * Pow10(k - 1)
  }

  /** A number below 10^k has at most k digits (k >= 1). */
  lemma {:induction false} NatToStringLength(n: nat, k: nat)
    requires 1 <= k && n < Pow10(k)
    ensures |NatToString(n)| <= k
  {
    if n >= 10 {
      assert n / 10 < Pow10(k - 1);
      NatToStringLength(n / 10, k - 1);
    }
  }

  /** Every 64-bit integer, in particular every stored age and every COUNT, has a `str`. */
  lemma Int64WithinStrLimit(n: int)
    requires -0x8000_0000_0000_0000 <= n <= 0x7FFF_FFFF_FFFF_FFFF
    ensures |NatToString(if n < 0 then -n else n)| <= 19
    ensures WithinStrLimit(n)
  {
    assert Pow10(5) == 100_000;
    assert Pow10(10) == 10_000_000_000;
    assert Pow10(15) == 1_000_000_000_000_000;
    assert Pow10(19) == 10_000_000_000_000_000_000;
    NatToStringLength(if n < 0 then -n else n, 19);
  }

  /** A numeral `str` produces is read back by `int` as the same number. */
  lemma ParseIntRoundTrip(n: int)
    requires WithinStrLimit(n)
    ensures ParseInt(IntToString(n)) == Some(n)
  {
    var s := IntToString(n);
    var m: nat := if n < 0 then -n else n;
    var digits := NatToString(m);
    assert IsDigitRun(digits);
    DigitCountOfDigits(digits);
    ValueOfNatToString(m);
    if n < 0 {
      assert s == "-" + digits;
      assert Trimmed(s) by { assert s[|s| - 1] == digits[|digits| - 1]; }
      IntStripOfTrimmed(s);
      assert s[1..] == digits;
    } else {
      assert s == digits;
      assert Trimmed(s);
      IntStripOfTrimmed(s);
      assert !(s[0] == '+' || s[0] == '-');
    }
  }

  // ---------------------------------------------------------------------------
  // Padding: format(s, '<w')
  // ---------------------------------------------------------------------------

  function Repeat(c: char, n: nat): (r: string)
    ensures |r| == n && forall i :: 0 <= i < n ==> r[i] == c
  {
    seq(n, _ => c)
  }

  /** Python's `f"{s:<width}"`: left-justify with spaces, never truncate. */
  function PadRight(s: string, width: nat): (r: string)
    ensures |r| == if |s| < width then width else |s|
    ensures r[..|s|] == s
    ensures forall i :: |s| <= i < |r| ==> r[i] == ' '
  {
    if |s| < width then s + Repeat(' ', width - |s|) else s
  }

  // ---------------------------------------------------------------------------
  // SQLite: LIKE '%term%' and the BINARY collation
  // ---------------------------------------------------------------------------

  /** SQLite's LIKE folds case for the 26 ASCII letters only. */
  function LowerAscii(c: char): char {
    if 'A' <= c <= 'Z' then (c as int + 32) as char else c
  }

  /** `term` occurs in `s` at offset `i`, up to ASCII case. */
  predicate OccursAt(s: string, term: string, i: int) {
    0 <= i && i + |term| <= |s|
    && forall k :: 0 <= k < |term| ==> LowerAscii(s[i + k]) == LowerAscii(term[k])
  }

  /** `s LIKE '%' || term || '%'` when `term` holds no wildcard characters. */
  predicate ContainsIgnoringCase(s: string, term: string)
  {
    OccursAt(s, term, 0) || (s != [] && ContainsIgnoringCase(s[1..], term))
  }

  lemma {:induction false} ContainsIgnoringCaseIffOccurs(s: string, term: string)
    ensures ContainsIgnoringCase(s, term) <==> exists i :: OccursAt(s, term, i)
  {
    if s != [] {
      ContainsIgnoringCaseIffOccurs(s[1..], term);
      if i :| OccursAt(s[1..], term, i) {
        assert OccursAt(s, term, i + 1);
      }
      if i :| OccursAt(s, term, i) {
        if i > 0 { assert OccursAt(s[1..], term, i - 1); }
      }
    } else {
      if i :| OccursAt(s, term, i) {
        assert i == 0;
      }
    }
  }

  /** Every string matches the empty term. */
  lemma ContainsEmpty(s: string)
    ensures ContainsIgnoringCase(s, "")
  {
  }

  /**
   * The order of SQLite's BINARY collation on text: character by character on code
   * points, a proper prefix first.
   */
  predicate NameLe(a: string, b: string)
  {
    a == [] || (b != [] && (a[0] < b[0] || (a[0] == b[0] && NameLe(a[1..], b[1..]))))
  }

  lemma {:induction false} NameLeTotal(a: string, b: string)
    ensures NameLe(a, b) || NameLe(b, a)
  {
    if a != [] && b != [] && a[0] == b[0] {
      NameLeTotal(a[1..], b[1..]);
    }
  }

  lemma {:induction false} NameLeTransitive(a: string, b: string, c: string)
    requires NameLe(a, b) && NameLe(b, c)
    ensures NameLe(a, c)
  {
    if a != [] && b != [] && c != [] && a[0] == b[0] && b[0] == c[0] {
      NameLeTransitive(a[1..], b[1..], c[1..]);
    }
  }

  lemma {:induction false} NameLeAntisymmetric(a: string, b: string)
    requires NameLe(a, b) && NameLe(b, a)
    ensures a == b
  {
    if a != [] && b != [] {
      NameLeAntisymmetric(a[1..], b[1..]);
    }
  }
}
