/**
 * The Brazilian CPF number as the registry handles it: stored as its 11 digits,
 * shown with the mask XXX.XXX.XXX-XX, typed by users with or without the mask.
 * Only the format is checked, never the two check digits.
 */
module Cpf {
  import opened Text

  /** `re.sub(r'\D', '', s)`: the digits of `s`, in their order. */
  function Digits(s: string): (r: string)
    ensures |r| <= |s| && AllDigits(r)
  {
    if s == [] then []
    else (if IsDigit(s[0]) then [s[0]] else []) + Digits(s[1..])
  }

  /** The digit string holds every digit of the text and no other character. */
  lemma {:induction false} DigitsMembers(s: string)
    ensures forall c :: c in Digits(s) <==> c in s && IsDigit(c)
  {
    if s != [] {
      DigitsMembers(s[1..]);
      assert forall c :: c in s <==> c == s[0] || c in s[1..];
    }
  }

  /** The stored (canonical) form: exactly 11 ASCII digits. */
  predicate IsCanonical(s: string) { |s| == 11 && AllDigits(s) }

  /**
   * `validar_cpf_formato`: accepts the input when exactly 11 digits remain once every
   * non-digit is dropped, and returns those digits; otherwise `(false, "")`.
   */
  function ValidateFormat(cpf: string): (r: (bool, string))
    ensures r.0 <==> |Digits(cpf)| == 11
    ensures r.0 ==> r.1 == Digits(cpf) && IsCanonical(r.1)
    ensures !r.0 ==> r.1 == ""
  {
    var digits := Digits(cpf);
    if |digits| == 11 then (true, digits) else (false, "")
  }

  /**
   * `formatar_cpf_exibicao`: the display mask for a canonical CPF; any other text
   * (empty, another length, a non-digit) is passed through as it is.
   */
  function FormatDisplay(cpf: string): (r: string)
    ensures IsCanonical(cpf) ==>
      && |r| == 14 && r[3] == '.' && r[7] == '.' && r[11] == '-'
      && r[..3] == cpf[..3] && r[4..7] == cpf[3..6] && r[8..11] == cpf[6..9] && r[12..] == cpf[9..]
    ensures !IsCanonical(cpf) ==> r == cpf
  {
    if cpf != [] && |cpf| == 11 && AllDigits(cpf) then
      cpf[..3] + "." + cpf[3..6] + "." + cpf[6..9] + "-" + cpf[9..]
    else cpf
  }

  /** Dropping non-digits works piece by piece. */
  lemma {:induction false} DigitsAppend(a: string, b: string)
    ensures Digits(a + b) == Digits(a) + Digits(b)
  {
    if a != [] {
      assert (a + b)[1..] == a[1..] + b;
      DigitsAppend(a[1..], b);
    } else {
      assert a + b == b;
    }
  }

  /** A string of digits is its own digit string. */
  lemma {:induction false} DigitsOfDigits(s: string)
    requires AllDigits(s)
    ensures Digits(s) == s
  {
    if s != [] {
      DigitsOfDigits(s[1..]);
    }
  }

  /** Keeping only the digits is idempotent. */
  lemma DigitsIdempotent(s: string)
    ensures Digits(Digits(s)) == Digits(s)
  {
    DigitsOfDigits(Digits(s));
  }

  /** Stripping the non-digits of a displayed CPF gives back the stored CPF. */
  lemma StripDisplayRoundTrip(cpf: string)
    requires IsCanonical(cpf)
    ensures Digits(FormatDisplay(cpf)) == cpf
  {
    var a, b, c, d := cpf[..3], cpf[3..6], cpf[6..9], cpf[9..];
    assert FormatDisplay(cpf) == a + "." + b + "." + c + "-" + d;
    DigitsOfDigits(a);
    DigitsAcrossSeparator(a, '.', b);
    DigitsAcrossSeparator(a + "." + b, '.', c);
    DigitsAcrossSeparator(a + "." + b + "." + c, '-', d);
    assert cpf == a + b + c + d;
  }

  /** A separator between some text and a digit run contributes nothing to the digits. */
  lemma DigitsAcrossSeparator(x: string, sep: char, y: string)
    requires !IsDigit(sep) && AllDigits(y)
    ensures Digits(x + [sep] + y) == Digits(x) + y
  {
    DigitsAppend(x + [sep], y);
    DigitsAppend(x, [sep]);
    DigitsOfDigits(y);
  }

  /** A displayed CPF, typed back into any CPF prompt, validates to the stored CPF. */
  lemma ValidateDisplayed(cpf: string)
    requires IsCanonical(cpf)
    ensures ValidateFormat(FormatDisplay(cpf)) == (true, cpf)
  {
    StripDisplayRoundTrip(cpf);
  }

  /** Validating an already validated CPF changes nothing. */
  lemma ValidateIdempotent(cpf: string)
    requires ValidateFormat(cpf).0
    ensures ValidateFormat(ValidateFormat(cpf).1) == ValidateFormat(cpf)
  {
    DigitsIdempotent(cpf);
  }

  /** The display mask never shows two stored CPFs alike. */
  lemma FormatDisplayInjective(a: string, b: string)
    requires IsCanonical(a) && IsCanonical(b)
    requires FormatDisplay(a) == FormatDisplay(b)
    ensures a == b
  {
    StripDisplayRoundTrip(a);
    StripDisplayRoundTrip(b);
  }
}
