/** Formatting and parsing (lib_str.c) against each other, and parsing against the standard's strtol(). */
module StrRoundTrip {
  import opened Arith
  import opened Ascii
  import opened StrFmt
  import opened StrParse

  ghost predicate AllDigits(ds: string, base: int)
  {
    forall k :: 0 <= k < |ds| ==> IsDigitOf(ds[k], base)
  }

  // ----- numerals denote their numbers -----

  lemma {:induction false} NumeralDigits(n: nat, base: int, lower: bool)
    requires 2 <= base <= 36
    ensures AllDigits(Numeral(n, base, lower), base)
    decreases n
  {
    if n >= base {
      QuotientIsLess(n, base);
      NumeralDigits(n / base, base, lower);
    }
  }

  lemma {:induction false} NumberOfNumeral(n: nat, base: int, lower: bool)
    requires 2 <= base <= 36
    ensures AllDigits(Numeral(n, base, lower), base)
    ensures NumberOf(Numeral(n, base, lower), base) == n
    decreases n
  {
    hide DigChar, DigVal, IsDigitOf, NumberOf;
    NumeralDigits(n, base, lower);
    if n >= base {
      QuotientIsLess(n, base);
      NumberOfNumeral(n / base, base, lower);
      Rebuilt(n, base);
      NumberOfAppend(Numeral(n / base, base, lower), n % base, base, lower);
    } else {
      NumberOfDigit(n, base, lower);
    }
  }

  lemma NumberOfDigit(d: int, base: int, lower: bool)
    requires 2 <= base <= 36 && 0 <= d < base
    ensures NumberOf([DigChar(d, lower)], base) == d
  {
    NumberOfAppend("", d, base, lower);
    assert "" + [DigChar(d, lower)] == [DigChar(d, lower)];
  }

  lemma NumberOfAppend(ds: string, d: int, base: int, lower: bool)
    requires 2 <= base <= 36 && 0 <= d < base && AllDigits(ds, base)
    ensures AllDigits(ds + [DigChar(d, lower)], base)
    ensures NumberOf(ds + [DigChar(d, lower)], base) == NumberOf(ds, base) * base + d
  {
    var s := ds + [DigChar(d, lower)];
    assert s[..|s| - 1] == ds;
  }

  lemma Rebuilt(n: int, base: int)
    requires base > 0
    ensures n / base * base + n % base == n
  {
    DivMod(n, base);
  }

  /** Zeros in front change nothing. */
  lemma {:induction false} LeadingZeros(k: nat, ds: string, base: int)
    requires base >= 2 && AllDigits(ds, base)
    ensures AllDigits(Repeat('0', k) + ds, base)
    ensures NumberOf(Repeat('0', k) + ds, base) == NumberOf(ds, base)
    decreases k + |ds|
  {
    var s := Repeat('0', k) + ds;
    if ds != "" {
      LeadingZeros(k, ds[..|ds| - 1], base);
      assert s[..|s| - 1] == Repeat('0', k) + ds[..|ds| - 1];
    } else if k > 0 {
      LeadingZeros(k - 1, "", base);
      assert s[..|s| - 1] == Repeat('0', k - 1) + "";
    }
  }

  // ----- parsing a string of known shape -----

  lemma {:induction false} SkipSpaceAll(t: string, i: nat, j: nat)
    requires i <= j <= |t| && (forall k :: i <= k < j ==> IsSpace(t[k])) && !IsSpace(At(t, j))
    ensures SkipSpace(t, i) == j
    decreases j - i
  {
    if i < j { SkipSpaceAll(t, i + 1, j); }
  }

  lemma {:induction false} RunEndAll(t: string, i: nat, base: int)
    requires i <= |t| && forall k :: i <= k < |t| ==> IsDigitOf(t[k], base)
    ensures RunEnd(t, i, base) == |t|
    decreases |t| - i
  {
    if i < |t| { RunEndAll(t, i + 1, base); }
  }

  /** Blanks, an optional minus, and digits of the base up to the end: everything is consumed. */
  lemma ParsedWhole(blanks: string, neg: bool, ds: string, base: int, signed: bool)
    requires 2 <= base <= 36 && AllDigits(ds, base) && |ds| >= 1 && (neg ==> signed)
    requires forall k :: 0 <= k < |blanks| ==> blanks[k] == ' '
    requires forall k :: 0 <= k < |ds| ==> base > 16 || (ds[k] != 'x' && ds[k] != 'X')
    ensures var t := blanks + Sign(neg) + ds;
            Parsed(t, base, signed) == Parse(Min(NumberOf(ds, base), UINT_MAX), |t|, neg)
  {
    hide NumberOf, SkipSpace, SkipSign, SkipPrefix, RunEnd, Sign;
    var t, i := blanks + Sign(neg) + ds, |blanks + Sign(neg)|;
    var start := ParsedPrefix(blanks, neg, ds, base, signed);
    forall k | start <= k < |t| ensures IsDigitOf(t[k], base) {
      assert t[k] == ds[k - i];
    }
    RunEndAll(t, start, base);
    assert t[start..|t|] == ds[start - i..];
    if start == i {
      assert ds[0..] == ds;
    } else {
      assert Repeat('0', 1) + ds[1..] == ds;
      LeadingZeros(1, ds[1..], base);
    }
  }

  /** The digits start behind blanks and sign, except that in bases 8 and 16 a first zero is taken for a prefix. */
  lemma ParsedPrefix(blanks: string, neg: bool, ds: string, base: int, signed: bool) returns (start: nat)
    requires 2 <= base <= 36 && AllDigits(ds, base) && |ds| >= 1 && (neg ==> signed)
    requires forall k :: 0 <= k < |blanks| ==> blanks[k] == ' '
    requires forall k :: 0 <= k < |ds| ==> base > 16 || (ds[k] != 'x' && ds[k] != 'X')
    ensures var t, i := blanks + Sign(neg) + ds, |blanks + Sign(neg)|;
            && SkipSpace(t, 0) == |blanks|
            && SkipSign(t, |blanks|, signed) == (i, neg)
            && SkipPrefix(t, i, base) == (start, base)
            && (start == i || (start == i + 1 && ds[0] == '0'))
  {
    var t, b, i := blanks + Sign(neg) + ds, |blanks|, |blanks + Sign(neg)|;
    assert IsDigitOf(ds[0], base);
    assert At(t, i) == ds[0] && At(t, i + 1) == At(ds, 1);
    assert neg ==> t[b] == '-';
    SkipSpaceAll(t, 0, b);
    start := SkipPrefix(t, i, base).0;
  }

  /** A formatted string is blanks, sign and digits, the digits denoting the number. */
  lemma FormattedShape(nbr: nat, nbrDig: nat, base: int, neg: bool, lead: char, lower: bool)
    returns (blanks: string, ds: string)
    requires lead == NUL || lead == ' ' || lead == '0'
    requires Formatted(nbr, nbrDig, base, neg, lead, lower).Some?
    ensures 2 <= base <= 36
    ensures Formatted(nbr, nbrDig, base, neg, lead, lower).value == blanks + Sign(neg) + ds
    ensures |ds| >= 1 && AllDigits(ds, base) && NumberOf(ds, base) == nbr
    ensures forall k :: 0 <= k < |blanks| ==> blanks[k] == ' '
    ensures forall k :: 0 <= k < |ds| ==> base > 16 || (ds[k] != 'x' && ds[k] != 'X')
  {
    hide NumberOf, Numeral;
    var num := Numeral(nbr, base, lower);
    NumberOfNumeral(nbr, base, lower);
    var k := nbrDig - |num| - |Sign(neg)|;
    blanks, ds := if lead == ' ' then Repeat(' ', k) else "", if lead == '0' then Repeat('0', k) + num else num;
    if lead == '0' { LeadingZeros(k, num, base); }
    NoPrefixLetter(ds, base);
    assert Formatted(nbr, nbrDig, base, neg, lead, lower).value == blanks + Sign(neg) + ds;
  }

  lemma NoPrefixLetter(ds: string, base: int)
    requires AllDigits(ds, base)
    ensures forall k :: 0 <= k < |ds| ==> base > 16 || (ds[k] != 'x' && ds[k] != 'X')
  {
    forall k | 0 <= k < |ds| ensures base > 16 || (ds[k] != 'x' && ds[k] != 'X') {
      assert IsDigitOf(ds[k], base);
    }
  }

  /** Whatever is formatted in a base is parsed back in that base, to the last character. */
  lemma RoundTrip(nbr: nat, nbrDig: nat, base: int, neg: bool, lead: char, lower: bool, signed: bool)
    requires nbr <= UINT_MAX && (lead == NUL || lead == ' ' || lead == '0') && (neg ==> signed)
    requires Formatted(nbr, nbrDig, base, neg, lead, lower).Some?
    ensures var t := Formatted(nbr, nbrDig, base, neg, lead, lower).value;
            Parsed(t, base, signed) == Parse(nbr, |t|, neg)
  {
    hide Formatted, Parsed, NumberOf;
    var blanks, ds := FormattedShape(nbr, nbrDig, base, neg, lead, lower);
    ParsedWhole(blanks, neg, ds, base, signed);
  }

  lemma RoundTripUnsigned(nbr: int, nbrDig: nat, base: int, lead: char, lower: bool)
    requires 0 <= nbr < U32 && (lead == NUL || lead == ' ' || lead == '0')
    requires FormattedU(nbr, nbrDig, base, lead, lower).Some?
    ensures var t := FormattedU(nbr, nbrDig, base, lead, lower).value;
            var r := Parsed(t, base, false);
            r.nbr == nbr && r.next == |t|
  {
    RoundTrip(nbr, nbrDig, base, false, lead, lower, false);
  }

  /** Every signed number, the smallest included, survives formatting and parsing. */
  lemma RoundTripSigned(nbr: int, nbrDig: nat, base: int, lead: char, lower: bool)
    requires INT_MIN <= nbr <= INT_MAX && (lead == NUL || lead == ' ' || lead == '0')
    requires FormattedS(nbr, nbrDig, base, lead, lower).Some?
    ensures var t := FormattedS(nbr, nbrDig, base, lead, lower).value;
            var r := Parsed(t, base, true);
            SignedOf(r.nbr, r.neg) == nbr && r.next == |t|
  {
    RoundTrip(Magnitude(nbr), nbrDig, base, nbr < 0, lead, lower, true);
  }

  // ----- enough digits -----

  lemma {:induction false} PowerGrows(base: int, d: nat)
    requires base >= 2 && d >= 1
    ensures Power(base, d) >= base
  {
    if d > 1 {
      PowerGrows(base, d - 1);
      MulMonotonic(base, 1, Power(base, d - 1));
    }
  }

  lemma QuotientBelow(n: nat, base: int, p: int)
    requires base > 0
    ensures n / base < p <==> n < base * p
  {
    DivMod(n, base);
    if n / base < p { MulMonotonic(base, n / base + 1, p); } else { MulMonotonic(base, p, n / base); }
  }

  /** The numbers with at most d digits are those below the d-th power of the base. */
  lemma {:induction false} NumeralWidth(n: nat, base: int, lower: bool, d: nat)
    requires 2 <= base <= 36 && d >= 1
    ensures |Numeral(n, base, lower)| <= d <==> n < Power(base, d)
    decreases d
  {
    if n < base {
      PowerGrows(base, d);
    } else {
      QuotientIsLess(n, base);
      QuotientBelow(n, base, Power(base, d - 1));
      if d > 1 { NumeralWidth(n / base, base, lower, d - 1); } else { OneDigit(n, base, lower); }
    }
  }

  lemma OneDigit(n: nat, base: int, lower: bool)
    requires 2 <= base <= 36 && n >= base
    ensures |Numeral(n, base, lower)| > 1 && n >= Power(base, 1)
  {}

  lemma FormattedFits(nbr: nat, nbrDig: nat, base: int, neg: bool, lead: char, lower: bool)
    requires 2 <= base <= 36 && LeadOk(lead, base, lower)
    ensures var d := nbrDig - (if neg then 1 else 0);
            Formatted(nbr, nbrDig, base, neg, lead, lower).Some? <==> d >= 1 && nbr < Power(base, d)
  {
    hide Numeral, LeadOk;
    var d := nbrDig - (if neg then 1 else 0);
    if d >= 1 { NumeralWidth(nbr, base, lower, d); }
  }

  /**
   * A number is formatted if and only if the base is one from 2 to 36, the number is below the power of the base that
   * the digits leave room for, and the lead character is NUL, '0', or printable and no digit of the base in the letter
   * case asked for.
   */
  lemma FormattedIff(nbr: nat, nbrDig: nat, base: int, neg: bool, lead: char, lower: bool)
    ensures var d := nbrDig - (if neg then 1 else 0);
            Formatted(nbr, nbrDig, base, neg, lead, lower).Some? <==>
            && 2 <= base <= 36 && d >= 1 && nbr < Power(base, d)
            && (lead == '\0' || lead == '0'
                || (' ' <= lead <= '~' && forall k :: 0 <= k < base ==> lead != DigChar(k, lower)))
  {
    hide Numeral, Power, LeadDigit, DigChar;
    if 2 <= base <= 36 {
      if IsPrint(lead) { LeadDigitIff(lead, base, lower); }
      if LeadOk(lead, base, lower) { FormattedFits(nbr, nbrDig, base, neg, lead, lower); }
    }
  }

  // ----- what a formatted string looks like -----

  lemma {:induction false} NumeralText(n: nat, base: int, lower: bool)
    requires 2 <= base <= 36
    ensures var s := Numeral(n, base, lower);
            && (|s| > 1 ==> s[0] != '0')
            && forall k :: 0 <= k < |s| ==> IsAlphaNum(s[k]) && s[k] == DigChar(DigVal(s[k]), lower)
    decreases n
  {
    DigitText(n % base, lower);
    if n >= base {
      QuotientIsLess(n, base);
      NumeralText(n / base, base, lower);
      if n / base < base { DigitText(n / base, lower); }
    }
  }

  lemma DigitText(d: int, lower: bool)
    requires 0 <= d < 36
    ensures var c := DigChar(d, lower);
            IsAlphaNum(c) && DigVal(c) == d && (c == '0' <==> d == 0)
  {}

  /**
   * The last m characters are the digits of the number, in the letter case asked for and without leading zeros.
   * Before them stand the sign and the lead characters: as many as make up the number of characters asked for,
   * the minus in front of zeros and behind other lead characters; none if the lead character is NUL.
   */
  lemma FormattedText(nbr: nat, nbrDig: nat, base: int, neg: bool, lead: char, lower: bool) returns (m: nat)
    requires Formatted(nbr, nbrDig, base, neg, lead, lower).Some?
    ensures var s := Formatted(nbr, nbrDig, base, neg, lead, lower).value;
            && 2 <= base <= 36 && 1 <= m <= |s| && AllDigits(s[|s| - m..], base) && NumberOf(s[|s| - m..], base) == nbr
            && (m > 1 ==> s[|s| - m] != '0')
            && (forall k :: |s| - m <= k < |s| ==> IsAlphaNum(s[k]) && s[k] == DigChar(DigVal(s[k]), lower))
            && |s| == (if lead == '\0' then m + (if neg then 1 else 0) else nbrDig)
            && (forall k :: 0 <= k < |s| - m ==>
                  s[k] == if neg && k == (if lead == '0' then 0 else |s| - m - 1) then '-' else lead)
            && (neg ==> |s| > m)
  {
    hide Numeral, LeadOk, NumberOf, DigChar;
    var num := Numeral(nbr, base, lower);
    m := |num|;
    NumberOfNumeral(nbr, base, lower);
    NumeralText(nbr, base, lower);
    var s := Formatted(nbr, nbrDig, base, neg, lead, lower).value;
    assert s[|s| - m..] == num;
    assert forall k :: 0 <= k < m ==> s[|s| - m + k] == num[k];
  }

  /** A signed number without a minus is formatted like an unsigned one; a minus is there exactly if it is negative. */
  lemma SignedText(nbr: int, nbrDig: nat, base: int, lead: char, lower: bool)
    requires INT_MIN <= nbr <= INT_MAX && lead != '-'
    ensures nbr >= 0 ==> FormattedS(nbr, nbrDig, base, lead, lower) == FormattedU(nbr, nbrDig, base, lead, lower)
    ensures FormattedS(nbr, nbrDig, base, lead, lower).Some? ==>
              ('-' in FormattedS(nbr, nbrDig, base, lead, lower).value <==> nbr < 0)
  {
    hide Formatted, DigChar;
    if FormattedS(nbr, nbrDig, base, lead, lower).Some? {
      var m := FormattedText(Magnitude(nbr), nbrDig, base, nbr < 0, lead, lower);
      var s := FormattedS(nbr, nbrDig, base, lead, lower).value;
      if nbr < 0 { assert s[if lead == '0' then 0 else |s| - m - 1] == '-'; }
    }
  }

  /** d digits are enough for every unsigned 32-bit number if and only if the d-th power of the base is. */
  lemma EnoughDigitsUnsigned(d: nat, base: int, lead: char, lower: bool)
    requires 2 <= base <= 36 && LeadOk(lead, base, lower)
    ensures (forall nbr :: 0 <= nbr < U32 ==> FormattedU(nbr, d, base, lead, lower).Some?)
            <==> d >= 1 && U32 <= Power(base, d)
  {
    hide LeadOk, Formatted, Power;
    forall nbr | 0 <= nbr < U32
      ensures FormattedU(nbr, d, base, lead, lower).Some? <==> d >= 1 && nbr < Power(base, d)
    {
      FormattedFits(nbr, d, base, false, lead, lower);
    }
    assert FormattedU(UINT_MAX, d, base, lead, lower).Some? <==> d >= 1 && UINT_MAX < Power(base, d);
  }

  /** For the signed numbers the smallest decides: a sign and the digits of 2^31. */
  lemma EnoughDigitsSigned(d: nat, base: int, lead: char, lower: bool)
    requires 2 <= base <= 36 && LeadOk(lead, base, lower)
    ensures (forall nbr :: INT_MIN <= nbr <= INT_MAX ==> FormattedS(nbr, d, base, lead, lower).Some?)
            <==> d >= 2 && 0x8000_0000 < Power(base, d - 1)
  {
    hide LeadOk, Formatted;
    FormattedFits(0x8000_0000, d, base, true, lead, lower);
    assert FormattedS(INT_MIN, d, base, lead, lower) == Formatted(0x8000_0000, d, base, true, lead, lower);
    if d >= 2 && 0x8000_0000 < Power(base, d - 1) {
      MulMonotonic(Power(base, d - 1), 1, base);
      forall nbr | INT_MIN <= nbr <= INT_MAX ensures FormattedS(nbr, d, base, lead, lower).Some? {
        FormattedFits(Magnitude(nbr), d, base, nbr < 0, lead, lower);
      }
    }
  }

  /** In decimal that is ten digits, and eleven with a sign; one fewer does not do. */
  lemma DecimalDigits(lead: char, lower: bool)
    requires LeadOk(lead, 10, lower)
    ensures forall nbr :: 0 <= nbr < U32 ==> FormattedU(nbr, 10, 10, lead, lower).Some?
    ensures exists nbr :: 0 <= nbr < U32 && FormattedU(nbr, 9, 10, lead, lower) == None
    ensures forall nbr :: INT_MIN <= nbr <= INT_MAX ==> FormattedS(nbr, 11, 10, lead, lower).Some?
    ensures exists nbr :: INT_MIN <= nbr <= INT_MAX && FormattedS(nbr, 10, 10, lead, lower) == None
  {
    hide LeadOk, Formatted, FormattedU, FormattedS, Power;
    PowersOfTen();
    EnoughDigitsUnsigned(10, 10, lead, lower);
    EnoughDigitsUnsigned(9, 10, lead, lower);
    EnoughDigitsSigned(11, 10, lead, lower);
    EnoughDigitsSigned(10, 10, lead, lower);
  }

  lemma PowersOfTen()
    ensures Power(10, 9) == 1_000_000_000 && Power(10, 10) == 10_000_000_000
  {
    assert Power(10, 4) == 10_000;
    assert Power(10, 8) == 100_000_000;
  }

  // ----- against strtol() -----

  /** The number that a string denotes, without any bound. */
  function TrueValue(t: string, base: nat, signed: bool): int
    requires base == 0 || 2 <= base <= 36
  {
    var (i, neg) := SkipSign(t, SkipSpace(t, 0), signed);
    var (start, radix) := SkipPrefix(t, i, base);
    var n: int := NumberOf(t[start..RunEnd(t, start, radix)], radix);
    if neg then -n else n
  }

  /** The signed form returns the true value clamped to the signed 32-bit range. */
  lemma SignedClamps(t: string, base: nat)
    requires base == 0 || 2 <= base <= 36
    ensures var r, v := Parsed(t, base, true), TrueValue(t, base, true);
            SignedOf(r.nbr, r.neg) == if v > INT_MAX then INT_MAX else if v < INT_MIN then INT_MIN else v
  {
    hide NumberOf, SkipPrefix, SkipSpace, RunEnd;
  }

  /**
   * The digits are the longest run possible: they start behind white space, sign and prefix, all belong to the
   * base, and the character behind them does not. With no number there, the position returned is the string's start.
   */
  lemma ParsedMaximal(t: string, base: nat, signed: bool)
    requires base == 0 || 2 <= base <= 36
    ensures var r := Parsed(t, base, signed);
            var (i, neg) := SkipSign(t, SkipSpace(t, 0), signed);
            var (start, radix) := SkipPrefix(t, i, base);
            && 2 <= radix <= 36
            && r.neg == neg
            && (r.next > 0 ==> start <= r.next <= |t| && !IsDigitOf(At(t, r.next), radix)
                               && forall k :: start <= k < r.next ==> IsDigitOf(t[k], radix))
            && (r.next == 0 <==> start == i && !IsDigitOf(At(t, i), radix))
            && (r.next == 0 ==> r.nbr == 0)
  {
    var (i, neg) := SkipSign(t, SkipSpace(t, 0), signed);
    var (start, radix) := SkipPrefix(t, i, base);
    NumberOfNone(t, start, radix);
  }
}
