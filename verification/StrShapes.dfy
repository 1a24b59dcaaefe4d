/**
 * Parsing (lib_str.c) told from the text itself: what comes of white space, an optional sign, an optional prefix,
 * digits, and whatever follows.
 */
module StrShapes {
  import opened Arith
  import opened Ascii
  import StrFmt
  import opened StrParse
  import opened StrRoundTrip

  predicate Blank(ws: string) { forall k :: 0 <= k < |ws| ==> ws[k] as int in {9, 10, 11, 12, 13, 32} }

  /** A number's text ends here. */
  predicate NoDigit(tail: string, base: int) { tail == "" || !IsDigitOf(tail[0], base) }

  /** "x" or "X" with a hexadecimal digit behind it. */
  predicate HexFollows(tail: string) { |tail| >= 2 && tail[0] in "xX" && IsDigitOf(tail[1], 16) }

  /** What follows white space and sign is neither. */
  predicate Begins(sgn: string, rest: string)
  {
    sgn != "" || rest == "" || !(IsSpace(rest[0]) || rest[0] in "+-")
  }

  lemma {:induction false} RunEndAt(t: string, i: nat, j: nat, base: int)
    requires i <= j <= |t| && (forall k :: i <= k < j ==> IsDigitOf(t[k], base)) && !IsDigitOf(At(t, j), base)
    ensures RunEnd(t, i, base) == j
    decreases j - i
  {
    if i < j { RunEndAt(t, i + 1, j, base); }
  }

  /** White space and sign are skipped; only a minus makes a number negative. */
  lemma Signed(ws: string, sgn: string, rest: string, signed: bool)
    requires Blank(ws) && sgn in {"", "+", "-"} && (sgn == "-" ==> signed) && Begins(sgn, rest)
    ensures var t := ws + sgn + rest;
            SkipSpace(t, 0) == |ws| && SkipSign(t, |ws|, signed) == (|ws + sgn|, sgn == "-")
  {
    var t := ws + sgn + rest;
    forall k | 0 <= k < |ws| ensures IsSpace(t[k]) { assert t[k] == ws[k]; }
    assert At(t, |ws|) == if sgn != "" then sgn[0] else At(rest, 0);
    SkipSpaceAll(t, 0, |ws|);
  }

  /** A prefix is recognised wherever it stands. */
  lemma PrefixFrom(lead: string, rest: string, base: int)
    ensures var (start, radix) := SkipPrefix(rest, 0, base);
            SkipPrefix(lead + rest, |lead|, base) == (|lead| + start, radix)
  {
    var t, i := lead + rest, |lead|;
    assert At(t, i) == At(rest, 0) && At(t, i + 1) == At(rest, 1) && At(t, i + 2) == At(rest, 2);
  }

  /** Digits ds of the radix behind a prefix of p characters. */
  lemma Digested(ws: string, sgn: string, pre: string, ds: string, tail: string, base: nat, radix: int, signed: bool)
    requires base == 0 || 2 <= base <= 36
    requires 2 <= radix <= 36 && AllDigits(ds, radix) && NoDigit(tail, radix)
    requires Blank(ws) && sgn in {"", "+", "-"} && (sgn == "-" ==> signed) && Begins(sgn, pre + ds + tail)
    requires SkipPrefix(pre + ds + tail, 0, base) == (|pre|, radix)
    ensures var end := |ws + sgn + pre + ds|;
            Parsed(ws + sgn + (pre + ds + tail), base, signed)
            == Parse(Min(NumberOf(ds, radix), UINT_MAX), if pre + ds != "" then end else 0, sgn == "-")
  {
    hide SkipSpace, SkipSign, SkipPrefix, RunEnd, NumberOf, IsDigitOf, At, Parsed;
    var t, start := ws + sgn + (pre + ds + tail), |ws + sgn + pre|;
    Signed(ws, sgn, pre + ds + tail, signed);
    PrefixFrom(ws + sgn, pre + ds + tail, base);
    Slices(ws + sgn, pre, ds, tail);
    assert (ws + sgn) + (pre + ds + tail) == t;
    EndsDigits(tail, radix);
    RunEndAt(t, start, start + |ds|, radix);
    ParsedIs(t, base, signed, |ws|, |ws + sgn|, sgn == "-", start, radix);
  }

  lemma Slices(lead: string, pre: string, ds: string, tail: string)
    ensures var t, start := lead + (pre + ds + tail), |lead + pre|;
            && t[start..start + |ds|] == ds && At(t, start + |ds|) == At(tail, 0)
            && forall k :: start <= k < start + |ds| ==> t[k] == ds[k - start]
  {}

  lemma EndsDigits(tail: string, base: int)
    requires NoDigit(tail, base)
    ensures !IsDigitOf(At(tail, 0), base)
  {}

  /** The number from its parts. */
  lemma ParsedIs(t: string, base: nat, signed: bool, a: nat, i: nat, neg: bool, start: nat, radix: int)
    requires base == 0 || 2 <= base <= 36
    requires a <= |t| && i <= |t| && start <= |t|
    requires SkipSpace(t, 0) == a && SkipSign(t, a, signed) == (i, neg) && SkipPrefix(t, i, base) == (start, radix)
    ensures var end := RunEnd(t, start, radix);
            Parsed(t, base, signed)
            == Parse(Min(NumberOf(t[start..end], radix), UINT_MAX), if end != i then end else 0, neg)
  {
    hide SkipSpace, SkipSign, SkipPrefix, RunEnd, NumberOf;
  }

  /** Digits in a given base; a "0x" may stand before them in base 16 and is then no zero. */
  lemma ParsedPlain(ws: string, sgn: string, ds: string, tail: string, base: nat, signed: bool)
    requires 2 <= base <= 36 && ds != "" && AllDigits(ds, base) && NoDigit(tail, base)
    requires Blank(ws) && sgn in {"", "+", "-"} && (sgn == "-" ==> signed)
    requires !(base == 16 && ds == "0" && HexFollows(tail))
    ensures Parsed(ws + sgn + (ds + tail), base, signed)
            == Parse(Min(NumberOf(ds, base), UINT_MAX), |ws + sgn + ds|, sgn == "-")
  {
    hide SkipPrefix, NumberOf, Parsed;
    assert IsDigitOf(ds[0], base);
    if (base == 8 || base == 16) && ds[0] == '0' {
      var more := ds[1..];
      ZeroSkipped(ds, tail, base);
      assert "0" + more == ds && "0" + more + tail == ds + tail;
      Digested(ws, sgn, "0", more, tail, base, base, signed);
      LeadingZero(more, base);
    } else {
      assert "" + ds + tail == ds + tail;
      NoPrefix(ds + tail, base);
      Digested(ws, sgn, "", ds, tail, base, base, signed);
    }
  }

  /** In bases 8 and 16 a first zero is taken for a prefix. */
  lemma ZeroSkipped(ds: string, tail: string, base: nat)
    requires (base == 8 || base == 16) && ds != "" && AllDigits(ds, base) && ds[0] == '0'
    requires !(base == 16 && ds == "0" && HexFollows(tail))
    ensures SkipPrefix(ds + tail, 0, base) == (1, base)
  {
    if |ds| > 1 { assert IsDigitOf(ds[1], base); }
  }

  lemma NoPrefix(rest: string, base: nat)
    requires base == 0 || 2 <= base <= 36
    ensures (base != 0 && base != 8 && base != 16) || At(rest, 0) != '0' ==>
              SkipPrefix(rest, 0, base) == (0, if base == 0 then 10 else base)
  {}

  lemma LeadingZero(ds: string, base: int)
    requires base >= 2 && AllDigits(ds, base)
    ensures AllDigits("0" + ds, base) && NumberOf("0" + ds, base) == NumberOf(ds, base)
  {
    assert StrFmt.Repeat('0', 1) + ds == "0" + ds;
    LeadingZeros(1, ds, base);
  }

  /** "0x" or "0X" and hexadecimal digits, in base 16 or in none. */
  lemma ParsedHex(ws: string, sgn: string, x: char, ds: string, tail: string, base: nat, signed: bool)
    requires (base == 0 || base == 16) && x in "xX" && ds != "" && AllDigits(ds, 16) && NoDigit(tail, 16)
    requires Blank(ws) && sgn in {"", "+", "-"} && (sgn == "-" ==> signed)
    ensures Parsed(ws + sgn + (['0', x] + ds + tail), base, signed)
            == Parse(Min(NumberOf(ds, 16), UINT_MAX), |ws + sgn + ['0', x] + ds|, sgn == "-")
  {
    hide NumberOf, Parsed;
    assert IsDigitOf(ds[0], 16);
    assert (['0', x] + ds + tail)[2] == ds[0];
    Digested(ws, sgn, ['0', x], ds, tail, base, 16, signed);
  }

  /** Without a base, any other zero in front makes the number octal. */
  lemma ParsedOctal(ws: string, sgn: string, ds: string, tail: string, signed: bool)
    requires AllDigits(ds, 8) && NoDigit(tail, 8) && !(ds == "" && |tail| >= 1 && tail[0] in "xX")
    requires Blank(ws) && sgn in {"", "+", "-"} && (sgn == "-" ==> signed)
    ensures Parsed(ws + sgn + ("0" + ds + tail), 0, signed)
            == Parse(Min(NumberOf(ds, 8), UINT_MAX), |ws + sgn + "0" + ds|, sgn == "-")
  {
    hide NumberOf, Parsed;
    if ds != "" { assert IsDigitOf(ds[0], 8); }
    Digested(ws, sgn, "0", ds, tail, 0, 8, signed);
  }

  /** Without a base or in base 16, an "0x" with no hexadecimal digit behind it is a zero, and the x is not taken. */
  lemma ParsedZero(ws: string, sgn: string, x: char, tail: string, base: nat, signed: bool)
    requires (base == 0 || base == 16) && x in "xX" && NoDigit(tail, 16)
    requires Blank(ws) && sgn in {"", "+", "-"} && (sgn == "-" ==> signed)
    ensures Parsed(ws + sgn + ("0" + "" + ([x] + tail)), base, signed) == Parse(0, |ws + sgn| + 1, sgn == "-")
  {
    hide Parsed;
    Digested(ws, sgn, "0", "", [x] + tail, base, 16, signed);
  }

  /** Without a base, a number that does not begin with a zero is decimal. */
  lemma ParsedDecimal(ws: string, sgn: string, ds: string, tail: string, signed: bool)
    requires ds != "" && ds[0] != '0' && AllDigits(ds, 10) && NoDigit(tail, 10)
    requires Blank(ws) && sgn in {"", "+", "-"} && (sgn == "-" ==> signed)
    ensures Parsed(ws + sgn + (ds + tail), 0, signed)
            == Parse(Min(NumberOf(ds, 10), UINT_MAX), |ws + sgn + ds|, sgn == "-")
  {
    hide NumberOf, Parsed, SkipPrefix;
    assert IsDigitOf(ds[0], 10);
    assert "" + ds + tail == ds + tail;
    NoPrefix(ds + tail, 0);
    Digested(ws, sgn, "", ds, tail, 0, 10, signed);
  }

  /** Without a digit there is no number, and the position returned is the string's start. */
  lemma ParsedNothing(ws: string, sgn: string, tail: string, base: nat, signed: bool)
    requires (base == 0 || 2 <= base <= 36) && NoDigit(tail, if base == 0 then 10 else base)
    requires Blank(ws) && sgn in {"", "+", "-"} && (sgn == "-" ==> signed) && Begins(sgn, tail)
    ensures Parsed(ws + sgn + tail, base, signed) == Parse(0, 0, sgn == "-")
  {
    hide Parsed, SkipPrefix;
    assert "" + "" + tail == tail;
    NoPrefix(tail, base);
    Digested(ws, sgn, "", "", tail, base, if base == 0 then 10 else base, signed);
  }

  /** A minus before an unsigned number is noticed, but nothing is parsed; nor is anything in a base that is none. */
  lemma ParsedRefused(ws: string, tail: string, base: nat)
    requires Blank(ws)
    ensures base == 0 || 2 <= base <= 36 ==> Parsed(ws + "-" + tail, base, false) == Parse(0, 0, true)
    ensures forall t, signed :: base == 1 || base > 36 ==> Parsed(t, base, signed) == Parse(0, 0, false)
  {
    if base == 0 || 2 <= base <= 36 {
      var t := ws + "-" + tail;
      forall k | 0 <= k < |ws| ensures IsSpace(t[k]) { assert t[k] == ws[k]; }
      SkipSpaceAll(t, 0, |ws|);
      NumberOfNone(t, |ws|, if base == 0 then 10 else base);
      RunEndAt(t, |ws|, |ws|, if base == 0 then 10 else base);
    }
  }

  /** The signed form's result for such a number: the value, clamped to the signed 32-bit range. */
  lemma SignedOfShape(ds: string, base: int, neg: bool)
    requires 2 <= base <= 36 && AllDigits(ds, base)
    ensures var n: int := NumberOf(ds, base);
            var v := if neg then -n else n;
            SignedOf(Min(NumberOf(ds, base), UINT_MAX), neg)
            == if v > 0x7FFF_FFFF then 0x7FFF_FFFF else if v < -0x8000_0000 then -0x8000_0000 else v
  {
    hide NumberOf;
  }
}
