/** Str_FmtNbr_Int32() and its unsigned and signed forms (lib_str.c). */
module StrFmt {
  import opened Arith
  import opened Ascii

  datatype Option<T> = None | Some(value: T)

  // ----- what is formatted -----

  /** n in positional notation, most significant digit first, without leading zeros. */
  function Numeral(n: nat, base: int, lower: bool): (s: string)
    requires 2 <= base <= 36
    ensures |s| >= 1
    decreases n
  {
    if n < base then [DigChar(n, lower)]
    else (QuotientIsLess(n, base); Numeral(n / base, base, lower) + [DigChar(n % base, lower)])
  }

  lemma QuotientIsLess(n: nat, base: int)
    requires 2 <= base <= n
    ensures 0 < n / base < n
  {
    DivMod(n, base);
  }

  function Repeat(c: char, k: nat): (s: string)
    ensures |s| == k && forall i :: 0 <= i < k ==> s[i] == c
  {
    seq(k, i => c)
  }

  /**
   * The lead character may be NUL, '0', or a printable character that is not a digit of the base (in the letter case
   * asked for).
   */
  predicate LeadOk(lead: char, base: int, lower: bool) {
    lead == NUL || (IsPrint(lead) && (lead == '0' || !LeadDigit(lead, base, lower)))
  }

  /** The code's test whether lead is a digit: differences taken in 8 bits. */
  predicate LeadDigit(lead: char, base: int, lower: bool) {
    var delta0 := (Code(lead) - Code('0')) % 0x100;
    var deltaA := (Code(lead) - Code(if lower then 'a' else 'A')) % 0x100;
    || (base <= 10 && delta0 < base)
    || (base > 10 && (delta0 < 10 || deltaA < base - 10))
  }

  function Sign(neg: bool): string { if neg then "-" else "" }

  /** The string for a number: None if it cannot be formatted as asked. */
  function Formatted(nbr: nat, nbrDig: nat, base: int, neg: bool, lead: char, lower: bool): Option<string>
  {
    if nbrDig < 1 || base < 2 || base > 36 || !LeadOk(lead, base, lower) then None
    else
      var num := Numeral(nbr, base, lower);
      var width := |num| + |Sign(neg)|;
      if nbrDig < width then None
      else if lead == NUL then Some(Sign(neg) + num)
      else if lead == '0' then Some(Sign(neg) + Repeat('0', nbrDig - width) + num)
      else Some(Repeat(lead, nbrDig - width) + Sign(neg) + num)
  }

  // ----- digits from the right -----

  /** n without its i least significant digits. */
  function Shifted(n: nat, base: int, i: nat): nat
    requires base >= 2
  {
    if i == 0 then n else Shifted(n / base, base, i - 1)
  }

  lemma {:induction false} ShiftedNext(n: nat, base: int, i: nat)
    requires base >= 2
    ensures Shifted(n, base, i + 1) == Shifted(n, base, i) / base
  {
    if i > 0 { ShiftedNext(n / base, base, i - 1); }
  }

  /** The i-th digit from the right is what i divisions leave modulo the base; the last division leaves nothing. */
  lemma {:induction false} NumeralFromRight(n: nat, base: int, lower: bool, i: nat)
    requires 2 <= base <= 36
    ensures var s := Numeral(n, base, lower);
            && (i < |s| ==> s[|s| - 1 - i] == DigChar(Shifted(n, base, i) % base, lower))
            && (0 < i < |s| ==> Shifted(n, base, i) > 0)
            && (i >= |s| ==> Shifted(n, base, i) == 0)
    decreases i
  {
    if n < base { ModUnique(base, 0, n); }
    if i > 0 {
      if n < base {
        ShiftedZero(base, i - 1);
      } else {
        QuotientIsLess(n, base);
        NumeralFromRight(n / base, base, lower, i - 1);
      }
    }
  }

  lemma {:induction false} ShiftedZero(base: int, i: nat)
    requires base >= 2
    ensures Shifted(0, base, i) == 0
  {
    if i > 0 { ShiftedZero(base, i - 1); }
  }

  // ----- Str_FmtNbr_Int32() -----

  /** The number of digits, counted by divisions. */
  method CountDigits(nbr: nat, base: int, ghost lower: bool) returns (nbrDigMax: int)
    requires 2 <= base <= 36
    ensures nbrDigMax == |Numeral(nbr, base, lower)|
  {
    var nbrLog := nbr;
    nbrDigMax := 1;
    while nbrLog >= base
      invariant 0 <= nbrLog && nbrDigMax >= 1
      invariant nbrDigMax + |Numeral(nbrLog, base, lower)| == 1 + |Numeral(nbr, base, lower)|
      decreases nbrLog
    {
      QuotientIsLess(nbrLog, base);
      nbrDigMax := nbrDigMax + 1;
      nbrLog := nbrLog / base;
    }
  }

  /** m is was with s written at its start, and a NUL behind it if asked for. */
  ghost predicate Written(m: seq<char>, was: seq<char>, s: string, nul: bool)
  {
    && |m| == |was| && |s| + (if nul then 1 else 0) <= |m|
    && m[..|s|] == s
    && (nul ==> m[|s|] == NUL)
    && m[|s| + (if nul then 1 else 0)..] == was[|s| + (if nul then 1 else 0)..]
  }

  /** The characters of the formatted string, from the right. */
  lemma FromRight(nbr: nat, nbrDig: nat, base: int, neg: bool, lead: char, lower: bool, i: nat)
    requires Formatted(nbr, nbrDig, base, neg, lead, lower).Some?
    requires i < |Formatted(nbr, nbrDig, base, neg, lead, lower).value|
    ensures var s := Formatted(nbr, nbrDig, base, neg, lead, lower).value;
            var num := Numeral(nbr, base, lower);
            var c := s[|s| - 1 - i];
            if i < |num| then c == num[|num| - 1 - i]
            else if neg && (if lead == '0' then i == |s| - 1 else i == |num|) then c == '-'
            else c == lead && lead != NUL
  {
    hide Numeral, LeadOk, DigChar;
    var num, sign := Numeral(nbr, base, lower), Sign(neg);
    var pad := Repeat(lead, nbrDig - |num| - |sign|);
    if lead == '0' {
      FromRightOf(sign + pad, num, i);
      if i >= |num| { FromRightOf(sign, pad, i - |num|); }
    } else if lead == NUL {
      FromRightOf(sign, num, i);
    } else {
      FromRightOf(pad + sign, num, i);
      if i >= |num| { FromRightOf(pad, sign, i - |num|); }
    }
  }

  lemma FromRightOf(s: string, t: string, i: nat)
    requires i < |s| + |t|
    ensures (s + t)[|s| + |t| - 1 - i] == if i < |t| then t[|t| - 1 - i] else s[|s| - 1 - (i - |t|)]
  {}

  /** The formatting loop: digits, sign and lead characters, written from the right. */
  method FmtLoop(nbr: nat, nbrDigFmtd: nat, base: int, neg: bool, lead: char, lower: bool, lead0: bool,
                 buf: array<char>, ghost nbrDig: nat, ghost s: string)
    requires Formatted(nbr, nbrDig, base, neg, lead, lower) == Some(s)
    requires 2 <= base <= 36 && nbrDigFmtd == |s| <= buf.Length
    requires lead0 <==> lead == '0' && |s| > |Numeral(nbr, base, lower)| + |Sign(neg)|
    modifies buf
    ensures buf[..|s|] == s && buf[|s|..] == old(buf[|s|..])
  {
    hide Formatted, Numeral, DigChar, Sign;
    ghost var m, digits := buf[..], |Numeral(nbr, base, lower)|;
    SignSize(neg);
    var nbrFmt, negFmtd, i := nbr, false, 0;
    while i < nbrDigFmtd
      invariant 0 <= i <= nbrDigFmtd
      invariant nbrFmt == Shifted(nbr, base, i)
      invariant negFmtd <==> neg && !lead0 && i > digits
      invariant buf[nbrDigFmtd - i..nbrDigFmtd] == s[nbrDigFmtd - i..]
      invariant buf[nbrDigFmtd..] == m[nbrDigFmtd..]
    {
      NumeralFromRight(nbr, base, lower, i);
      FromRight(nbr, nbrDig, base, neg, lead, lower, i);
      ShiftedNext(nbr, base, i);
      var c;
      if nbrFmt > 0 || i == 0 {
        c := DigChar(nbrFmt % base, lower);
        nbrFmt := nbrFmt / base;
      } else if neg && ((!lead0 && !negFmtd) || (lead0 && i == nbrDigFmtd - 1)) {
        c := '-';
        negFmtd := !lead0;
      } else {
        c := lead;
      }
      i := i + 1;
      buf[nbrDigFmtd - i] := c;
    }
  }

  lemma SignSize(neg: bool)
    ensures |Sign(neg)| == if neg then 1 else 0
  {}

  /** How wide a formatted string is, and when there is none. */
  lemma FormattedWidth(nbr: nat, nbrDig: nat, base: int, neg: bool, lead: char, lower: bool)
    requires 1 <= nbrDig && 2 <= base <= 36 && LeadOk(lead, base, lower)
    ensures var f := Formatted(nbr, nbrDig, base, neg, lead, lower);
            var width := |Numeral(nbr, base, lower)| + (if neg then 1 else 0);
            && (f == None <==> nbrDig < width)
            && (f.Some? ==> |f.value| == if lead == NUL then width else nbrDig)
  {
    hide Numeral, LeadOk;
  }

  /** A format whose arguments are valid: fails only if the number is too wide. */
  method FmtValid(nbr: nat, nbrDig: nat, base: int, neg: bool, lead: char, lower: bool, nul: bool, buf: array<char>)
      returns (fmtInvalid: bool)
    requires 1 <= nbrDig && 2 <= base <= 36 && LeadOk(lead, base, lower)
    requires buf.Length >= nbrDig + (if nul then 1 else 0)
    modifies buf
    ensures fmtInvalid <==> Formatted(nbr, nbrDig, base, neg, lead, lower) == None
    ensures if fmtInvalid then buf[..] == old(buf[..])
            else Written(buf[..], old(buf[..]), Formatted(nbr, nbrDig, base, neg, lead, lower).value, nul)
  {
    hide Formatted, Numeral, LeadOk;
    FormattedWidth(nbr, nbrDig, base, neg, lead, lower);
    SignSize(neg);
    var nbrDigMax := CountDigits(nbr, base, lower);
    var nbrNegSign := if neg then 1 else 0;
    if nbrDig < nbrDigMax + nbrNegSign { return true; }
    fmtInvalid := false;
    var nbrDigMin := Min(nbrDigMax, nbrDig);
    var nbrDigFmtd, nbrLeadChar := nbrDigMin + nbrNegSign, 0;
    if lead != NUL {
      nbrDigFmtd := nbrDig;
      nbrLeadChar := nbrDig - nbrDigMin - nbrNegSign;
    }
    ghost var s := Formatted(nbr, nbrDig, base, neg, lead, lower).value;
    if nul { buf[nbrDigFmtd] := NUL; }
    FmtLoop(nbr, nbrDigFmtd, base, neg, lead, lower, nbrLeadChar > 0 && lead == '0', buf, nbrDig, s);
    assert nul ==> buf[|s|] == buf[|s|..][0];
  }

  /** n question marks, for a format that fails. */
  method FmtInvalid(n: nat, nul: bool, buf: array<char>)
    requires buf.Length >= n + (if nul then 1 else 0)
    modifies buf
    ensures Written(buf[..], old(buf[..]), Repeat('?', n), nul)
  {
    if nul { buf[n] := NUL; }
    ghost var m := buf[..];
    var i := 0;
    while i < n
      invariant 0 <= i <= n
      invariant forall j :: n - i <= j < n ==> buf[j] == '?'
      invariant buf[n..] == m[n..]
    {
      i := i + 1;
      buf[n - i] := '?';
    }
    assert buf[..n] == Repeat('?', n);
    assert nul ==> buf[n] == buf[n..][0];
  }

  /**
   * Str_FmtNbr_Int32(). A null buffer is refused; otherwise the buffer holds the formatted string, or as many
   * question marks as digits were asked for, and the result says which.
   */
  method FmtNbrInt32(nbr: nat, nbrDig: nat, base: nat, neg: bool, lead: char, lower: bool, nul: bool, buf: array?<char>)
      returns (ok: bool)
    requires buf != null ==> buf.Length >= nbrDig + (if nul then 1 else 0)
    modifies if buf == null then {} else {buf}
    ensures ok <==> buf != null && Formatted(nbr, nbrDig, base, neg, lead, lower).Some?
    ensures buf != null ==>
              var s := if ok then Formatted(nbr, nbrDig, base, neg, lead, lower).value else Repeat('?', nbrDig);
              && |s| + (if nul then 1 else 0) <= buf.Length && buf[..|s|] == s && (nul ==> buf[|s|] == NUL)
              && buf[|s| + (if nul then 1 else 0)..] == old(buf[|s| + (if nul then 1 else 0)..])
  {
    if buf == null { return false; }
    var fmtInvalid := nbrDig < 1 || base < 2 || base > 36 || !LeadOk(lead, base, lower);
    if !fmtInvalid {
      fmtInvalid := FmtValid(nbr, nbrDig, base, neg, lead, lower, nul, buf);
    }
    if fmtInvalid {
      FmtInvalid(nbrDig, nul, buf);
    }
    ok := !fmtInvalid;
  }

  // ----- unsigned and signed forms -----

  /** -nbr in a signed 32-bit register, read as unsigned. */
  function Magnitude(nbr: int): (m: int)
    requires -0x8000_0000 <= nbr < 0x8000_0000
    ensures m == if nbr < 0 then -nbr else nbr
  {
    if nbr < 0 then Wrap(-nbr) else nbr
  }

  function FormattedU(nbr: int, nbrDig: nat, base: int, lead: char, lower: bool): Option<string>
    requires 0 <= nbr < U32
  {
    Formatted(nbr, nbrDig, base, false, lead, lower)
  }

  function FormattedS(nbr: int, nbrDig: nat, base: int, lead: char, lower: bool): Option<string>
    requires -0x8000_0000 <= nbr < 0x8000_0000
  {
    Formatted(Magnitude(nbr), nbrDig, base, nbr < 0, lead, lower)
  }

  method FmtNbrInt32U(nbr: int, nbrDig: nat, base: nat, lead: char, lower: bool, nul: bool, buf: array?<char>)
      returns (ok: bool)
    requires 0 <= nbr < U32
    requires buf != null ==> buf.Length >= nbrDig + (if nul then 1 else 0)
    modifies if buf == null then {} else {buf}
    ensures ok <==> buf != null && FormattedU(nbr, nbrDig, base, lead, lower).Some?
    ensures buf != null ==>
              var s := if ok then FormattedU(nbr, nbrDig, base, lead, lower).value else Repeat('?', nbrDig);
              && |s| + (if nul then 1 else 0) <= buf.Length && buf[..|s|] == s && (nul ==> buf[|s|] == NUL)
              && buf[|s| + (if nul then 1 else 0)..] == old(buf[|s| + (if nul then 1 else 0)..])
  {
    ok := FmtNbrInt32(nbr, nbrDig, base, false, lead, lower, nul, buf);
  }

  method FmtNbrInt32S(nbr: int, nbrDig: nat, base: nat, lead: char, lower: bool, nul: bool, buf: array?<char>)
      returns (ok: bool)
    requires -0x8000_0000 <= nbr < 0x8000_0000
    requires buf != null ==> buf.Length >= nbrDig + (if nul then 1 else 0)
    modifies if buf == null then {} else {buf}
    ensures ok <==> buf != null && FormattedS(nbr, nbrDig, base, lead, lower).Some?
    ensures buf != null ==>
              var s := if ok then FormattedS(nbr, nbrDig, base, lead, lower).value else Repeat('?', nbrDig);
              && |s| + (if nul then 1 else 0) <= buf.Length && buf[..|s|] == s && (nul ==> buf[|s|] == NUL)
              && buf[|s| + (if nul then 1 else 0)..] == old(buf[|s| + (if nul then 1 else 0)..])
  {
    ok := FmtNbrInt32(Magnitude(nbr), nbrDig, base, nbr < 0, lead, lower, nul, buf);
  }

  /** The 8-bit test rejects as lead characters exactly the digits that the formatter itself would write. */
  lemma LeadDigitIff(lead: char, base: int, lower: bool)
    requires IsPrint(lead) && 2 <= base <= 36
    ensures LeadDigit(lead, base, lower) <==> exists d :: 0 <= d < base && lead == DigChar(d, lower)
  {
    if LeadDigit(lead, base, lower) {
      var d := if IsDig(lead) then Code(lead) - Code('0') else Code(lead) - Code(if lower then 'a' else 'A') + 10;
      assert 0 <= d < base && lead == DigChar(d, lower);
    }
  }
}
