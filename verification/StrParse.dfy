/**
 * Str_ParseNbr_Int32() and its unsigned and signed forms (lib_str.c). A string is its characters
 * without the terminating NUL; reading at its length yields the NUL.
 */
module StrParse {
  import opened Arith
  import opened Ascii

  const INT_MAX: int := 0x7FFF_FFFF
  const INT_MIN: int := -0x8000_0000

  function At(t: string, i: int): char
    requires 0 <= i
  {
    if i < |t| then t[i] else NUL
  }

  // ----- what is parsed -----

  predicate IsDigitOf(c: char, base: int) { IsAlphaNum(c) && DigVal(c) < base }

  /** First position from i on that holds no white space. */
  function SkipSpace(t: string, i: nat): (j: nat)
    requires i <= |t|
    ensures i <= j <= |t| && !IsSpace(At(t, j)) && forall k :: i <= k < j ==> IsSpace(t[k])
    decreases |t| - i
  {
    if IsSpace(At(t, i)) then SkipSpace(t, i + 1) else i
  }

  /** End of the longest run of digits of the base from i on. */
  function RunEnd(t: string, i: nat, base: int): (j: nat)
    requires i <= |t|
    ensures i <= j <= |t| && !IsDigitOf(At(t, j), base) && forall k :: i <= k < j ==> IsDigitOf(t[k], base)
    decreases |t| - i
  {
    if IsDigitOf(At(t, i), base) then RunEnd(t, i + 1, base) else i
  }

  /** The number that a string of digits denotes. */
  function NumberOf(ds: string, base: int): (n: nat)
    requires base >= 0 && forall k :: 0 <= k < |ds| ==> IsDigitOf(ds[k], base)
  {
    if ds == "" then 0
    else
      assert IsDigitOf(ds[|ds| - 1], base);
      MulNat(NumberOf(ds[..|ds| - 1], base), base);
      NumberOf(ds[..|ds| - 1], base) * base + DigVal(ds[|ds| - 1])
  }

  lemma MulNat(x: nat, y: nat)
    ensures x * y >= 0
  {}

  /**
   * Position behind an optional sign, and whether the number is negative. A minus is not skipped for unsigned numbers.
   */
  function SkipSign(t: string, i: nat, signed: bool): (r: (nat, bool))
    requires i <= |t|
    ensures i <= r.0 <= |t|
  {
    if At(t, i) == '+' then (i + 1, false)
    else if At(t, i) == '-' then (if signed then i + 1 else i, true)
    else (i, false)
  }

  /** Position behind an optional "0", "0x" or "0X" prefix, and the base of the digits from there. */
  function SkipPrefix(t: string, i: nat, base: int): (r: (nat, int))
    requires i <= |t|
    ensures i <= r.0 <= |t|
    ensures base == 0 ==> r.1 == 8 || r.1 == 10 || r.1 == 16
    ensures base != 0 ==> r.1 == base
  {
    if base != 0 && base != 8 && base != 16 then (i, base)
    else if At(t, i) != '0' then (i, if base == 0 then 10 else base)
    else if base != 8 && (At(t, i + 1) == 'x' || At(t, i + 1) == 'X') then
      (if IsDigHex(At(t, i + 2)) then i + 2 else i + 1, 16)
    else (i + 1, if base == 0 then 8 else base)
  }

  /** Value, position behind the number (0 if there is none), and whether a minus was seen. */
  datatype Parse = Parse(nbr: int, next: nat, neg: bool)

  /**
   * White space, sign, prefix, then the longest run of digits of the base: the number is their value, saturated at
   * the largest unsigned 32-bit number. It is there if anything follows the sign.
   */
  function Parsed(t: string, base: nat, signed: bool): (r: Parse)
    ensures r.next <= |t|
  {
    if base == 1 || base > 36 then Parse(0, 0, false)
    else
      var (i, neg) := SkipSign(t, SkipSpace(t, 0), signed);
      var (start, radix) := SkipPrefix(t, i, base);
      var end := RunEnd(t, start, radix);
      Parse(Min(NumberOf(t[start..end], radix), UINT_MAX), if end != i then end else 0, neg)
  }

  // ----- Str_ParseNbr_Int32() -----

  /** Str_MultOvfThTbl_Int32U[]: the largest number whose product with the base fits in 32 bits. */
  function MultOvfTh(base: int): int
    requires 0 <= base <= 36
  {
    if base == 0 then UINT_MAX else UINT_MAX / base
  }

  /** Merging one more digit in a 32-bit register: threshold and wrap test detect overflow exactly. */
  lemma MergeExact(nbr: int, base: int, dig: int)
    requires 0 <= nbr <= UINT_MAX && 2 <= base <= 36 && 0 <= dig < base
    ensures nbr > MultOvfTh(base) ==> nbr * base + dig > UINT_MAX
    ensures nbr <= MultOvfTh(base) ==>
              var merged := Wrap(Wrap(nbr * base) + dig);
              if nbr * base + dig <= UINT_MAX then merged == nbr * base + dig >= dig else merged < dig
  {
    var th := MultOvfTh(base);
    DivMod(UINT_MAX, base);
    MulMonotonic(base, 0, nbr);
    if nbr > th {
      MulMonotonic(base, th + 1, nbr);
      MulAdd(base, th, 1);
    } else {
      MulMonotonic(base, nbr, th);
      SumWraps(nbr * base, dig);
    }
  }

  lemma NumberOfNext(t: string, start: nat, end: nat, base: int)
    requires base >= 0 && start <= end < |t| && IsDigitOf(t[end], base)
    requires forall k :: start <= k < end ==> IsDigitOf(t[k], base)
    ensures NumberOf(t[start..end + 1], base) == NumberOf(t[start..end], base) * base + DigVal(t[end])
  {
    var ds := t[start..end + 1];
    assert ds[..|ds| - 1] == t[start..end];
  }

  lemma NumberOfNone(t: string, start: nat, base: int)
    requires base >= 0 && start <= |t|
    ensures NumberOf(t[start..start], base) == 0
  {}

  /** One more digit, for a number n that is held exactly unless it has overflowed. */
  method MergeDigit(was: int, wasOvf: bool, base: int, dig: int, ghost n: int) returns (nbr: int, ovf: bool)
    requires 0 <= was <= UINT_MAX && 2 <= base <= 36 && 0 <= dig < base
    requires if wasOvf then n > UINT_MAX else n == was
    ensures 0 <= nbr <= UINT_MAX
    ensures if ovf then n * base + dig > UINT_MAX else n * base + dig == nbr
  {
    hide Wrap, MultOvfTh;
    nbr, ovf := was, wasOvf;
    if !ovf {
      MergeExact(nbr, base, dig);
      if nbr <= MultOvfTh(base) {
        nbr := Wrap(Wrap(nbr * base) + dig);
        if nbr < dig { ovf := true; }
      } else {
        ovf := true;
      }
    } else {
      StaysLarge(n, base, dig);
    }
  }

  /**
   * The loop over the digits. The array ends with the string's NUL, so that the array bounds show that
   * nothing behind the NUL is read.
   */
  method ParseDigits(a: array<char>, start: nat, base: int) returns (nbr: int, next: nat)
    requires a.Length >= 1 && a[a.Length - 1] == NUL && start < a.Length && 2 <= base <= 36
    ensures var t := a[..a.Length - 1];
            next == RunEnd(t, start, base) && nbr == Min(NumberOf(t[start..next], base), UINT_MAX)
  {
    hide NumberOf, Wrap, MultOvfTh;
    ghost var t := a[..a.Length - 1];
    NumberOfNone(t, start, base);
    var ovf, done := false, false;
    nbr, next := 0, start;
    while !done
      invariant start <= next <= |t| && 0 <= nbr <= UINT_MAX
      invariant forall k :: start <= k < next ==> IsDigitOf(t[k], base)
      invariant RunEnd(t, start, base) == RunEnd(t, next, base)
      invariant done ==> RunEnd(t, start, base) == next
      invariant if ovf then NumberOf(t[start..next], base) > UINT_MAX else NumberOf(t[start..next], base) == nbr
      decreases |t| - next, !done
    {
      var parseChar := a[next];
      assert parseChar == At(t, next);
      if IsAlphaNum(parseChar) {
        var parseDig := if IsDig(parseChar) then Code(parseChar) - Code('0')
                        else if IsLower(parseChar) then Code(parseChar) - Code('a') + 10
                        else Code(parseChar) - Code('A') + 10;
        if parseDig < base {
          NumberOfNext(t, start, next, base);
          nbr, ovf := MergeDigit(nbr, ovf, base, parseDig, NumberOf(t[start..next], base));
          next := next + 1;
        } else {
          done := true;
        }
      } else {
        done := true;
      }
    }
    if ovf { nbr := UINT_MAX; }
  }

  lemma StaysLarge(n: nat, base: int, dig: int)
    requires n > UINT_MAX && base >= 2 && dig >= 0
    ensures n * base + dig > UINT_MAX
  {
    MulMonotonic(n, 1, base);
  }

  /** The loop over white space. */
  method ParseSpace(a: array<char>) returns (p: nat)
    requires a.Length >= 1 && a[a.Length - 1] == NUL
    ensures p == SkipSpace(a[..a.Length - 1], 0) < a.Length
  {
    ghost var t := a[..a.Length - 1];
    assert forall k :: 0 <= k < a.Length ==> a[k] == At(t, k);
    p := 0;
    while IsSpace(a[p])
      invariant 0 <= p <= |t| && SkipSpace(t, 0) == SkipSpace(t, p)
      decreases |t| - p
    {
      p := p + 1;
    }
  }

  /** The switch over the base. */
  method ParsePrefix(a: array<char>, start: nat, base: int) returns (p: nat, radix: int)
    requires a.Length >= 1 && a[a.Length - 1] == NUL && NUL !in a[..a.Length - 1] && start < a.Length
    requires base == 0 || 2 <= base <= 36
    ensures (p, radix) == SkipPrefix(a[..a.Length - 1], start, base)
  {
    ghost var t := a[..a.Length - 1];
    assert forall k :: 0 <= k < a.Length ==> a[k] == At(t, k);
    p, radix := start, base;
    if base == 0 {
      if a[p] == '0' {
        p := p + 1;
        if a[p] == 'x' || a[p] == 'X' {
          radix := 16;
          if IsDigHex(a[p + 1]) { p := p + 1; }
        } else {
          radix := 8;
        }
      } else {
        radix := 10;
      }
    } else if base == 8 {
      if a[p] == '0' { p := p + 1; }
    } else if base == 16 {
      if a[p] == '0' {
        p := p + 1;
        if a[p] == 'x' || a[p] == 'X' {
          if IsDigHex(a[p + 1]) { p := p + 1; }
        }
      }
    }
  }

  method ParseNbrInt32(a: array?<char>, base: nat, signed: bool) returns (nbr: int, next: nat, neg: bool)
    requires a != null ==> a.Length >= 1 && a[a.Length - 1] == NUL && NUL !in a[..a.Length - 1]
    ensures Parse(nbr, next, neg) == if a == null then Parse(0, 0, false) else Parsed(a[..a.Length - 1], base, signed)
  {
    hide SkipSpace, SkipPrefix, RunEnd, NumberOf;
    nbr, next, neg := 0, 0, false;
    if a != null && base != 1 && base <= 36 {
      ghost var t := a[..a.Length - 1];
      var p := ParseSpace(a);
      assert a[p] == At(t, p);
      if a[p] == '+' {
        p := p + 1;
      } else if a[p] == '-' {
        if signed { p := p + 1; }
        neg := true;
      }
      var numStart := p;
      var radix;
      p, radix := ParsePrefix(a, p, base);
      nbr, p := ParseDigits(a, p, radix);
      if p != numStart { next := p; }
    }
  }

  // ----- unsigned and signed forms -----

  /** Str_ParseNbr_Int32S() from the magnitude and the sign on. */
  function SignedOf(nbrAbs: int, neg: bool): int
  {
    if !neg then (if nbrAbs > INT_MAX then INT_MAX else nbrAbs)
    else (if nbrAbs > INT_MAX then INT_MIN else -nbrAbs)
  }

  method ParseNbrInt32U(a: array?<char>, base: nat) returns (nbr: int, next: nat)
    requires a != null ==> a.Length >= 1 && a[a.Length - 1] == NUL && NUL !in a[..a.Length - 1]
    ensures a != null ==> var r := Parsed(a[..a.Length - 1], base, false); nbr == r.nbr && next == r.next
    ensures a == null ==> nbr == 0 && next == 0
  {
    var neg;
    nbr, next, neg := ParseNbrInt32(a, base, false);
  }

  method ParseNbrInt32S(a: array?<char>, base: nat) returns (nbr: int, next: nat)
    requires a != null ==> a.Length >= 1 && a[a.Length - 1] == NUL && NUL !in a[..a.Length - 1]
    ensures a != null ==>
              var r := Parsed(a[..a.Length - 1], base, true); nbr == SignedOf(r.nbr, r.neg) && next == r.next
    ensures a == null ==> nbr == 0 && next == 0
  {
    var nbrAbs, neg;
    nbrAbs, next, neg := ParseNbrInt32(a, base, true);
    if !neg {
      nbr := if nbrAbs > INT_MAX then INT_MAX else nbrAbs;
    } else {
      nbr := if nbrAbs > INT_MAX then INT_MIN else -nbrAbs;
    }
  }
}
