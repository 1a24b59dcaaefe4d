/** Character classes of lib_ascii.h. */
module Ascii {
  const NUL: char := '\0'

  function Code(c: char): int { c as int }

  predicate IsDig(c: char) { '0' <= c <= '9' }
  predicate IsLower(c: char) { 'a' <= c <= 'z' }
  predicate IsUpper(c: char) { 'A' <= c <= 'Z' }
  predicate IsAlphaNum(c: char) { IsUpper(c) || IsLower(c) || IsDig(c) }
  predicate IsDigHex(c: char) { IsDig(c) || 'A' <= c <= 'F' || 'a' <= c <= 'f' }
  predicate IsPrint(c: char) { ' ' <= c <= '~' }

  /** Space, CR, LF, FF, HT, VT. */
  predicate IsSpace(c: char) { c == ' ' || 9 <= Code(c) <= 13 }

  function ToLower(c: char): char { if IsUpper(c) then (Code(c) + 32) as char else c }

  /** The value of an alphanumeric character as a digit. */
  function DigVal(c: char): (d: int)
    requires IsAlphaNum(c)
    ensures 0 <= d < 36
  {
    if IsDig(c) then Code(c) - Code('0')
    else if IsLower(c) then Code(c) - Code('a') + 10
    else Code(c) - Code('A') + 10
  }

  /** The digit of value d, letters in the case asked for. */
  function DigChar(d: int, lower: bool): (c: char)
    requires 0 <= d < 36
    ensures IsAlphaNum(c) && DigVal(c) == d && c != NUL
    ensures d < 16 ==> c != 'x' && c != 'X'
  {
    if d <= 9 then (Code('0') + d) as char
    else if !lower then (Code('A') + (d - 10)) as char
    else (Code('a') + (d - 10)) as char
  }

  /** The classes by their codes in ASCII. */
  lemma Classes(c: char)
    ensures var k := c as int;
            && (IsSpace(c) <==> k == 32 || 9 <= k <= 13)
            && (IsPrint(c) <==> 32 <= k <= 126)
            && (IsDig(c) <==> 48 <= k <= 57)
            && (IsUpper(c) <==> 65 <= k <= 90)
            && (IsLower(c) <==> 97 <= k <= 122)
            && (IsAlphaNum(c) <==> 48 <= k <= 57 || 65 <= k <= 90 || 97 <= k <= 122)
            && (IsDigHex(c) <==> 48 <= k <= 57 || 65 <= k <= 70 || 97 <= k <= 102)
            && ToLower(c) as int == (if 65 <= k <= 90 then k + 32 else k)
            && Code(c) == k
  {}

  /** Digits and their values by the alphabet of each letter case. */
  lemma Digits(d: int, lower: bool)
    requires 0 <= d < 36
    ensures DigChar(d, lower)
         == (if lower then "0123456789abcdefghijklmnopqrstuvwxyz" else "0123456789ABCDEFGHIJKLMNOPQRSTUVWXYZ")[d]
    ensures IsAlphaNum(DigChar(d, lower)) && DigVal(DigChar(d, lower)) == d
  {}
}
