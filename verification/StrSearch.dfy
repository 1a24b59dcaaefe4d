/**
 * Str_Len_N(), Str_Cmp_N(), Str_CmpIgnoreCase_N() and Str_Str_N() (lib_str.c). A string is an array
 * from an offset on; the loops read a character before they test the length, so that the array
 * must hold a NUL or one character more than the length.
 */
module StrSearch {
  import opened Arith
  import opened Ascii

  /** Reading up to n characters and one more stays inside t, or stops at a NUL. */
  ghost predicate Readable(t: seq<char>, n: nat) { n < |t| || NUL in t }

  /** The characters of t before its NUL, at most n. */
  function Prefix(t: seq<char>, n: nat): (s: string)
    ensures |s| <= n && s <= t && NUL !in s
    ensures |s| < n && |s| < |t| ==> t[|s|] == NUL
  {
    if n == 0 || t == [] || t[0] == NUL then [] else [t[0]] + Prefix(t[1..], n - 1)
  }

  lemma {:induction false} PrefixUnique(t: seq<char>, n: nat, k: nat)
    requires k <= n && k <= |t| && NUL !in t[..k] && (k == n || (k < |t| && t[k] == NUL))
    ensures Prefix(t, n) == t[..k]
  {
    var s := Prefix(t, n);
    assert s == t[..|s|];
    assert forall i :: 0 <= i < k ==> t[..k][i] == t[i];
    assert forall i :: 0 <= i < |s| ==> t[..|s|][i] == t[i];
  }

  /** The string that a pointer stands for: a null pointer, for an empty one. */
  function Text(a: array?<char>, p: nat): seq<char>
    requires a != null ==> p <= a.Length
    reads a
  {
    if a == null then [NUL] else a[p..]
  }

  method LenN(a: array?<char>, p: nat, lenMax: nat) returns (len: nat)
    requires a != null ==> p <= a.Length && Readable(a[p..], lenMax)
    ensures len == |Prefix(Text(a, p), lenMax)|
  {
    ghost var t := Text(a, p);
    len := 0;
    while a != null && a[p + len] != NUL && len < lenMax
      invariant len <= lenMax && len < |t| && NUL !in t[..len] && (a != null ==> p + len < a.Length)
      decreases lenMax - len
    {
      assert t[..len + 1] == t[..len] + [t[len]];
      len := len + 1;
      assert NUL in t ==> len < |t|;
    }
    PrefixUnique(t, lenMax, len);
  }

  // ----- comparison -----

  /**
   * The number of positions from the start on, at most n, where t1 and t2 have the same character (up to letter case
   * if fold) and it is not NUL.
   */
  function Common(t1: seq<char>, t2: seq<char>, n: nat, fold: bool): (k: nat)
    ensures k <= n && k <= |t1| && k <= |t2|
    ensures forall i :: 0 <= i < k ==> Folded(t1[i], fold) == Folded(t2[i], fold) && t1[i] != NUL
    ensures k < n && k < |t1| && k < |t2| ==> Folded(t1[k], fold) != Folded(t2[k], fold) || t1[k] == NUL
  {
    if n == 0 || t1 == [] || t2 == [] || Folded(t1[0], fold) != Folded(t2[0], fold) || t1[0] == NUL then 0
    else 1 + Common(t1[1..], t2[1..], n - 1, fold)
  }

  function Folded(c: char, fold: bool): char { if fold then ToLower(c) else c }

  lemma {:induction false} CommonUnique(t1: seq<char>, t2: seq<char>, n: nat, fold: bool, k: nat)
    requires k <= n && k < |t1| && k < |t2|
    requires forall i :: 0 <= i < k ==> Folded(t1[i], fold) == Folded(t2[i], fold) && t1[i] != NUL
    requires k == n || Folded(t1[k], fold) != Folded(t2[k], fold) || t1[k] == NUL
    ensures Common(t1, t2, n, fold) == k
  {
    hide Common, Folded;
    var c := Common(t1, t2, n, fold);
  }

  /** Value of a comparison: 0 if the first n characters agree, otherwise the difference at the first disagreement. */
  function Difference(t1: seq<char>, t2: seq<char>, n: nat, fold: bool): int
  {
    var k := Common(t1, t2, n, fold);
    if k == n || k >= |t1| || k >= |t2| then 0 else Code(Folded(t1[k], fold)) - Code(Folded(t2[k], fold))
  }

  /** A comparison's buffers: each readable for n characters, or they part before either ends. */
  ghost predicate Comparable(t1: seq<char>, t2: seq<char>, n: nat, fold: bool)
  {
    n == 0 || (Common(t1, t2, n, fold) < |t1| && Common(t1, t2, n, fold) < |t2|)
  }

  /** Str_Cmp_N() (fold false) and Str_CmpIgnoreCase_N() (fold true). */
  method CmpN(a1: array?<char>, p1: nat, a2: array?<char>, p2: nat, lenMax: nat, fold: bool) returns (cmp: int)
    requires (a1 != null ==> p1 <= a1.Length) && (a2 != null ==> p2 <= a2.Length)
    requires Comparable(Text(a1, p1), Text(a2, p2), lenMax, fold)
    ensures cmp == Difference(Text(a1, p1), Text(a2, p2), lenMax, fold)
  {
    if lenMax == 0 { return 0; }
    if a1 == null {
      if a2 == null { return 0; }
      return 0 - Code(Folded(a2[p2], fold));
    }
    if a2 == null { return Code(Folded(a1[p1], fold)); }
    cmp := CmpLoop(a1, p1, a2, p2, lenMax, fold);
  }

  method CmpLoop(a1: array<char>, p1: nat, a2: array<char>, p2: nat, lenMax: nat, fold: bool) returns (cmp: int)
    requires p1 <= a1.Length && p2 <= a2.Length && lenMax > 0 && Comparable(a1[p1..], a2[p2..], lenMax, fold)
    ensures cmp == Difference(a1[p1..], a2[p2..], lenMax, fold)
  {
    ghost var t1, t2 := a1[p1..], a2[p2..];
    var cmpLen := 0;
    while Folded(a1[p1 + cmpLen], fold) == Folded(a2[p2 + cmpLen], fold) && a1[p1 + cmpLen] != NUL && cmpLen < lenMax
      invariant cmpLen <= Common(t1, t2, lenMax, fold)
      invariant forall i :: 0 <= i < cmpLen ==> Folded(t1[i], fold) == Folded(t2[i], fold) && t1[i] != NUL
      decreases lenMax - cmpLen
    {
      assert t1[cmpLen] == a1[p1 + cmpLen] && t2[cmpLen] == a2[p2 + cmpLen];
      cmpLen := cmpLen + 1;
    }
    assert t1[cmpLen] == a1[p1 + cmpLen] && t2[cmpLen] == a2[p2 + cmpLen];
    CommonUnique(t1, t2, lenMax, fold, cmpLen);
    if cmpLen == lenMax { return 0; }
    return Code(Folded(a1[p1 + cmpLen], fold)) - Code(Folded(a2[p2 + cmpLen], fold));
  }

  /** A string with its letters in lower case, if fold. */
  function FoldedStr(s: string, fold: bool): (t: string)
    ensures |t| == |s|
  {
    seq(|s|, i requires 0 <= i < |s| => Folded(s[i], fold))
  }

  lemma FoldedKeepsEnd(c: char, fold: bool)
    ensures Folded(c, fold) == NUL <==> c == NUL
  {}

  /**
   * A comparison yields 0 exactly when the two strings agree in their first n characters, up to letter case if fold.
   */
  lemma DifferenceZeroIff(t1: seq<char>, t2: seq<char>, n: nat, fold: bool)
    requires Comparable(t1, t2, n, fold)
    ensures Difference(t1, t2, n, fold) == 0 <==> FoldedStr(Prefix(t1, n), fold) == FoldedStr(Prefix(t2, n), fold)
  {
    var k := Common(t1, t2, n, fold);
    var s1, s2 := Prefix(t1, n), Prefix(t2, n);
    forall c ensures Folded(c, fold) == NUL <==> c == NUL { FoldedKeepsEnd(c, fold); }
    if n > 0 && Difference(t1, t2, n, fold) == 0 {
      assert forall i :: 0 <= i < k ==> t1[..k][i] == t1[i] && t2[..k][i] == t2[i];
      PrefixUnique(t1, n, k);
      PrefixUnique(t2, n, k);
    } else if n > 0 {
      assert s1 == t1[..|s1|] && s2 == t2[..|s2|];
      assert k < |s1| && k < |s2| ==> FoldedStr(s1, fold)[k] != FoldedStr(s2, fold)[k];
    }
  }

  /** s comes before t in lexicographic order. */
  predicate Before(s: string, t: string)
  {
    t != "" && (s == "" || s[0] < t[0] || (s[0] == t[0] && Before(s[1..], t[1..])))
  }

  /** Where two strings part decides their order. */
  lemma {:induction false} BeforeAt(s: string, t: string, k: nat)
    requires k <= |s| && k <= |t| && s[..k] == t[..k]
    requires (k < |s| || k < |t|) && (k < |s| && k < |t| ==> s[k] != t[k])
    ensures Before(s, t) <==> k == |s| || (k < |t| && s[k] < t[k])
  {
    if k > 0 {
      assert s[0] == s[..k][0] == t[..k][0] == t[0];
      assert s[1..][..k - 1] == s[..k][1..] && t[1..][..k - 1] == t[..k][1..];
      BeforeAt(s[1..], t[1..], k - 1);
    }
  }

  /** The code of a string's k-th character, 0 at its end. */
  function CodeAt(s: string, k: nat): int { if k < |s| then s[k] as int else 0 }

  /**
   * Two strings that differ in their first n characters part at a position k, and the result is the difference of the
   * codes there; so it is negative exactly if the first string comes first.
   */
  lemma DifferenceOrders(t1: seq<char>, t2: seq<char>, n: nat, fold: bool) returns (k: nat)
    requires Comparable(t1, t2, n, fold) && Difference(t1, t2, n, fold) != 0
    ensures var s1, s2 := FoldedStr(Prefix(t1, n), fold), FoldedStr(Prefix(t2, n), fold);
            && k <= |s1| && k <= |s2| && s1[..k] == s2[..k]
            && Difference(t1, t2, n, fold) == CodeAt(s1, k) - CodeAt(s2, k)
            && (Difference(t1, t2, n, fold) < 0 <==> Before(s1, s2))
            && (Difference(t1, t2, n, fold) > 0 <==> Before(s2, s1))
  {
    k := Common(t1, t2, n, fold);
    var s1, s2 := FoldedStr(Prefix(t1, n), fold), FoldedStr(Prefix(t2, n), fold);
    PartsAt(t1, t2, n, fold, k);
    PartsAt(t2, t1, n, fold, k);
    assert forall i :: 0 <= i < k ==> s1[..k][i] == s2[..k][i];
    BeforeAt(s1, s2, k);
    BeforeAt(s2, s1, k);
  }

  /** A prefix reaches at least to where the strings part, and the character there is its next or its end. */
  lemma PartsAt(t1: seq<char>, t2: seq<char>, n: nat, fold: bool, k: nat)
    requires k < n && k < |t1| && k < |t2| && Folded(t1[k], fold) != Folded(t2[k], fold)
    requires forall i :: 0 <= i < k ==> Folded(t1[i], fold) == Folded(t2[i], fold)
    requires (forall i :: 0 <= i < k ==> t1[i] != NUL) || (forall i :: 0 <= i < k ==> t2[i] != NUL)
    ensures var s1 := FoldedStr(Prefix(t1, n), fold);
            && k <= |s1| && CodeAt(s1, k) == Code(Folded(t1[k], fold))
            && (forall i :: 0 <= i < k ==> s1[i] == Folded(t1[i], fold))
            && (k < |s1| ==> s1[k] == Folded(t1[k], fold)) && (k == |s1| ==> t1[k] == NUL)
  {
    var p := Prefix(t1, n);
    forall c ensures Folded(c, fold) == NUL <==> c == NUL { FoldedKeepsEnd(c, fold); }
    assert p == t1[..|p|];
  }

  lemma PlainStr(s: string)
    ensures FoldedStr(s, false) == s
  {}

  lemma ComparableBelow(t1: seq<char>, t2: seq<char>, n: nat)
    requires n < |t1| && n < |t2|
    ensures Comparable(t1, t2, n, false)
  {}

  // ----- search -----

  predicate OccursAt(s: string, w: string, i: int) { 0 <= i && i + |w| <= |s| && s[i..i + |w|] == w }

  /** How far the search string is measured: far enough to see that it is too long. */
  function SrchMax(lenMax: nat): nat { if lenMax < UINT_MAX then lenMax + 1 else UINT_MAX }

  /** So far is far enough: the search string occurs as measured exactly where it occurs as a whole. */
  lemma MeasuredEnough(s: string, u: seq<char>, lenMax: nat)
    requires |s| <= lenMax <= UINT_MAX && |u| <= 0xFFFF_FFFF && Readable(u, SrchMax(lenMax))
    ensures var w, whole := Prefix(u, SrchMax(lenMax)), Prefix(u, |u|);
            forall i :: OccursAt(s, w, i) <==> OccursAt(s, whole, i)
  {
    var w, whole := Prefix(u, SrchMax(lenMax)), Prefix(u, |u|);
    if |whole| <= SrchMax(lenMax) {
      PrefixUnique(u, SrchMax(lenMax), |whole|);
    } else {
      assert forall i :: 0 <= i < |whole| ==> u[i] == whole[i];
      PrefixUnique(u, SrchMax(lenMax), SrchMax(lenMax));
    }
  }

  /**
   * Position of the result, -1 for NULL. Null strings are told by null arrays. The whole search string is looked for,
   * in at most lenMax characters of the other.
   */
  method StrN(a: array?<char>, b: array?<char>, lenMax: nat) returns (r: int)
    requires a != null ==> Readable(a[..], lenMax)
    requires b != null ==> b.Length <= 0xFFFF_FFFF && Readable(b[..], SrchMax(lenMax))
    requires lenMax <= UINT_MAX
    ensures a == null || b == null || lenMax == 0 ==> r == -1
    ensures a != null && b != null && lenMax > 0 ==>
              var s, w := Prefix(a[..], lenMax), Prefix(b[..], b.Length);
              if r < 0 then r == -1 && forall i :: !OccursAt(s, w, i)
              else OccursAt(s, w, r) && forall i :: 0 <= i < r ==> !OccursAt(s, w, i)
  {
    if a == null || b == null || lenMax == 0 { return -1; }
    hide Prefix, Readable, OccursAt;
    MeasuredEnough(Prefix(a[..], lenMax), b[..], lenMax);
    r := StrNMeasured(a, b, lenMax);
    ghost var s, w := Prefix(a[..], lenMax), Prefix(b[..], SrchMax(lenMax));
    forall i ensures OccursAt(s, w, i) <==> OccursAt(s, Prefix(b[..], b.Length), i) {}
  }

  /** The search, for the search string as measured. */
  method StrNMeasured(a: array<char>, b: array<char>, lenMax: nat) returns (r: int)
    requires Readable(a[..], lenMax) && Readable(b[..], SrchMax(lenMax)) && 0 < lenMax <= UINT_MAX
    ensures var s, w := Prefix(a[..], lenMax), Prefix(b[..], SrchMax(lenMax));
            if r < 0 then r == -1 && forall i :: !OccursAt(s, w, i)
            else OccursAt(s, w, r) && forall i :: 0 <= i < r ==> !OccursAt(s, w, i)
  {
    hide Prefix, Difference, Comparable, Readable;
    ghost var s, w := Prefix(a[..], lenMax), Prefix(b[..], SrchMax(lenMax));
    assert a[0..] == a[..] && b[0..] == b[..];
    var strLen := LenN(a, 0, lenMax);
    var strLenSrch := LenN(b, 0, SrchMax(lenMax));
    if strLenSrch == 0 { return 0; }
    if strLenSrch > strLen { return -1; }
    var srchLen := strLen - strLenSrch;
    var srchIx, srchDone := 0, false;
    while !srchDone && srchIx <= srchLen
      invariant 0 <= srchIx <= srchLen + 1
      invariant if srchDone
                then srchIx >= 1 && OccursAt(s, w, srchIx - 1) && forall i :: 0 <= i < srchIx - 1 ==> !OccursAt(s, w, i)
                else forall i :: 0 <= i < srchIx ==> !OccursAt(s, w, i)
      decreases srchLen + 1 - srchIx, !srchDone
    {
      CmpIsOccurs(a[..], b[..], lenMax, SrchMax(lenMax), srchIx);
      assert a[srchIx..] == a[..][srchIx..];
      var srchCmp := CmpN(a, srchIx, b, 0, strLenSrch, false);
      srchDone := srchCmp == 0;
      srchIx := srchIx + 1;
    }
    return if srchDone then srchIx - 1 else -1;
  }

  /** Comparing as many characters as the search string has decides whether it occurs there. */
  lemma CmpIsOccurs(t: seq<char>, u: seq<char>, lenMax: nat, srchMax: nat, i: nat)
    requires Readable(t, lenMax) && Readable(u, srchMax)
    requires var s, w := Prefix(t, lenMax), Prefix(u, srchMax); 1 <= |w| && i + |w| <= |s|
    ensures var s, w := Prefix(t, lenMax), Prefix(u, srchMax);
            && Comparable(t[i..], u, |w|, false)
            && (Difference(t[i..], u, |w|, false) == 0 <==> OccursAt(s, w, i))
  {
    hide Prefix, Common, Difference, Readable;
    var s, w := Prefix(t, lenMax), Prefix(u, srchMax);
    EndReadable(t, lenMax);
    EndReadable(u, srchMax);
    ComparableBelow(t[i..], u, |w|);
    DifferenceZeroIff(t[i..], u, |w|, false);
    PlainStr(Prefix(t[i..], |w|));
    PlainStr(Prefix(u, |w|));
    assert t[i..][..|w|] == s[i..i + |w|];
    PrefixUnique(t[i..], |w|, |w|);
    assert u[..|w|] == w;
    PrefixUnique(u, |w|, |w|);
  }

  lemma EndReadable(t: seq<char>, n: nat)
    requires Readable(t, n)
    ensures |Prefix(t, n)| < |t|
  {
    var s := Prefix(t, n);
    assert s == t[..|s|];
  }
}
