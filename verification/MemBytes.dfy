/**
 * Mem_Set(), Mem_Copy() and Mem_Cmp() (lib_mem.c): loops over aligned words that must have the
 * effect of loops over octets. Memory is an array of octets indexed by address; address 0 is NULL.
 */
module MemBytes {
  import opened Arith

  type Byte = x: int | 0 <= x < 256

  /** sizeof(CPU_ALIGN) */
  const WORD: int := 4

  // ----- words in memory -----

  /** The 32-bit word made of four octets, least significant first. */
  function WordOf(b0: Byte, b1: Byte, b2: Byte, b3: Byte): (w: int)
    ensures 0 <= w < U32
  {
    b0 + 0x100 * b1 + 0x1_0000 * b2 + 0x100_0000 * b3
  }

  lemma WordInjective(b0: Byte, b1: Byte, b2: Byte, b3: Byte, c0: Byte, c1: Byte, c2: Byte, c3: Byte)
    ensures WordOf(b0, b1, b2, b3) == WordOf(c0, c1, c2, c3) <==> b0 == c0 && b1 == c1 && b2 == c2 && b3 == c3
  {
    if WordOf(b0, b1, b2, b3) == WordOf(c0, c1, c2, c3) {
      LowOctet(b0, b1 + 0x100 * b2 + 0x1_0000 * b3, c0, c1 + 0x100 * c2 + 0x1_0000 * c3);
      LowOctet(b1, b2 + 0x100 * b3, c1, c2 + 0x100 * c3);
      LowOctet(b2, b3, c2, c3);
    }
  }

  lemma LowOctet(b: Byte, x: int, c: Byte, y: int)
    requires b + 0x100 * x == c + 0x100 * y
    ensures b == c && x == y
  {}

  /** A word access traps unless its address is a multiple of the word size. */
  method LoadWord(mem: array<Byte>, a: int) returns (w: int)
    requires 0 <= a && a + WORD <= mem.Length && a % WORD == 0
    ensures w == WordOf(mem[a], mem[a + 1], mem[a + 2], mem[a + 3])
  {
    w := WordOf(mem[a], mem[a + 1], mem[a + 2], mem[a + 3]);
  }

  method StoreWord(mem: array<Byte>, a: int, w: int)
    requires 0 <= a && a + WORD <= mem.Length && a % WORD == 0 && 0 <= w < U32
    modifies mem
    ensures w == WordOf(mem[a], mem[a + 1], mem[a + 2], mem[a + 3])
    ensures forall i :: 0 <= i < mem.Length && !(a <= i < a + WORD) ==> mem[i] == old(mem[i])
  {
    Octets(w);
    mem[a] := w % 0x100;
    mem[a + 1] := w / 0x100 % 0x100;
    mem[a + 2] := w / 0x1_0000 % 0x100;
    mem[a + 3] := w / 0x100_0000;
  }

  lemma Octets(w: int)
    requires 0 <= w < U32
    ensures w / 0x100_0000 < 0x100
    ensures WordOf(w % 0x100, w / 0x100 % 0x100, w / 0x1_0000 % 0x100, w / 0x100_0000) == w
  {
    DivMod(w, 0x100);
    NextOctet(w, 0x100);
    NextOctet(w, 0x1_0000);
  }

  lemma NextOctet(w: int, unit: int)
    requires 0 <= w && (unit == 0x100 || unit == 0x1_0000)
    ensures w / unit == 0x100 * (w / (0x100 * unit)) + w / unit % 0x100
  {
    DivMod(w, unit);
    DivMod(w / unit, 0x100);
    ModUnique(0x100 * unit, w / unit / 0x100, w / unit % 0x100 * unit + w % unit);
  }

  // ----- Mem_Set() -----

  /** Memory m with the n octets from p on set to val. */
  ghost predicate SetTo(m: seq<Byte>, was: seq<Byte>, p: int, val: Byte, n: int)
  {
    && |m| == |was|
    && forall i :: 0 <= i < |m| ==> m[i] == if p <= i < p + n then val else was[i]
  }

  /** The fill octet in every octet of a word. */
  method FillWord(val: Byte) returns (dataAlign: int)
    ensures 0 <= dataAlign < U32 && dataAlign == WordOf(val, val, val, val)
  {
    dataAlign := 0;
    var i := 0;
    while i < WORD
      invariant 0 <= i <= WORD
      invariant dataAlign == (if i == 0 then 0 else if i == 1 then val else if i == 2 then val * 0x101
                              else if i == 3 then val * 0x1_0101 else val * 0x101_0101)
    {
      dataAlign := Wrap(dataAlign * 0x100) + val;
      i := i + 1;
    }
  }

  method MemSet(mem: array<Byte>, p: int, val: Byte, size: int)
    requires 0 <= p && 0 <= size && p + size <= mem.Length
    modifies mem
    ensures forall i :: 0 <= i < mem.Length ==> mem[i] == if p != 0 && p <= i < p + size then val else old(mem[i])
  {
    if size < 1 || p == 0 { return; }
    Fill(mem, p, val, size);
  }

  /** Its loops: octets up to a word boundary, words, and the octets left. */
  method Fill(mem: array<Byte>, p: int, val: Byte, size: int)
    requires 0 < p && 0 < size && p + size <= mem.Length
    modifies mem
    ensures SetTo(mem[..], old(mem[..]), p, val, size)
  {
    var dataAlign := FillWord(val);
    var sizeRem := size;
    var memAlignModulo := p % WORD;
    var a := p;
    if memAlignModulo != 0 {
      var i := memAlignModulo;
      while sizeRem > 0 && i < WORD
        invariant memAlignModulo <= i <= WORD && 0 <= sizeRem && a == p + size - sizeRem && i == memAlignModulo + a - p
        invariant SetTo(mem[..], old(mem[..]), p, val, a - p)
      {
        mem[a] := val;
        a := a + 1;
        sizeRem := sizeRem - 1;
        i := i + 1;
      }
    }
    assert sizeRem > 0 ==> a % WORD == 0;
    while sizeRem >= WORD
      invariant 0 <= sizeRem && a == p + size - sizeRem && (sizeRem > 0 ==> a % WORD == 0)
      invariant SetTo(mem[..], old(mem[..]), p, val, a - p)
    {
      StoreWord(mem, a, dataAlign);
      WordInjective(val, val, val, val, mem[a], mem[a + 1], mem[a + 2], mem[a + 3]);
      a := a + WORD;
      sizeRem := sizeRem - WORD;
    }
    while sizeRem > 0
      invariant 0 <= sizeRem && a == p + size - sizeRem
      invariant SetTo(mem[..], old(mem[..]), p, val, a - p)
    {
      mem[a] := val;
      a := a + 1;
      sizeRem := sizeRem - 1;
    }
  }

  // ----- Mem_Copy() -----

  /** n octets copied one after the other, lowest address first. */
  function CopyUp(m: seq<Byte>, dest: int, src: int, n: nat): (m': seq<Byte>)
    requires 0 <= dest && dest + n <= |m| && 0 <= src && src + n <= |m|
    ensures |m'| == |m|
  {
    if n == 0 then m
    else var m1 := CopyUp(m, dest, src, n - 1); m1[dest + n - 1 := m1[src + n - 1]]
  }

  /** Four octets copied as one word: the same, as the word copied from is not the word copied to in part. */
  lemma CopyUpWord(m: seq<Byte>, dest: int, src: int, n: nat)
    requires 0 <= dest && dest + n + WORD <= |m| && 0 <= src && src + n + WORD <= |m|
    requires dest % WORD == src % WORD
    ensures var m1, d, s := CopyUp(m, dest, src, n), dest + n, src + n;
            CopyUp(m, dest, src, n + WORD)
            == m1[d := m1[s]][d + 1 := m1[s + 1]][d + 2 := m1[s + 2]][d + 3 := m1[s + 3]]
  {
    var m1, d, s := CopyUp(m, dest, src, n), dest + n, src + n;
    assert d != s + 1 && d != s + 2 && d != s + 3;
    var m2 := CopyUp(m, dest, src, n + 1);
    assert m2 == m1[d := m1[s]];
    var m3 := CopyUp(m, dest, src, n + 2);
    assert m3 == m2[d + 1 := m2[s + 1]];
    var m4 := CopyUp(m, dest, src, n + 3);
    assert m4 == m3[d + 2 := m3[s + 2]];
    assert CopyUp(m, dest, src, n + 4) == m4[d + 3 := m4[s + 3]];
  }

  /** Copying in two stretches. */
  lemma {:induction false} CopyUpThen(m: seq<Byte>, dest: int, src: int, n: nat, k: nat)
    requires 0 <= dest && dest + n + k <= |m| && 0 <= src && src + n + k <= |m|
    ensures CopyUp(m, dest, src, n + k) == CopyUp(CopyUp(m, dest, src, n), dest + n, src + n, k)
  {
    if k > 0 { CopyUpThen(m, dest, src, n, k - 1); }
  }

  method CopyWord(mem: array<Byte>, dest: int, src: int)
    requires 0 <= dest && 0 <= src && dest + WORD <= mem.Length && src + WORD <= mem.Length
    requires dest % WORD == 0 && src % WORD == 0
    modifies mem
    ensures mem[..] == CopyUp(old(mem[..]), dest, src, WORD)
  {
    ghost var m := mem[..];
    CopyUpWord(m, dest, src, 0);
    var w := LoadWord(mem, src);
    StoreWord(mem, dest, w);
    WordInjective(m[src], m[src + 1], m[src + 2], m[src + 3], mem[dest], mem[dest + 1], mem[dest + 2], mem[dest + 3]);
  }

  method CopyOctets(mem: array<Byte>, dest: int, src: int, n: nat)
    requires 0 <= dest && 0 <= src && dest + n <= mem.Length && src + n <= mem.Length
    modifies mem
    ensures mem[..] == CopyUp(old(mem[..]), dest, src, n)
  {
    var i := 0;
    while i < n
      invariant i <= n && mem[..] == CopyUp(old(mem[..]), dest, src, i)
    {
      mem[dest + i] := mem[src + i];
      i := i + 1;
    }
  }

  /** Whole words; returns how many octets are left. */
  method CopyWords(mem: array<Byte>, dest: int, src: int, n: nat) returns (rem: nat)
    requires 0 <= dest && 0 <= src && dest + n <= mem.Length && src + n <= mem.Length
    requires n >= WORD ==> dest % WORD == 0 && src % WORD == 0
    modifies mem
    ensures rem <= n && rem < WORD
    ensures mem[..] == CopyUp(old(mem[..]), dest, src, n - rem)
  {
    hide CopyUp;
    CopyUpNone(mem[..], dest, src);
    rem := n;
    while rem >= WORD
      invariant rem <= n && (rem >= WORD ==> (dest + (n - rem)) % WORD == 0 && (src + (n - rem)) % WORD == 0)
      invariant mem[..] == CopyUp(old(mem[..]), dest, src, n - rem)
    {
      CopyUpThen(old(mem[..]), dest, src, n - rem, WORD);
      CopyWord(mem, dest + (n - rem), src + (n - rem));
      rem := rem - WORD;
    }
  }

  method MemCopy(mem: array<Byte>, dest: int, src: int, size: int)
    requires 0 <= dest && 0 <= src && 0 <= size && dest + size <= mem.Length && src + size <= mem.Length
    modifies mem
    ensures mem[..] == if dest == 0 || src == 0 then old(mem[..]) else CopyUp(old(mem[..]), dest, src, size)
  {
    hide CopyUp;
    if size < 1 || dest == 0 || src == 0 { CopyUpNone(mem[..], dest, src); return; }
    var sizeRem, d, s := size, dest, src;
    if dest % WORD == src % WORD {
      if dest % WORD != 0 {
        var lead := Min(size, WORD - dest % WORD);
        CopyOctets(mem, d, s, lead);
        d, s, sizeRem := d + lead, s + lead, sizeRem - lead;
      } else { CopyUpNone(mem[..], dest, src); }
      CopyUpThen(old(mem[..]), dest, src, size - sizeRem, sizeRem);
      ghost var m, d0, s0, n := mem[..], d, s, sizeRem;
      var rem := CopyWords(mem, d, s, sizeRem);
      CopyUpThen(m, d0, s0, n - rem, rem);
      d, s, sizeRem := d + (sizeRem - rem), s + (sizeRem - rem), rem;
    }
    CopyOctets(mem, d, s, sizeRem);
  }

  lemma CopyUpNone(m: seq<Byte>, dest: int, src: int)
    requires 0 <= dest <= |m| && 0 <= src <= |m|
    ensures CopyUp(m, dest, src, 0) == m
  {}

  /** The n octets at src have arrived at dest, and nothing else has changed. */
  ghost predicate Copied(m': seq<Byte>, m: seq<Byte>, dest: int, src: int, n: nat)
    requires 0 <= src && src + n <= |m|
  {
    && |m'| == |m|
    && forall i {:trigger m'[i]} :: 0 <= i < |m'| ==>
         m'[i] == if dest <= i < dest + n then m[src + (i - dest)] else m[i]
  }

  lemma {:induction false} CopyUpCopies(m: seq<Byte>, dest: int, src: int, n: nat)
    requires 0 <= dest && dest + n <= |m| && 0 <= src && src + n <= |m|
    requires dest <= src || src + n <= dest
    ensures Copied(CopyUp(m, dest, src, n), m, dest, src, n)
  {
    if n > 0 {
      CopyUpCopies(m, dest, src, n - 1);
      var m1 := CopyUp(m, dest, src, n - 1);
      assert !(dest <= src + n - 1 < dest + (n - 1));
      assert m1[src + n - 1] == m[src + n - 1];
    }
  }

  /** Copying upwards into the source's own tail repeats the octet at its start. */
  lemma {:induction false} CopyUpRepeats(m: seq<Byte>, dest: int, src: int, n: nat)
    requires 0 <= src < dest && dest + n <= |m| && n >= 1
    ensures var m' := CopyUp(m, dest, src, n);
            && m'[dest] == m[src]
            && (n > dest - src ==> m'[dest + (dest - src)] == m[src])
            && forall i :: 0 <= i < dest ==> m'[i] == m[i]
  {
    if n > 1 { CopyUpRepeats(m, dest, src, n - 1); }
  }

  lemma CopyUpSpoils(len: nat, dest: int, src: int, n: nat)
    requires 0 <= src < dest < src + n && dest + n <= len
    ensures exists m: seq<Byte> :: |m| == len && !Copied(CopyUp(m, dest, src, n), m, dest, src, n)
  {
    hide CopyUp;
    var m: seq<Byte> := seq(len, i => if i == src then 1 else 0);
    CopyUpRepeats(m, dest, src, n);
    assert m[dest] == 0 && m[src] == 1 && m[src + (dest - src)] == m[dest];
    assert !Copied(CopyUp(m, dest, src, n), m, dest, src, n);
  }

  /**
   * Mem_Copy() copies, whatever the contents, if and only if the destination does not start inside
   * the source behind its first octet.
   */
  lemma CopyUpCopiesIff(len: nat, dest: int, src: int, n: nat)
    requires 0 <= dest && dest + n <= len && 0 <= src && src + n <= len
    ensures (forall m: seq<Byte> :: |m| == len ==> Copied(CopyUp(m, dest, src, n), m, dest, src, n))
            <==> !(src < dest < src + n)
  {
    hide Copied, CopyUp;
    if src < dest < src + n {
      CopyUpSpoils(len, dest, src, n);
    } else {
      forall m: seq<Byte> | |m| == len ensures Copied(CopyUp(m, dest, src, n), m, dest, src, n) {
        CopyUpCopies(m, dest, src, n);
      }
    }
  }

  // ----- Mem_Cmp() -----

  /** The last n octets of the two buffers ending at e1 and e2 agree. */
  ghost predicate SameTail(m: seq<Byte>, e1: int, e2: int, n: int)
    requires 0 <= n <= e1 <= |m| && n <= e2 <= |m|
  {
    m[e1 - n..e1] == m[e2 - n..e2]
  }

  lemma SameTailStep(m: seq<Byte>, e1: int, e2: int, n: int)
    requires 0 <= n < e1 <= |m| && n < e2 <= |m|
    ensures SameTail(m, e1, e2, n + 1) <==> SameTail(m, e1, e2, n) && m[e1 - n - 1] == m[e2 - n - 1]
  {
    assert m[e1 - (n + 1)..e1] == [m[e1 - n - 1]] + m[e1 - n..e1];
    assert m[e2 - (n + 1)..e2] == [m[e2 - n - 1]] + m[e2 - n..e2];
  }

  lemma SameTailNone(m: seq<Byte>, e1: int, e2: int)
    requires 0 <= e1 <= |m| && 0 <= e2 <= |m|
    ensures SameTail(m, e1, e2, 0)
  {}

  /** Four octets compared as one word. */
  lemma SameTailWord(m: seq<Byte>, e1: int, e2: int, n: int)
    requires 0 <= n && n + WORD <= e1 <= |m| && n + WORD <= e2 <= |m|
    ensures var a, b := e1 - n - WORD, e2 - n - WORD;
            SameTail(m, e1, e2, n + WORD) <==>
            && SameTail(m, e1, e2, n)
            && WordOf(m[a], m[a + 1], m[a + 2], m[a + 3]) == WordOf(m[b], m[b + 1], m[b + 2], m[b + 3])
  {
    var a, b := e1 - n - WORD, e2 - n - WORD;
    WordInjective(m[a], m[a + 1], m[a + 2], m[a + 3], m[b], m[b + 1], m[b + 2], m[b + 3]);
    SameTailStep(m, e1, e2, n);
    SameTailStep(m, e1, e2, n + 1);
    SameTailStep(m, e1, e2, n + 2);
    SameTailStep(m, e1, e2, n + 3);
  }

  lemma {:induction false} SameTailThen(m: seq<Byte>, e1: int, e2: int, n: int, k: int)
    requires 0 <= n && 0 <= k && n + k <= e1 <= |m| && n + k <= e2 <= |m|
    ensures SameTail(m, e1, e2, n + k) <==> SameTail(m, e1, e2, n) && SameTail(m, e1 - n, e2 - n, k)
  {
    var t1, t2 := m[e1 - (n + k)..e1], m[e2 - (n + k)..e2];
    assert t1 == m[e1 - n - k..e1 - n] + m[e1 - n..e1] && t1[..k] == m[e1 - n - k..e1 - n] && t1[k..] == m[e1 - n..e1];
    assert t2 == m[e2 - n - k..e2 - n] + m[e2 - n..e2] && t2[..k] == m[e2 - n - k..e2 - n] && t2[k..] == m[e2 - n..e2];
  }

  method CmpOctets(mem: array<Byte>, e1: int, e2: int, n: nat) returns (cmp: bool)
    requires n <= e1 <= mem.Length && n <= e2 <= mem.Length
    ensures cmp <==> SameTail(mem[..], e1, e2, n)
  {
    hide SameTail;
    ghost var m := mem[..];
    SameTailNone(m, e1, e2);
    cmp := true;
    var i := 0;
    while cmp && i < n
      invariant i <= n && (cmp <==> SameTail(m, e1, e2, i))
    {
      SameTailStep(m, e1, e2, i);
      i := i + 1;
      if mem[e1 - i] != mem[e2 - i] { cmp := false; }
    }
    SameTailThen(m, e1, e2, i, n - i);
  }

  /** Two words in front of n octets that agree. */
  method SameWord(mem: array<Byte>, p1: int, p2: int, ghost e1: int, ghost e2: int, ghost n: nat) returns (same: bool)
    requires 0 <= p1 == e1 - n - WORD && 0 <= p2 == e2 - n - WORD && e1 <= mem.Length && e2 <= mem.Length
    requires p1 % WORD == 0 && p2 % WORD == 0 && SameTail(mem[..], e1, e2, n)
    ensures same <==> SameTail(mem[..], e1, e2, n + WORD)
  {
    hide SameTail, WordOf;
    SameTailWord(mem[..], e1, e2, n);
    var w1 := LoadWord(mem, p1);
    var w2 := LoadWord(mem, p2);
    same := w1 == w2;
  }

  /** Whole words; returns how many octets are left. */
  method CmpWords(mem: array<Byte>, e1: int, e2: int, n: nat) returns (cmp: bool, rem: nat)
    requires n <= e1 <= mem.Length && n <= e2 <= mem.Length
    requires n >= WORD ==> e1 % WORD == 0 && e2 % WORD == 0
    ensures rem <= n && (cmp <==> SameTail(mem[..], e1, e2, n - rem))
  {
    hide SameTail, WordOf;
    ghost var m := mem[..];
    SameTailNone(m, e1, e2);
    cmp, rem := true, n;
    var p1, p2 := e1, e2;
    while cmp && rem >= WORD
      invariant rem <= n && p1 == e1 - (n - rem) && p2 == e2 - (n - rem)
      invariant rem >= WORD ==> p1 % WORD == 0 && p2 % WORD == 0
      invariant cmp <==> SameTail(m, e1, e2, n - rem)
    {
      p1, p2 := p1 - WORD, p2 - WORD;
      cmp := SameWord(mem, p1, p2, e1, e2, n - rem);
      rem := rem - WORD;
    }
  }

  lemma SameTailIsEqual(m: seq<Byte>, p1: int, p2: int, size: nat)
    requires 0 <= p1 && 0 <= p2 && p1 + size <= |m| && p2 + size <= |m|
    ensures SameTail(m, p1 + size, p2 + size, size) <==> m[p1..p1 + size] == m[p2..p2 + size]
  {}

  /** Buffers that end alike: octets to a word boundary, then words; returns how many octets are left. */
  method CmpAligned(mem: array<Byte>, e1: int, e2: int, n: nat) returns (cmp: bool, rem: nat)
    requires n <= e1 <= mem.Length && n <= e2 <= mem.Length && e1 % WORD == e2 % WORD
    ensures rem <= n && (cmp <==> SameTail(mem[..], e1, e2, n - rem))
  {
    hide SameTail;
    var lead := Min(n, e1 % WORD);
    cmp := CmpOctets(mem, e1, e2, lead);
    rem := n - lead;
    if cmp {
      cmp, rem := CmpWords(mem, e1 - lead, e2 - lead, rem);
      SameTailThen(mem[..], e1, e2, lead, n - lead - rem);
    }
  }

  method MemCmp(mem: array<Byte>, p1: int, p2: int, size: int) returns (cmp: bool)
    requires 0 <= p1 && 0 <= p2 && 0 <= size && p1 + size <= mem.Length && p2 + size <= mem.Length
    ensures cmp <==> size == 0 || (p1 != 0 && p2 != 0 && mem[p1..p1 + size] == mem[p2..p2 + size])
  {
    hide SameTail;
    if size < 1 { return true; }
    if p1 == 0 || p2 == 0 { return false; }
    var e1, e2 := p1 + size, p2 + size;
    SameTailIsEqual(mem[..], p1, p2, size);
    SameTailNone(mem[..], e1, e2);
    var sizeRem := size;
    cmp := true;
    if e1 % WORD == e2 % WORD {
      cmp, sizeRem := CmpAligned(mem, e1, e2, size);
    }
    var n := size - sizeRem;
    SameTailThen(mem[..], e1, e2, n, sizeRem);
    if cmp {
      cmp := CmpOctets(mem, e1 - n, e2 - n, sizeRem);
    }
  }
}
