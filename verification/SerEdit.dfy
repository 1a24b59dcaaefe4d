/**
 * The line editor of the serial interface (bsp_ser.c): characters are appended to a line and rubbed out with
 * backspace, and an escape sequence brings the previous line back.
 */
module SerEdit {
  import opened Ascii

  const BACKSPACE: char := 8 as char
  const ESCAPE: char := 27 as char

  predicate Ends(c: char) { c == '\r' || c == '\n' }

  /** What the user has typed: the text in front of the cursor, and whether an escape sequence has begun. */
  datatype Edit = Edit(line: string, esc: bool)

  /** A character typed: into a full line it is dropped, and with it what a recall has brought in beyond the length. */
  function Insert(line: string, c: char, len: nat): string
  {
    if |line| < len then line + [c] else line[..len]
  }

  /** The editor's answer to a character that does not end the line; recall is the previous line. */
  function Key(e: Edit, c: char, len: nat, recall: string): Edit
  {
    if c == BACKSPACE then Edit(if e.line == [] then [] else e.line[..|e.line| - 1], false)
    else if c == ESCAPE then Edit(e.line, !e.esc)
    else if e.esc then if c == '[' then Edit(recall, true) else Edit(e.line, false)
    else if IsPrint(c) then Edit(Insert(e.line, c, len), false)
    else Edit(e.line, false)
  }

  /** The editor after the first n characters, starting from e. */
  function Typed(e: Edit, rx: seq<char>, n: nat, len: nat, recall: string): Edit
    requires n <= |rx|
  {
    if n == 0 then e else Key(Typed(e, rx, n - 1, len, recall), rx[n - 1], len, recall)
  }

  /** The edited text of a call that receives rx. */
  function Edited(rx: seq<char>, len: nat, recall: string): Edit
  {
    Typed(Edit([], false), rx, |rx|, len, recall)
  }

  /** A printable line that fits. */
  predicate Line(s: string, len: nat)
  {
    |s| <= len && forall i :: 0 <= i < |s| ==> IsPrint(s[i])
  }

  /** Array a holds the string s. */
  ghost predicate Holds(a: array<char>, s: string)
    reads a
  {
    |s| < a.Length && NUL !in s && a[..|s|] == s && a[|s|] == NUL
  }

  lemma HoldsFits(a: array<char>, s: string)
    requires Holds(a, s)
    ensures |s| < a.Length
  {}

  lemma HoldsText(a: array<char>, s: string)
    requires Holds(a, s)
    ensures |s| < a.Length && a[..|s| + 1] == s + [NUL]
  {}

  lemma HoldsNothing(a: array<char>)
    requires a.Length > 0 && a[0] == NUL
    ensures Holds(a, "")
  {}

  // ----- the receiving loop -----

  /** Str_Copy(), between strings in separate arrays. */
  method StrCopy(dest: array<char>, src: array<char>, ghost s: string)
    requires dest != src && Holds(src, s) && |s| < dest.Length
    modifies dest
    ensures Holds(dest, s)
    ensures dest[|s| + 1..] == old(dest[|s| + 1..])
  {
    var i := 0;
    while src[i] != NUL
      invariant 0 <= i <= |s| && dest[..i] == s[..i]
      invariant forall k :: i <= k < dest.Length ==> dest[k] == old(dest[k])
      decreases |s| - i
    {
      assert src[i] == s[i];
      dest[i] := src[i];
      i := i + 1;
    }
    dest[i] := NUL;
  }

  class Serial {
    const history: array<char>
    ghost var previous: string

    /** The previous line is in the history. */
    ghost predicate Valid()
      reads this, history
    {
      Holds(history, previous)
    }

    /** The longest line that can come about: one as long as asked for, or the previous one. */
    ghost function Reach(len: nat): nat
      reads this
    {
      if |previous| < len then len else |previous|
    }

    /** BSP_Ser_Init(). */
    constructor (historyLen: nat)
      requires historyLen > 0
      ensures fresh(history) && history.Length == historyLen && previous == "" && Valid()
    {
      history := new char[historyLen];
      previous := "";
      new;
      history[0] := NUL;
    }

    /**
     * BSP_Ser_RdStr(), for a buffer of len characters and a NUL. Receiving rx it takes used characters; unless one
     * of them ends the line, it waits for more.
     */
    method RdStr(str: array<char>, len: nat, locked: bool, rx: seq<char>) returns (done: bool, used: nat)
      requires str != history && Reach(len) < str.Length && len < history.Length && Valid()
      modifies this`previous, str, history
      ensures Valid() && str[old(Reach(len)) + 1..] == old(str[Reach(len) + 1..])
      ensures used <= |rx| && forall i :: 0 <= i < used && Ends(rx[i]) ==> done && i == used - 1
      ensures !locked ==> !done && used == 0 && Holds(str, "")
      ensures done ==> used > 0 && Ends(rx[used - 1]) && previous == Edited(rx[..used - 1], len, old(previous)).line
      ensures done ==> Holds(str, previous) && str[..|previous| + 1] == previous + [NUL]
      ensures !done ==> history[..] == old(history[..]) && previous == old(previous)
      ensures locked && !done ==>
                used == |rx| && Edited(rx, len, previous).line <= str[..]
    {
      hide Key, Typed, Holds;
      NothingTyped(rx, len, previous);
      HoldsFits(history, previous);
      var p, esc := 0, false;
      str[0] := NUL;
      HoldsNothing(str);
      done, used := false, 0;
      if locked {
        ghost var e, reach := Edit([], false), Reach(len);
        while used < |rx| && !done
          invariant used <= |rx| && Valid() && str[reach + 1..] == old(str[Reach(len) + 1..])
          invariant forall i :: 0 <= i < used && Ends(rx[i]) ==> done && i == used - 1
          invariant done ==> used > 0 && Ends(rx[used - 1]) && Holds(str, previous)
          invariant done ==> previous == Typed(Edit([], false), rx, used - 1, len, old(previous)).line
          invariant !done ==> history[..] == old(history[..]) && previous == old(previous)
          invariant !done ==> e == Typed(Edit([], false), rx, used, len, previous)
          invariant 0 <= p <= reach
          invariant !done ==> e.line == str[..p] && NUL !in e.line && e.esc == esc
          decreases |rx| - used, !done
        {
          var c := rx[used];
          used := used + 1;
          if Ends(c) {
            EndLine(str, p, e.line);
            done := true;
          } else {
            TypedKey(Edit([], false), rx, used - 1, len, previous);
            p, esc := Receive(str, len, p, esc, c, e);
            e := Key(e, c, len, previous);
          }
        }
        if done { HoldsText(str, previous); }
        if done { TypedAgrees(Edit([], false), rx, rx[..used - 1], used - 1, len, old(previous)); }
      }
    }

    /** The end of a line, which the history takes over. */
    method EndLine(str: array<char>, p: nat, ghost line: string)
      requires str != history && p < str.Length && p < history.Length && line == str[..p] && NUL !in line
      modifies this`previous, str, history
      ensures previous == line && Holds(str, line) && Holds(history, line)
      ensures str[p + 1..] == old(str[p + 1..])
    {
      str[p] := NUL;
      StrCopy(history, str, line);
      previous := line;
    }

    /** One pass of the loop, for a character that does not end the line. */
    method Receive(str: array<char>, len: nat, cursor: nat, escaped: bool, c: char, ghost e: Edit)
      returns (p: nat, esc: bool)
      requires str != history && cursor <= Reach(len) < str.Length && Valid()
      requires e.line == str[..cursor] && NUL !in e.line && e.esc == escaped && !Ends(c)
      modifies str
      ensures var k := Key(e, c, len, previous);
              p <= Reach(len) && k.line == str[..p] && NUL !in k.line && k.esc == esc
      ensures str[Reach(len) + 1..] == old(str[Reach(len) + 1..])
    {
      p, esc := cursor, escaped;
      if c == BACKSPACE {
        if p > 0 {
          p := p - 1;
        }
      }
      if IsPrint(c) && !esc {
        str[p] := c;
        p := p + 1;
        if p >= len {
          p := len;
        }
      } else if c == ESCAPE && !esc {
        esc := true;
      } else if c == '[' && esc {
        while p != 0
        {
          p := p - 1;
        }
        StrCopy(str, history, previous);
        while str[p] != NUL
          invariant 0 <= p <= |previous|
          decreases |previous| - p
        {
          p := p + 1;
        }
      } else {
        esc := false;
      }
    }
  }

  // ----- what editing amounts to -----

  lemma TypedKey(e: Edit, rx: seq<char>, n: nat, len: nat, recall: string)
    requires n < |rx|
    ensures Typed(e, rx, n + 1, len, recall) == Key(Typed(e, rx, n, len, recall), rx[n], len, recall)
  {}

  /** The result of typing depends on the characters typed only. */
  lemma {:induction false} TypedAgrees(e: Edit, s: seq<char>, t: seq<char>, n: nat, len: nat, recall: string)
    requires n <= |s| && n <= |t| && s[..n] == t[..n]
    ensures Typed(e, s, n, len, recall) == Typed(e, t, n, len, recall)
  {
    hide Key;
    if n > 0 {
      assert s[n - 1] == s[..n][n - 1] == t[..n][n - 1];
      assert s[..n][..n - 1] == s[..n - 1] && t[..n][..n - 1] == t[..n - 1];
      TypedAgrees(e, s, t, n - 1, len, recall);
    }
  }

  lemma {:induction false} TypedAppend(e: Edit, s: seq<char>, t: seq<char>, len: nat, recall: string)
    ensures Typed(e, s + t, |s| + |t|, len, recall)
         == Typed(Typed(e, s, |s|, len, recall), t, |t|, len, recall)
  {
    hide Key;
    if t == [] {
      assert s + t == s;
    } else {
      var t' := t[..|t| - 1];
      TypedAppend(e, s, t', len, recall);
      TypedAgrees(e, s + t, s + t', |s| + |t'|, len, recall);
      TypedAgrees(Typed(e, s, |s|, len, recall), t, t', |t'|, len, recall);
    }
  }

  /** The editor after two and after three characters more. */
  lemma TypedTwo(rx: seq<char>, c: char, d: char, len: nat, recall: string)
    ensures Edited(rx + [c, d], len, recall) == Key(Key(Edited(rx, len, recall), c, len, recall), d, len, recall)
  {
    hide Key;
    var e, keys := Edited(rx, len, recall), [c, d];
    TypedAppend(Edit([], false), rx, keys, len, recall);
    assert Typed(e, keys, 1, len, recall) == Key(Typed(e, keys, 0, len, recall), c, len, recall);
  }

  lemma TypedThree(rx: seq<char>, c: char, d: char, f: char, len: nat, recall: string)
    ensures Edited(rx + [c, d, f], len, recall)
         == Key(Key(Key(Edited(rx, len, recall), c, len, recall), d, len, recall), f, len, recall)
  {
    hide Key;
    TypedTwo(rx, c, d, len, recall);
    assert rx + [c, d, f] == (rx + [c, d]) + [f];
    TypedAppend(Edit([], false), rx + [c, d], [f], len, recall);
    var e := Edited(rx + [c, d], len, recall);
    assert Typed(e, [f], 1, len, recall) == Key(Typed(e, [f], 0, len, recall), f, len, recall);
  }

  // ----- which lines there are -----

  /**
   * s is the beginning of the previous line, up to column k, with printable characters typed behind it while there is
   * room.
   */
  ghost predicate Made(s: string, k: nat, len: nat, recall: string)
  {
    && k <= |s| && k <= |recall| && s[..k] == recall[..k]
    && (forall i :: k <= i < |s| ==> IsPrint(s[i]))
    && (k == |s| || |s| <= len)
  }

  lemma {:induction false} EditedIsMade(rx: seq<char>, n: nat, len: nat, recall: string) returns (k: nat)
    requires n <= |rx|
    ensures Made(Typed(Edit([], false), rx, n, len, recall).line, k, len, recall)
  {
    k := 0;
    if n > 0 {
      hide Typed;
      k := EditedIsMade(rx, n - 1, len, recall);
      TypedKey(Edit([], false), rx, n - 1, len, recall);
      k := KeyMakes(Typed(Edit([], false), rx, n - 1, len, recall), rx[n - 1], k, len, recall);
    }
  }

  lemma KeyMakes(e: Edit, c: char, k: nat, len: nat, recall: string) returns (k': nat)
    requires Made(e.line, k, len, recall)
    ensures Made(Key(e, c, len, recall).line, k', len, recall)
  {
    var s := Key(e, c, len, recall).line;
    if c == '[' && e.esc {
      k' := |recall|;
    } else {
      k' := if k < |s| then k else |s|;
      assert forall i :: 0 <= i < k' ==> s[i] == e.line[i] == e.line[..k][i] == recall[..k][i];
    }
  }

  lemma {:induction false} TypingText(e: Edit, s: string, n: nat, len: nat, recall: string)
    requires !e.esc && n <= |s| && (forall i :: 0 <= i < |s| ==> IsPrint(s[i])) && (s == [] || |e.line| + |s| <= len)
    ensures Typed(e, s, n, len, recall) == Edit(e.line + s[..n], false)
  {
    if n > 0 {
      TypingText(e, s, n - 1, len, recall);
      assert s[..n] == s[..n - 1] + [s[n - 1]];
    } else {
      assert e.line + s[..0] == e.line;
    }
  }

  function Backspaces(n: nat): (s: string)
    ensures |s| == n && forall i :: 0 <= i < n ==> s[i] == BACKSPACE
  {
    seq(n, i => BACKSPACE)
  }

  lemma {:induction false} RubbingOut(e: Edit, s: string, n: nat, len: nat, recall: string)
    requires !e.esc && s == Backspaces(|s|) && n <= |s| && n <= |e.line|
    ensures Typed(e, s, n, len, recall) == Edit(e.line[..|e.line| - n], false)
  {
    if n > 0 {
      RubbingOut(e, s, n - 1, len, recall);
      assert s[n - 1] == BACKSPACE;
    }
  }

  /** Any such line can be made: recall, rub out, type. */
  lemma MadeIsEdited(s: string, k: nat, len: nat, recall: string) returns (rx: string)
    requires Made(s, k, len, recall)
    ensures Edited(rx, len, recall).line == s
  {
    hide Typed, Key;
    var keys, rub, text := [ESCAPE, '[', ESCAPE], Backspaces(|recall| - k), s[k..];
    rx := keys + rub + text;
    Recalling(len, recall);
    RubbingOut(Edit(recall, false), rub, |rub|, len, recall);
    TypedAppend(Edit([], false), keys, rub, len, recall);
    TypingText(Edit(recall[..k], false), text, |text|, len, recall);
    TypedAppend(Edit([], false), keys + rub, text, len, recall);
    assert text[..|text|] == text && recall[..k] + text == s;
  }

  lemma Recalling(len: nat, recall: string)
    ensures Edited([ESCAPE, '[', ESCAPE], len, recall) == Edit(recall, false)
  {
    hide Typed;
    var keys := [ESCAPE, '[', ESCAPE];
    assert [] + keys == keys;
    NothingTyped([], len, recall);
    TypedThree([], ESCAPE, '[', ESCAPE, len, recall);
  }

  /**
   * The lines that can result are exactly those made of a beginning of the previous line and of printable characters
   * typed behind it; and typing a printable line that fits results in that line.
   */
  lemma EditedIff(s: string, len: nat, recall: string)
    ensures (exists rx :: Edited(rx, len, recall).line == s) <==> (exists k :: Made(s, k, len, recall))
    ensures Line(s, len) ==> Edited(s, len, recall) == Edit(s, false)
  {
    if k :| Made(s, k, len, recall) {
      var rx := MadeIsEdited(s, k, len, recall);
    }
    if rx :| Edited(rx, len, recall).line == s {
      var k := EditedIsMade(rx, |rx|, len, recall);
    }
    if Line(s, len) {
      TypingText(Edit([], false), s, |s|, len, recall);
      assert [] + s[..|s|] == s;
    }
  }

  /** No input makes the line longer than asked for if and only if the previous line is not. */
  lemma LinesFitIff(len: nat, recall: string)
    ensures (forall rx :: |Edited(rx, len, recall).line| <= len) <==> |recall| <= len
  {
    if |recall| <= len {
      forall rx ensures |Edited(rx, len, recall).line| <= len {
        var k := EditedIsMade(rx, |rx|, len, recall);
      }
    } else {
      var rx := MadeIsEdited(recall, |recall|, len, recall);
    }
  }

  // ----- keys -----

  /**
   * Backspace undoes a printable character exactly while the line has room for it, or none for any: in a full line it
   * takes another one.
   */
  lemma ErasedIff(rx: seq<char>, c: char, len: nat, recall: string)
    requires IsPrint(c) && !Edited(rx, len, recall).esc
    ensures var e := Edited(rx, len, recall);
            Edited(rx + [c, BACKSPACE], len, recall) == e <==> |e.line| < len || e.line == []
  {
    hide Edited;
    TypedTwo(rx, c, BACKSPACE, len, recall);
  }

  /**
   * After an up-arrow key the line is the previous one, whatever it was before; inside another escape sequence the key
   * is taken for two characters typed.
   */
  lemma ArrowRecalls(rx: seq<char>, len: nat, recall: string)
    ensures var e := Edited(rx, len, recall);
            Edited(rx + [ESCAPE, '[', 'A'], len, recall)
            == Edit(if e.esc then Insert(Insert(e.line, '[', len), 'A', len) else recall, false)
  {
    hide Edited;
    TypedThree(rx, ESCAPE, '[', 'A', len, recall);
  }

  // ----- each character by its code -----

  /** A line ends with CR or LF. */
  lemma EndCodes(c: char)
    ensures Ends(c) <==> c as int == 13 || c as int == 10
  {}

  /** The escape characters since the last one that is neither an escape nor a bracket. */
  function Escapes(rx: seq<char>, n: nat): nat
    requires n <= |rx|
  {
    if n == 0 then 0
    else if rx[n - 1] as int == 27 then Escapes(rx, n - 1) + 1
    else if rx[n - 1] as int == 91 then Escapes(rx, n - 1)
    else 0
  }

  /** An escape sequence is open exactly after an odd number of them. */
  lemma {:induction false} EscapeOpenIff(rx: seq<char>, n: nat, len: nat, recall: string)
    requires n <= |rx|
    ensures Typed(Edit([], false), rx, n, len, recall).esc <==> Escapes(rx, n) % 2 == 1
  {
    if n > 0 { EscapeOpenIff(rx, n - 1, len, recall); }
  }

  /**
   * What one more character does to the line: a bracket in an open escape sequence recalls the previous line, a
   * backspace rubs out one character, a printable character outside an escape sequence is added where there is room,
   * and nothing else changes a line of no more than the length asked for.
   */
  lemma LineMoves(rx: seq<char>, n: nat, len: nat, recall: string)
    requires n < |rx|
    ensures var s := Typed(Edit([], false), rx, n, len, recall).line;
            var s' := Typed(Edit([], false), rx, n + 1, len, recall).line;
            var c, open := rx[n] as int, Escapes(rx, n) % 2 == 1;
            && (c == 91 && open ==> s' == recall)
            && (c == 8 ==> s' == if s == [] then [] else s[..|s| - 1])
            && (32 <= c <= 126 && !open && |s| < len ==> s' == s + [rx[n]])
            && (32 <= c <= 126 && !open && |s| >= len ==> s' == s[..len])
            && (!(c == 91 && open) && c != 8 && !(32 <= c <= 126 && !open) ==> s' == s)
            && (|s'| < |s| ==> c == 8 || (c == 91 && open) || (32 <= c <= 126 && |s| > len))
            && (c != 8 && !(c == 91 && open) && |s| <= len ==> s <= s')
  {
    EscapeOpenIff(rx, n, len, recall);
  }

  // ----- where each column comes from -----

  /** Character i recalls the previous line. */
  predicate Recalls(rx: seq<char>, i: nat, len: nat, recall: string)
  {
    i < |rx| && rx[i] == '[' && Typed(Edit([], false), rx, i, len, recall).esc
  }

  /** Character i writes column j: it is typed there, or it recalls a line that reaches there. */
  predicate Writes(rx: seq<char>, i: nat, j: nat, len: nat, recall: string)
  {
    var e := if i <= |rx| then Typed(Edit([], false), rx, i, len, recall) else Edit([], false);
    if Recalls(rx, i, len, recall) then j < |recall|
    else i < |rx| && !e.esc && IsPrint(rx[i]) && |e.line| == j < len
  }

  /** Character i wrote column j, and until n characters have come the line was never as short again, nor recalled. */
  ghost predicate Survives(rx: seq<char>, i: nat, j: nat, n: nat, len: nat, recall: string)
  {
    && i < n <= |rx| && Writes(rx, i, j, len, recall)
    && (forall k :: i < k < n ==> !Recalls(rx, k, len, recall))
    && (forall k :: i < k <= n ==> |Typed(Edit([], false), rx, k, len, recall).line| > j)
  }

  /** For every input, each column shows what the one character put there that wrote it last and was not rubbed out. */
  lemma ColumnSurvives(rx: seq<char>, n: nat, j: nat, len: nat, recall: string) returns (i: nat)
    requires n <= |rx| && j < |Typed(Edit([], false), rx, n, len, recall).line|
    ensures Survives(rx, i, j, n, len, recall)
    ensures Typed(Edit([], false), rx, n, len, recall).line[j]
         == if Recalls(rx, i, len, recall) then recall[j] else rx[i]
    ensures forall i' :: Survives(rx, i', j, n, len, recall) ==> i' == i
  {
    hide Typed, Survives;
    i := LastWritten(rx, n, j, len, recall);
    forall i' | Survives(rx, i', j, n, len, recall) ensures i' == i {
      SurvivesOnce(rx, i, i', j, n, len, recall);
    }
  }

  lemma {:induction false} LastWritten(rx: seq<char>, n: nat, j: nat, len: nat, recall: string) returns (i: nat)
    requires n <= |rx| && j < |Typed(Edit([], false), rx, n, len, recall).line|
    ensures Survives(rx, i, j, n, len, recall)
    ensures Typed(Edit([], false), rx, n, len, recall).line[j]
         == if Recalls(rx, i, len, recall) then recall[j] else rx[i]
  {
    hide Typed, Key;
    NothingTyped(rx, len, recall);
    var e := Typed(Edit([], false), rx, n - 1, len, recall);
    TypedKey(Edit([], false), rx, n - 1, len, recall);
    KeyWrites(e, rx[n - 1], j, len, recall);
    if j < |e.line| && !Recalls(rx, n - 1, len, recall) {
      i := LastWritten(rx, n - 1, j, len, recall);
    } else {
      i := n - 1;
    }
  }

  lemma NothingTyped(rx: seq<char>, len: nat, recall: string)
    ensures Typed(Edit([], false), rx, 0, len, recall) == Edit([], false)
  {}

  /** A key writes the whole line, or the column at its end, or none. */
  lemma KeyWrites(e: Edit, c: char, j: nat, len: nat, recall: string)
    requires j < |Key(e, c, len, recall).line|
    ensures var line := Key(e, c, len, recall).line;
            if c == '[' && e.esc then j < |recall| && line[j] == recall[j]
            else if j < |e.line| then line[j] == e.line[j]
            else !e.esc && IsPrint(c) && |e.line| == j < len && line[j] == c
  {}

  lemma SurvivesOnce(rx: seq<char>, i: nat, i': nat, j: nat, n: nat, len: nat, recall: string)
    requires Survives(rx, i, j, n, len, recall) && Survives(rx, i', j, n, len, recall)
    ensures i == i'
  {
    hide Typed;
  }
}
