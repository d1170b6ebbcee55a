/** Escaping of desktop file values: desktop_write_format and desktop_entry_unescape of
    libdbpbase/desktop.c. */
module Escapes {

  /** The characters that are written as an escape: backslash, carriage return, newline, tab. */
  predicate Special(c: char) { c == '\\' || c == '\r' || c == '\n' || c == '\t' }

  /** The letter after the backslash. */
  function Letter(c: char): char
    requires Special(c)
  {
    if c == '\r' then 'r' else if c == '\n' then 'n' else if c == '\t' then 't' else '\\'
  }

  predicate IsLetter(c: char) { c == '\\' || c == 'n' || c == 'r' || c == 't' }

  function Decoded(letter: char): char
    requires IsLetter(letter)
  {
    if letter == 'n' then '\n' else if letter == 'r' then '\r' else if letter == 't' then '\t' else '\\'
  }

  function EscapeChar(c: char): string {
    if Special(c) then ['\\', Letter(c)] else [c]
  }

  function Escape(v: string): string {
    if v == "" then "" else EscapeChar(v[0]) + Escape(v[1..])
  }

  /** desktop_write_format without the newline that ends the line. */
  method WriteFormat(str: string) returns (out: string)
    ensures out == Escape(str)
  {
    out := "";
    for i := 0 to |str|
      invariant Escape(str) == out + Escape(str[i..])
    {
      var c := str[i];
      ghost var rest := Escape(str[i + 1..]);
      assert Escape(str[i..]) == EscapeChar(c) + rest by {
        assert str[i..][1..] == str[i + 1..];
      }
      assert out + (EscapeChar(c) + rest) == out + EscapeChar(c) + rest;
      if c == '\\' {
        out := out + "\\\\";
      } else if c == '\r' {
        out := out + "\\r";
      } else if c == '\n' {
        out := out + "\\n";
      } else if c == '\t' {
        out := out + "\\t";
      } else {
        out := out + [c];
      }
    }
  }

  /** What desktop_entry_unescape makes of a string. The character after a decoded escape is
      passed over unread, because the loop advances once more than the shift requires. */
  function Unescape(s: string): string
    decreases |s|, 0
  {
    if s == "" then ""
    else if s[0] != '\\' then [s[0]] + Unescape(s[1..])
    else if |s| == 1 then s
    else if IsLetter(s[1]) then [Decoded(s[1])] + PassOver(s[2..])
    else s[..2] + Unescape(s[2..])
  }

  function PassOver(s: string): string
    decreases |s|, 1
  {
    if s == "" then "" else [s[0]] + Unescape(s[1..])
  }

  const NUL := '\0'

  /** buf holds the C string s, followed by its terminator. */
  ghost predicate Contains(buf: array<char>, s: string)
    reads buf
  {
    |s| < buf.Length && buf[..|s|] == s && buf[|s|] == NUL && NUL !in s
  }

  method StrLen(buf: array<char>, ghost s: string) returns (len: nat)
    requires Contains(buf, s)
    ensures len == |s|
  {
    len := 0;
    while buf[len] != NUL
      invariant len <= |s|
      decreases |s| - len
    {
      assert len < |s| ==> buf[len] == s[len];
      len := len + 1;
    }
  }

  /** What is left to do when the cursor stands at i; it may stand one past the terminator. */
  function Finished(cur: string, i: nat): string
    requires i <= |cur| + 1
  {
    if i == |cur| + 1 then cur else cur[..i] + Unescape(cur[i..])
  }

  lemma FinishedStart(cur: string)
    ensures Finished(cur, 0) == Unescape(cur)
  {
    assert cur[0..] == cur;
  }

  lemma FinishedOrdinary(cur: string, i: nat)
    requires i <= |cur| && (i < |cur| ==> cur[i] != '\\')
    ensures Finished(cur, i) == Finished(cur, i + 1)
  {
    if i < |cur| {
      assert cur[i..][1..] == cur[i + 1..];
      assert cur[..i + 1] == cur[..i] + [cur[i]];
    } else {
      assert cur[..i] + "" == cur;
    }
  }

  lemma FinishedBackslash(cur: string, i: nat)
    requires i < |cur| && cur[i] == '\\' && (i + 1 < |cur| ==> !IsLetter(cur[i + 1]))
    ensures Finished(cur, i) == Finished(cur, i + 2)
  {
    var s := cur[i..];
    if i + 1 == |cur| {
      assert cur == cur[..i] + s;
    } else {
      assert s[2..] == cur[i + 2..];
      assert cur[..i + 2] == cur[..i] + s[..2];
    }
  }

  /** The escape at i has been replaced by what it stands for, and the next character passed over. */
  lemma FinishedEscape(cur: string, i: nat, shifted: string)
    requires i + 1 < |cur| && cur[i] == '\\' && IsLetter(cur[i + 1])
    requires shifted == cur[..i] + [Decoded(cur[i + 1])] + cur[i + 2..]
    ensures Finished(cur, i) == Finished(shifted, i + 2)
  {
    var front, d, rest := cur[..i], Decoded(cur[i + 1]), cur[i + 2..];
    assert cur[i..][2..] == rest;
    assert Finished(cur, i) == front + ([d] + PassOver(rest));
    if rest == "" {
      LastEscape(front, d);
    } else {
      EscapeThenMore(front, d, rest[0], rest[1..]);
      assert rest == [rest[0]] + rest[1..];
    }
  }

  lemma LastEscape(front: string, d: char)
    ensures front + ([d] + PassOver("")) == Finished(front + [d] + "", |front| + 2)
  {
    assert front + [d] + "" == front + [d];
  }

  lemma EscapeThenMore(front: string, d: char, c: char, more: string)
    ensures front + ([d] + PassOver([c] + more)) == Finished(front + [d] + ([c] + more), |front| + 2)
  {
    var shifted := front + [d] + ([c] + more);
    assert ([c] + more)[1..] == more;
    assert shifted[..|front| + 2] == front + [d] + [c] && shifted[|front| + 2..] == more;
    assert front + ([d] + ([c] + Unescape(more))) == front + [d] + [c] + Unescape(more);
  }

  /** Puts the decoded character over the backslash and moves the rest of the buffer, up to and
      including one character after the terminator, over the letter. */
  method DecodeAt(str: array<char>, i: nat, len: nat, ghost cur: string) returns (ghost shifted: string)
    requires Contains(str, cur) && len == |cur| + 1 < str.Length
    requires i + 1 < |cur| && cur[i] == '\\' && IsLetter(cur[i + 1])
    modifies str
    ensures shifted == cur[..i] + [Decoded(cur[i + 1])] + cur[i + 2..]
    ensures Contains(str, shifted)
  {
    shifted := cur[..i] + [Decoded(cur[i + 1])] + cur[i + 2..];
    if str[i + 1] != '\\' {
      str[i] := Decoded(str[i + 1]);
    }
    forall k | i + 1 <= k < len {
      str[k] := str[k + 1];
    }
    ShiftedAt(cur, i, shifted);
    assert str[..|shifted|] == shifted;
  }

  lemma ShiftedAt(cur: string, i: nat, shifted: string)
    requires i + 1 < |cur| && IsLetter(cur[i + 1]) && NUL !in cur
    requires shifted == cur[..i] + [Decoded(cur[i + 1])] + cur[i + 2..]
    ensures |shifted| == |cur| - 1 && NUL !in shifted
    ensures forall k :: 0 <= k < |shifted| ==>
              shifted[k] == if k < i then cur[k] else if k == i then Decoded(cur[i + 1]) else cur[k + 1]
  {
    forall k | 0 <= k < |shifted|
      ensures shifted[k] != NUL
    {
      assert k < i ==> shifted[k] == cur[k];
      assert k > i ==> shifted[k] == cur[k + 1];
    }
  }

  /** desktop_entry_unescape: decodes in place by shifting the tail of the buffer left. The shift
      copies one character more than the string has, so one must follow the terminator. */
  method UnescapeInPlace(str: array<char>, ghost s: string)
    requires Contains(str, s) && |s| + 1 < str.Length
    modifies str
    ensures Contains(str, Unescape(s))
  {
    var len := StrLen(str, s);
    len := len + 1;
    var i := 0;
    ghost var cur := s;
    FinishedStart(cur);
    while i < len
      invariant Contains(str, cur) && len == |cur| + 1 < str.Length
      invariant 0 <= i <= len && Unescape(s) == Finished(cur, i)
      decreases len - i
    {
      assert str[i] == if i < |cur| then cur[i] else NUL;
      if str[i] != '\\' {
        FinishedOrdinary(cur, i);
        i := i + 1;
      } else {
        i, len, cur := AfterBackslash(str, i, len, cur);
      }
    }
  }

  /** The body of the loop when the cursor stands on a backslash. */
  method AfterBackslash(str: array<char>, at: nat, len0: nat, ghost cur0: string)
    returns (i: nat, len: nat, ghost cur: string)
    requires Contains(str, cur0) && len0 == |cur0| + 1 < str.Length
    requires at < |cur0| && cur0[at] == '\\'
    modifies str
    ensures Contains(str, cur) && len == |cur| + 1 < str.Length
    ensures i <= len && Finished(cur0, at) == Finished(cur, i) && len - i < len0 - at
  {
    i, len, cur := at + 1, len0, cur0;
    assert str[i] == if i < |cur| then cur[i] else NUL;
    if str[i] != NUL && IsLetter(str[i]) {
      cur := DecodeAt(str, at, len, cur0);
      len := len - 1;
      FinishedEscape(cur0, at, cur);
    } else {
      FinishedBackslash(cur, at);
    }
    i := i + 1;
  }

  // ---- When unescaping undoes escaping ----

  predicate NoAdjacentSpecials(v: string) {
    forall i :: 0 <= i && i + 1 < |v| ==> !(Special(v[i]) && Special(v[i + 1]))
  }

  lemma UnescapeEscapePlain(c: char, v: string)
    requires !Special(c)
    ensures Escape([c] + v) == [c] + Escape(v)
    ensures Unescape(Escape([c] + v)) == [c] + Unescape(Escape(v))
    ensures PassOver(Escape([c] + v)) == [c] + Unescape(Escape(v))
  {
    assert ([c] + v)[1..] == v;
    assert ([c] + Escape(v))[1..] == Escape(v);
  }

  lemma UnescapeEscapeSpecial(c: char, v: string)
    requires Special(c)
    ensures Escape([c] + v) == ['\\', Letter(c)] + Escape(v)
    ensures Unescape(Escape([c] + v)) == [c] + PassOver(Escape(v))
    ensures PassOver(Escape([c] + v)) == "\\" + Unescape([Letter(c)] + Escape(v))
  {
    assert ([c] + v)[1..] == v;
    var s := ['\\', Letter(c)] + Escape(v);
    assert s[1..] == [Letter(c)] + Escape(v) && s[2..] == Escape(v);
  }

  lemma {:induction false} UndoneIfSpread(v: string)
    requires NoAdjacentSpecials(v)
    ensures Unescape(Escape(v)) == v
  {
    if v == "" {
    } else if !Special(v[0]) {
      assert v == [v[0]] + v[1..];
      UnescapeEscapePlain(v[0], v[1..]);
      UndoneIfSpread(v[1..]);
    } else {
      assert v == [v[0]] + v[1..];
      UnescapeEscapeSpecial(v[0], v[1..]);
      if |v| > 1 {
        assert !Special(v[0 + 1]);
        assert v[1..] == [v[1]] + v[2..];
        UnescapeEscapePlain(v[1], v[2..]);
        UndoneIfSpread(v[2..]);
      }
    }
  }

  /** Unescaping never loses a character of the value that was escaped. */
  lemma {:induction false} NothingLost(v: string)
    ensures |Unescape(Escape(v))| >= |v| && |PassOver(Escape(v))| >= |v|
    decreases |v|, 1
  {
    if v != "" {
      var rest := v[1..];
      assert v == [v[0]] + rest;
      if Special(v[0]) {
        UnescapeEscapeSpecial(v[0], rest);
        NothingLost(rest);
        NothingLostAfter(Letter(v[0]), rest);
      } else {
        UnescapeEscapePlain(v[0], rest);
        NothingLost(rest);
      }
    }
  }

  lemma {:induction false} NothingLostAfter(letter: char, v: string)
    requires IsLetter(letter)
    ensures |Unescape([letter] + Escape(v))| >= |v|
    decreases |v|, 2
  {
    var s := [letter] + Escape(v);
    assert s[1..] == Escape(v);
    if letter != '\\' {
      NothingLost(v);
    } else if v != "" {
      var rest := v[1..];
      assert v == [v[0]] + rest;
      NothingLost(rest);
      if Special(v[0]) {
        UnescapeEscapeSpecial(v[0], rest);
        var t := [Letter(v[0])] + Escape(rest);
        assert s[2..] == t && t[1..] == Escape(rest);
      } else {
        UnescapeEscapePlain(v[0], rest);
        assert s[2..] == Escape(rest);
      }
    }
  }

  /** Once the cursor stands on the second half of an escape, the value cannot come out right. */
  lemma {:induction false} OffByOne(v: string)
    ensures Unescape("\\" + Escape(v)) != v
  {
    if v != "" {
      var rest := v[1..];
      assert v == [v[0]] + rest;
      var s := "\\" + Escape(v);
      if Special(v[0]) {
        UnescapeEscapeSpecial(v[0], rest);
        var t := [Letter(v[0])] + Escape(rest);
        assert s[2..] == t && t[1..] == Escape(rest);
        NothingLost(rest);
      } else {
        UnescapeEscapePlain(v[0], rest);
        assert s[1] == v[0];
        assert Unescape(s)[0] == if IsLetter(v[0]) then Decoded(v[0]) else '\\';
      }
    }
  }

  lemma SpreadCons(c: char, v: string)
    ensures NoAdjacentSpecials(v) && !(Special(c) && v != "" && Special(v[0])) ==> NoAdjacentSpecials([c] + v)
  {
    var w := [c] + v;
    assert forall i :: 0 < i < |w| ==> w[i] == v[i - 1];
  }

  lemma {:induction false} NotUndoneIfAdjacent(v: string)
    requires !NoAdjacentSpecials(v)
    ensures Unescape(Escape(v)) != v
  {
    var rest := v[1..];
    assert v == [v[0]] + rest;
    SpreadCons(v[0], rest);
    if !Special(v[0]) {
      UnescapeEscapePlain(v[0], rest);
      NotUndoneIfAdjacent(rest);
    } else {
      UnescapeEscapeSpecial(v[0], rest);
      assert rest == [rest[0]] + rest[1..];
      if Special(rest[0]) {
        UnescapeEscapeSpecial(rest[0], rest[1..]);
        OffByOne(rest[1..]);
      } else {
        UnescapeEscapePlain(rest[0], rest[1..]);
        NotUndoneIfAdjacent(rest);
      }
    }
  }

  /** Exactly the values without two adjacent special characters survive. */
  lemma UnescapeUndoesEscapeIff(v: string)
    ensures Unescape(Escape(v)) == v <==> NoAdjacentSpecials(v)
  {
    if NoAdjacentSpecials(v) {
      UndoneIfSpread(v);
    } else {
      NotUndoneIfAdjacent(v);
    }
  }
}
