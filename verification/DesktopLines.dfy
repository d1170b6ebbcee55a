/** What the parser of libdbpbase/desktop.c makes of one line, told from the text of the line. */
module DesktopLines {
  import opened CStrings
  import opened Escapes
  import opened DesktopParser

  /** The key that a line gives: what stands before its first equals sign. */
  lemma KeyOfLine(line: string, rest: string)
    requires '\n' !in line
    ensures ScanKey(line + "\n" + rest) == line[..Find(line, '=')]
  {
    var s, n := line + "\n" + rest, Find(line, '=');
    assert s[n] == if n < |line| then line[n] else '\n';
    assert forall i :: 0 <= i < n ==> s[i] == line[i] && line[i] in line;
    SpanIs(s, KeyChar, n);
    assert s[..n] == line[..n];
  }

  lemma LengthOfLine(line: string, rest: string)
    requires '\n' !in line
    ensures Find(line + "\n" + rest, '\n') == |line|
  {
    assert line + "\n" + rest == line + ("\n" + rest);
    FindPast(line, "\n" + rest, '\n');
  }

  /** Exactly the empty lines, the comments, the lines without a key and the overlong ones are passed
      over. */
  lemma LineIsPassedOverIff(line: string, rest: string)
    requires '\n' !in line
    ensures ReadLine(line + "\n" + rest) == Nothing
            <==> |line| >= 4096 || line == "" || line[0] == '#' || line[0] == ';' || line[0] == '='
  {
    KeyOfLine(line, rest);
    LengthOfLine(line, rest);
  }

  /** A line that begins with a bracket is a section header, whatever follows an equals sign. */
  lemma LineIsHeaderIff(line: string, rest: string)
    requires '\n' !in line && |line| < 4096
    ensures ReadLine(line + "\n" + rest).Header? <==> line != "" && line[0] == '['
    ensures '=' !in line && line != "" && line[0] == '[' ==> ReadLine(line + "\n" + rest) == Header(line[1..])
  {
    KeyOfLine(line, rest);
    LengthOfLine(line, rest);
    if '=' !in line {
      NotFound(line, '=');
      assert line[..|line|] == line;
    }
  }

  /** A key that is no comment and no header. */
  predicate PlainKey(key: string) {
    key != "" && key[0] != '#' && key[0] != ';' && key[0] != '[' && '=' !in key && '\n' !in key
  }

  predicate OnlyBlanks(s: string) { forall c | c in s :: IsSpace(c) }

  lemma SkipsBlanks(blanks: string, s: string)
    requires OnlyBlanks(blanks) && (s == "" || !IsSpace(s[0]))
    ensures SkipSpace(blanks + s) == s
  {
    assert forall i :: 0 <= i < |blanks| ==> (blanks + s)[i] == blanks[i] && blanks[i] in blanks;
    SpanIs(blanks + s, IsSpace, |blanks|);
    assert (blanks + s)[|blanks|..] == s;
  }

  lemma LineOf(value: string, rest: string)
    requires '\n' !in value
    ensures Line(value + "\n" + rest) == value
  {
    var s := value + "\n" + rest;
    assert forall i :: 0 <= i < |value| ==> s[i] == value[i] && value[i] in value;
    SpanIs(s, NotNewline, |value|);
    assert s[..|value|] == value;
  }

  /** A line with a key and a value: blanks in front of the value are dropped, those in front of the
      equals sign belong to the key. */
  lemma LineIsPair(key: string, blanks: string, value: string, rest: string)
    requires PlainKey(key) && OnlyBlanks(blanks) && '\n' !in blanks
    requires value != "" && !IsSpace(value[0]) && '\n' !in value
    requires |key| + 1 + |blanks| + |value| < 4096
    ensures var line := key + ("=" + blanks + value); ReadLine(line + "\n" + rest) == Pair(key, value)
  {
    var line := key + ("=" + blanks + value);
    NoNewline(key, blanks, value);
    KeyOfLine(line, rest);
    LengthOfLine(line, rest);
    FindPast(key, "=" + blanks + value, '=');
    Regrouped(key, blanks, value, rest);
    ValueIs(key, "", blanks, value, rest);
  }

  lemma NoNewline(key: string, blanks: string, value: string)
    requires '\n' !in key && '\n' !in blanks && '\n' !in value
    ensures var line := key + ("=" + blanks + value);
            '\n' !in line && line[..|key|] == key && |line| == |key| + 1 + |blanks| + |value|
  {
  }

  lemma Regrouped(key: string, blanks: string, value: string, rest: string)
    ensures key + ("=" + blanks + value) + "\n" + rest == key + ("" + "=" + blanks + (value + "\n" + rest))
  {
  }

  lemma ValueIs(key: string, before: string, blanks: string, value: string, rest: string)
    requires '=' !in key && '\n' !in key && OnlyBlanks(before) && OnlyBlanks(blanks)
    requires before == "" || before[0] == '\n'
    requires value != "" && !IsSpace(value[0]) && '\n' !in value
    ensures ScanValue(key + (before + "=" + blanks + (value + "\n" + rest))) == value
  {
    var tail := before + "=" + blanks + (value + "\n" + rest);
    KeyEnds(key, tail);
    ValueAfter(tail, before, blanks, value, rest);
  }

  lemma KeyEnds(key: string, tail: string)
    requires '=' !in key && '\n' !in key && tail != "" && (tail[0] == '=' || tail[0] == '\n')
    ensures var s := key + tail; Span(s, KeyChar) == |key| && s[|key|..] == tail
  {
    var s := key + tail;
    assert forall i :: 0 <= i < |key| ==> s[i] == key[i] && key[i] in key;
    SpanIs(s, KeyChar, |key|);
  }

  /** The value that follows blanks, an equals sign and blanks. */
  lemma ValueAfter(s: string, before: string, blanks: string, value: string, rest: string)
    requires OnlyBlanks(before) && OnlyBlanks(blanks)
    requires value != "" && !IsSpace(value[0]) && '\n' !in value
    requires s == before + "=" + blanks + (value + "\n" + rest)
    ensures var t := SkipSpace(s); t != "" && t[0] == '=' && Line(SkipSpace(t[1..])) == value
  {
    var t := "=" + blanks + (value + "\n" + rest);
    assert s == before + t;
    SkipsBlanks(before, t);
    assert t[1..] == blanks + (value + "\n" + rest);
    SkipsBlanks(blanks, value + "\n" + rest);
    LineOf(value, rest);
  }

  /** The equals sign may come on a later line than the key: the line is read with that value. */
  lemma LineIsPairAcrossLines(key: string, before: string, blanks: string, value: string, rest: string)
    requires PlainKey(key) && |key| < 4096
    requires OnlyBlanks(before) && OnlyBlanks(blanks)
    requires value != "" && !IsSpace(value[0]) && '\n' !in value
    ensures ReadLine(key + "\n" + (before + "=" + blanks + (value + "\n" + rest))) == Pair(key, value)
  {
    var more := before + "=" + blanks + (value + "\n" + rest);
    KeyOfLine(key, more);
    LengthOfLine(key, more);
    NotFound(key, '=');
    assert key[..|key|] == key;
    assert key + "\n" + more == key + (("\n" + before) + "=" + blanks + (value + "\n" + rest));
    ValueIs(key, "\n" + before, blanks, value, rest);
  }

  // ---- Escapes ----

  /** Each of the four escapes stands for its character; a backslash before anything else stays, and so
      does what follows. */
  lemma EscapesRead(s: string)
    ensures Unescape("\\n") == "\n" && Unescape("\\r") == "\r" && Unescape("\\t") == "\t" && Unescape("\\\\") == "\\"
    ensures |s| >= 2 && s[0] == '\\' && s[1] !in {'n', 'r', 't', '\\'} ==> Unescape(s) == s[..2] + Unescape(s[2..])
    ensures s != "" && s[0] != '\\' ==> Unescape(s) == [s[0]] + Unescape(s[1..])
    ensures Unescape("\\") == "\\" && Unescape("") == ""
  {
    assert "\\n"[2..] == "" && "\\r"[2..] == "" && "\\t"[2..] == "" && "\\\\"[2..] == "";
  }
}
