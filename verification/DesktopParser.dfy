/** The parser and the printer of libdbpbase/desktop.c. */
module DesktopParser {
  import opened Sequences
  import opened CStrings
  import opened Escapes
  import opened DesktopFile

  const LINE_LIMIT := 4096

  predicate KeyChar(c: char) { c != '\n' && c != '=' }

  predicate NotNewline(c: char) { c != '\n' }

  /** The leading characters of s up to the first newline. */
  function Line(s: string): string { s[..Span(s, NotNewline)] }

  /** What sscanf(str, "%[^\n=] = %[^\n]\n", key, value) stores. The format runs on over newlines:
      the blanks around the equals sign may be line ends. */
  function ScanKey(str: string): string { str[..Span(str, KeyChar)] }

  function ScanValue(str: string): string {
    var rest := SkipSpace(str[Span(str, KeyChar)..]);
    if rest != "" && rest[0] == '=' then Line(SkipSpace(rest[1..])) else ""
  }

  /** The variables of dbp_desktop_parse_append that live across lines. The two buffers keep what
      an earlier line left in them when a conversion stores nothing. */
  datatype Parser = Parser(secs: Sections, section: nat, buff: string, buff2: string)

  predicate Ready(p: Parser) { Shaped(p.secs) && p.section < |p.secs| }

  /** A conversion that matches nothing leaves the buffer alone. */
  function Stored(scanned: string, stale: string): string {
    if scanned == "" then stale else scanned
  }

  /** What the parser makes of one line: nothing, a section header (what follows the bracket), or a
      key and a value that is still escaped. */
  datatype Content = Nothing | Header(text: string) | Pair(key: string, raw: string)

  /** A line of n characters from which a key and a value have been scanned. */
  function Classify(n: nat, key: string, raw: string): Content {
    if n >= LINE_LIMIT || key == "" then Nothing
    else if key[0] == '[' then Header(key[1..])
    else if key[0] == ';' || key[0] == '#' then Nothing
    else Pair(key, raw)
  }

  /** str is all the text from the start of the line on. */
  function ReadLine(str: string): Content {
    Classify(Find(str, '\n'), ScanKey(str), ScanValue(str))
  }

  /** A way to read a line. Everything about lines below is about ReadLine; giving it a name keeps its
      definition out of the proofs that do not need it. */
  type Reader = string -> Content

  ghost predicate IsReadLine(read: Reader) {
    forall str :: read(str) == ReadLine(str)
  }

  function Lines(read: Reader, str: string): (lines: seq<Content>)
    ensures lines != []
    decreases |str|
  {
    var n := Find(str, '\n');
    [read(str)] + if n == |str| then [] else Lines(read, str[n + 1..])
  }

  function SectionLine(p: Parser, text: string): (q: Parser)
    requires Ready(p)
    ensures Ready(q)
  {
    var close := Find(text, ']');
    if close == |text| then p
    else
      var name := Stored(text[..close], p.buff);
      var (secs, id) := WithSection(p.secs, name);
      Parser(secs, id, name, p.buff2)
  }

  /** A key: without a bracket, with an open one only, or with a locale. */
  datatype Split = Plain | Broken | Parts(first: string, second: string)

  function SplitKey(key: string): Split {
    var open, close := Find(key, '['), Find(key, ']');
    if open == |key| then Plain
    else if close == |key| then Broken
    else ScanParts(key[open := '\n'][..close])
  }

  /** sscanf(key, "%[^\n]\n%[^\n]", buff, buff2): the second part is only looked for after a first. */
  function ScanParts(parts: string): Split {
    var first := Line(parts);
    Parts(first, if first == "" then "" else Line(SkipSpace(parts[|first|..])))
  }

  /** A line key=value or key[locale]=value. */
  function EntryLine(p: Parser, key: string, value: string): (q: Parser)
    requires Ready(p)
    ensures Ready(q)
  {
    match SplitKey(key)
    case Plain => p.(secs := WithEntry(p.secs, Entry(key, "", value), p.section).0)
    case Broken => p
    case Parts(first, second) => LocaleLine(p, first, second, value)
  }

  /** The two parts of a key with a locale, as far as they were scanned, go through the buffers. */
  function LocaleLine(p: Parser, first: string, second: string, value: string): (q: Parser)
    requires Ready(p)
    ensures Ready(q)
  {
    var buff, buff2 := Stored(first, p.buff), Stored(second, p.buff2);
    Parser(WithEntry(p.secs, Entry(buff, buff2, value), p.section).0, p.section, buff, buff2)
  }

  /** One round of the parser's loop. */
  function Act(p: Parser, line: Content): (q: Parser)
    requires Ready(p)
    ensures Ready(q)
  {
    match line
    case Nothing => p
    case Header(text) => SectionLine(p, text)
    case Pair(key, raw) => EntryLine(p, key, Unescape(raw))
  }

  function Run(p: Parser, lines: seq<Content>): (q: Parser)
    requires Ready(p)
    ensures Ready(q)
    decreases |lines|
  {
    if lines == [] then p else Run(Act(p, lines[0]), lines[1..])
  }

  /** Carriage returns are turned into newlines before anything else. */
  function Normalized(str: string): string {
    seq(|str|, i requires 0 <= i < |str| => if str[i] == '\r' then '\n' else str[i])
  }

  const EMPTY: Sections := [Section(None, [])]

  function ParseBy(read: Reader, text: string, buff: string, buff2: string): (secs: Sections)
    ensures Shaped(secs)
  {
    Run(Parser(EMPTY, 0, buff, buff2), Lines(read, Normalized(text))).secs
  }

  /** Parsing text into a new file; the buffers start out with whatever is on the stack. */
  function Parse(text: string, buff: string, buff2: string): (secs: Sections)
    ensures Shaped(secs)
  {
    ParseBy(ReadLine, text, buff, buff2)
  }

  method ReplaceReturns(text: string) returns (str: string)
    ensures str == Normalized(text)
  {
    str := text;
    while Find(str, '\r') < |str|
      invariant Normalized(str) == Normalized(text)
      decreases |str| - Find(str, '\r')
    {
      var n := Find(str, '\r');
      ghost var before := str;
      str := str[n := '\n'];
      assert Find(str, '\r') > n by {
        assert forall i :: 0 <= i <= n ==> str[i] != '\r';
      }
    }
    assert forall i :: 0 <= i < |str| ==> str[i] != '\r';
  }

  /** dbp_desktop_parse_append */
  method ParseAppend(df: File, text: string, stack: string, stack2: string)
    requires Shaped(df.sections)
    modifies df
    ensures df.sections == Run(Parser(old(df.sections), 0, stack, stack2), Lines(ReadLine, Normalized(text))).secs
    ensures Shaped(df.sections)
  {
    var str := ReplaceReturns(text);
    ParseLines(df, str, stack, stack2, ReadLine);
  }

  method ParseLines(df: File, text: string, stack: string, stack2: string, ghost read: Reader)
    requires Shaped(df.sections) && IsReadLine(read)
    modifies df
    ensures df.sections == Run(Parser(old(df.sections), 0, stack, stack2), Lines(read, text)).secs
    ensures Shaped(df.sections)
  {
    var str, section, buff, buff2 := text, 0, stack, stack2;
    ghost var p := Parser(df.sections, section, buff, buff2);
    ghost var all := Run(p, Lines(read, str));
    var brk := false;
    while !brk
      invariant p == Parser(df.sections, section, buff, buff2) && Ready(p)
      invariant all == if brk then p else Run(p, Lines(read, str))
      decreases !brk, |str|
    {
      var n := Find(str, '\n');
      ghost var more := MoreLines(read, str);
      RunFirst(p, read(str), more);
      p := Act(p, read(str));
      section, buff, buff2 := TakeLine(df, str, n, section, buff, buff2, read);
      if n == |str| {
        brk := true;
      } else {
        str := str[n + 1..];
      }
    }
  }

  lemma MoreLines(read: Reader, str: string) returns (more: seq<Content>)
    ensures Lines(read, str) == [read(str)] + more
    ensures var n := Find(str, '\n'); more == if n == |str| then [] else Lines(read, str[n + 1..])
  {
    if Find(str, '\n') == |str| {
      more := [];
    } else {
      more := Lines(read, str[Find(str, '\n') + 1..]);
    }
  }

  lemma RunFirst(p: Parser, line: Content, more: seq<Content>)
    requires Ready(p)
    ensures Run(p, [line] + more) == Run(Act(p, line), more)
  {
    assert ([line] + more)[1..] == more;
  }

  /** The body of the loop: str starts with a line of n characters. */
  method TakeLine(df: File, str: string, n: nat, section0: nat, stale: string, stale2: string, ghost read: Reader)
    returns (section: nat, buff: string, buff2: string)
    requires n == Find(str, '\n') && Ready(Parser(df.sections, section0, stale, stale2)) && IsReadLine(read)
    modifies df
    ensures Parser(df.sections, section, buff, buff2)
              == Act(Parser(old(df.sections), section0, stale, stale2), read(str))
  {
    section, buff, buff2 := section0, stale, stale2;
    var key, value := ScanKey(str), ScanValue(str);
    if n >= LINE_LIMIT || key == "" {
    } else if key[0] == '[' {
      var close := Find(key[1..], ']');
      if close < |key[1..]| {
        buff := Stored(key[1..][..close], buff);
        section := df.SectionNew(buff);
      }
    } else if key[0] == ';' || key[0] == '#' {
    } else {
      buff, buff2 := TakePair(df, key, Unescape(value), section, buff, buff2);
    }
  }

  method TakePair(df: File, key: string, value: string, section: nat, stale: string, stale2: string)
    returns (buff: string, buff2: string)
    requires Ready(Parser(df.sections, section, stale, stale2))
    modifies df
    ensures Parser(df.sections, section, buff, buff2)
              == EntryLine(Parser(old(df.sections), section, stale, stale2), key, value)
  {
    buff, buff2 := stale, stale2;
    if '[' in key {
      if ']' in key {
        var parts := key[Find(key, '[') := '\n'][..Find(key, ']')];
        var first := Line(parts);
        if first != "" {
          buff2 := Stored(Line(SkipSpace(parts[|first|..])), buff2);
        }
        buff := Stored(first, buff);
        var _ := df.EntryNew(Entry(buff, buff2, value), section);
      }
    } else {
      var _ := df.EntryNew(Entry(key, "", value), section);
    }
  }

  // ---- The printer ----

  function KeyText(e: Entry): string {
    e.key + if e.locale != "" then "[" + e.locale + "]" else ""
  }

  function EntryText(e: Entry): string {
    if e.key == "" then "" else KeyText(e) + "=" + Escape(e.value) + "\n"
  }

  function EntriesText(entries: seq<Entry>): string {
    if entries == [] then "" else EntryText(entries[0]) + EntriesText(entries[1..])
  }

  function HeaderText(name: Option<string>): string {
    match name
    case None => ""
    case Some(s) => "[" + s + "]\n"
  }

  function Text(secs: Sections): string {
    if secs == [] then "" else HeaderText(secs[0].name) + EntriesText(secs[0].entries) + Text(secs[1..])
  }

  /** dbp_desktop_write, with the file it writes as its result. */
  method Write(df: File) returns (out: string)
    ensures out == Text(df.sections)
  {
    out := "";
    var secs := df.sections;
    for i := 0 to |secs|
      invariant Text(secs) == out + Text(secs[i..])
    {
      var header := if secs[i].name.Some? then "[" + secs[i].name.value + "]\n" else "";
      var lines := WriteEntries(secs[i].entries);
      assert secs[i..][1..] == secs[i + 1..];
      Assoc(out, header + lines, Text(secs[i + 1..]));
      out := out + (header + lines);
    }
  }

  method WriteEntries(entries: seq<Entry>) returns (out: string)
    ensures out == EntriesText(entries)
  {
    out := "";
    for j := 0 to |entries|
      invariant EntriesText(entries) == out + EntriesText(entries[j..])
    {
      var line := WriteEntry(entries[j]);
      assert entries[j..][1..] == entries[j + 1..];
      Assoc(out, line, EntriesText(entries[j + 1..]));
      out := out + line;
    }
  }

  method WriteEntry(e: Entry) returns (line: string)
    ensures line == EntryText(e)
  {
    if e.key == "" {
      return "";
    }
    if e.locale != "" {
      line := e.key + "[" + e.locale + "]=";
    } else {
      line := e.key + "=";
    }
    var value := WriteFormat(e.value);
    line := line + value + "\n";
  }
}
