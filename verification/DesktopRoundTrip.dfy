/** Reading back what dbp_desktop_write wrote. */
module DesktopRoundTrip {
  import opened Sequences
  import opened CStrings
  import opened Escapes
  import opened DesktopFile
  import opened DesktopParser

  // ---- Files the format can express ----

  predicate KeyOk(c: char) { c != '=' && c != '\n' && c != '\r' && c != '[' && c != ']' }

  predicate LocaleOk(c: char) { c != '=' && c != '\n' && c != '\r' && c != ']' }

  predicate KeyedEntry(e: Entry) {
    && e.key != "" && (forall c | c in e.key :: KeyOk(c)) && e.key[0] != ';' && e.key[0] != '#'
    && (forall c | c in e.locale :: LocaleOk(c)) && (e.locale != "" ==> !IsSpace(e.locale[0]))
  }

  /** All that is asked of an entry but for its value. */
  predicate FormEntry(e: Entry) { KeyedEntry(e) && |EntryText(e)| <= LINE_LIMIT }

  /** A value that keeps its first character: blanks after the equals sign are skipped, and an empty
      value makes the scan run on into the next line. */
  predicate GoodValue(v: string) {
    v != "" && (IsSpace(v[0]) ==> Special(v[0]))
  }

  predicate GoodEntry(e: Entry) { FormEntry(e) && GoodValue(e.value) }

  predicate GoodName(name: string) {
    name != "" && (forall c | c in name :: LocaleOk(c)) && |name| + 3 <= LINE_LIMIT
  }

  predicate DistinctEntries(entries: seq<Entry>) {
    forall i, j :: 0 <= i < j < |entries| ==>
                     !(entries[i].key == entries[j].key && entries[i].locale == entries[j].locale)
  }

  predicate FormSection(s: Section) {
    && (forall e | e in s.entries :: FormEntry(e))
    && (s.name.Some? ==> GoodName(s.name.value) && DistinctEntries(s.entries))
  }

  /** The unnamed section may repeat a key, the others may not, and their names differ. */
  predicate Form(secs: Sections) {
    Shaped(secs) && (forall s | s in secs :: FormSection(s)) && DistinctNames(secs)
  }

  predicate GoodSection(s: Section) {
    FormSection(s) && forall e | e in s.entries :: GoodValue(e.value)
  }

  predicate Good(secs: Sections) {
    Form(secs) && forall s | s in secs :: GoodSection(s)
  }

  predicate DistinctNames(secs: Sections) {
    forall i, j :: 0 <= i < j < |secs| ==> secs[i].name != secs[j].name
  }

  // ---- What comes back ----

  /** The text that is scanned where v was written and the text goes on with `rest`. */
  function RawValue(v: string, rest: string): string {
    Line(SkipSpace(Escape(v) + ("\n" + rest)))
  }

  function RawEntry(e: Entry, rest: string): Entry { e.(value := RawValue(e.value, rest)) }

  /** The entries as they are scanned, with their values still escaped. */
  function RawEntries(entries: seq<Entry>, rest: string): seq<Entry> {
    if entries == [] then []
    else [RawEntry(entries[0], EntriesText(entries[1..]) + rest)] + RawEntries(entries[1..], rest)
  }

  function RawSections(secs: Sections): Sections {
    if secs == [] then []
    else [Section(secs[0].name, RawEntries(secs[0].entries, Text(secs[1..])))] + RawSections(secs[1..])
  }

  function Decode(e: Entry): Entry { e.(value := Unescape(e.value)) }

  function DecodeEntries(entries: seq<Entry>): (r: seq<Entry>)
    ensures |r| == |entries| && forall i :: 0 <= i < |r| ==> r[i] == Decode(entries[i])
  {
    seq(|entries|, i requires 0 <= i < |entries| => Decode(entries[i]))
  }

  function DecodeSection(s: Section): Section { Section(s.name, DecodeEntries(s.entries)) }

  function DecodeSections(secs: Sections): (r: Sections)
    ensures |r| == |secs| && forall i :: 0 <= i < |r| ==> r[i] == DecodeSection(secs[i])
  {
    seq(|secs|, i requires 0 <= i < |secs| => DecodeSection(secs[i]))
  }

  /** What a written file is read as. */
  function ReadSections(secs: Sections): Sections { DecodeSections(RawSections(secs)) }

  // ---- The lines of the text ----

  lemma LineEnds(line: string, rest: string)
    requires '\n' !in line
    ensures var str := line + ("\n" + rest); Find(str, '\n') == |line| && str[|line| + 1..] == rest
  {
    FindPast(line, "\n" + rest, '\n');
  }

  lemma FirstLine(read: Reader, line: string, rest: string)
    requires '\n' !in line
    ensures var str := line + ("\n" + rest); Lines(read, str) == [read(str)] + Lines(read, rest)
  {
    LineEnds(line, rest);
    var _ := MoreLines(read, line + ("\n" + rest));
  }

  /** The parser ends its key at the equals sign or at the end of the line. */
  lemma KeySpan(key: string, tail: string)
    requires forall c | c in key :: KeyChar(c)
    requires tail != "" && !KeyChar(tail[0])
    ensures ScanKey(key + tail) == key
    ensures (key + tail)[Span(key + tail, KeyChar)..] == tail
  {
    var str := key + tail;
    assert forall i :: 0 <= i < |key| ==> str[i] == key[i];
    SpanIs(str, KeyChar, |key|);
    assert str[..|key|] == key && str[|key|..] == tail;
  }

  lemma HeaderChars(name: string)
    requires GoodName(name)
    ensures forall c | c in "[" + name + "]" :: KeyChar(c)
    ensures '\n' !in "[" + name + "]" && ("[" + name + "]")[1..] == name + "]"
  {
  }

  lemma HeaderGroups(name: string, rest: string)
    ensures HeaderText(Some(name)) + rest == "[" + name + "]" + ("\n" + rest)
  {
  }

  /** A header is read as one. */
  lemma HeaderRead(name: string, rest: string)
    requires GoodName(name)
    ensures ReadLine(HeaderText(Some(name)) + rest) == Header(name + "]")
  {
    HeaderGroups(name, rest);
    HeaderChars(name);
    var line := "[" + name + "]";
    LineEnds(line, rest);
    KeySpan(line, "\n" + rest);
    HeaderIs(|line|, line, ScanValue(line + ("\n" + rest)));
  }

  lemma HeaderIs(n: nat, key: string, value: string)
    requires key != "" && key[0] == '[' && n < LINE_LIMIT
    ensures Classify(n, key, value) == Header(key[1..])
  {
  }

  /** Escaping leaves no line end and no leading blank. */
  lemma {:induction false} EscapeShape(v: string)
    ensures '\n' !in Escape(v) && '\r' !in Escape(v)
    ensures v != "" ==> Escape(v) != "" && Escape(v)[0] == if Special(v[0]) then '\\' else v[0]
  {
    if v != "" {
      EscapeShape(v[1..]);
    }
  }

  lemma LineIs(line: string, rest: string)
    requires line != "" && '\n' !in line && !IsSpace(line[0])
    ensures Line(SkipSpace(line + ("\n" + rest))) == line
  {
    var str := line + ("\n" + rest);
    assert str[0] == line[0];
    SpanIs(str, IsSpace, 0);
    assert str[0..] == str;
    assert forall i :: 0 <= i < |line| ==> str[i] == line[i] && line[i] in line;
    SpanIs(str, NotNewline, |line|);
    assert str[..|line|] == line;
  }

  lemma ScanValueIs(key: string, tail: string)
    requires forall c | c in key :: KeyChar(c)
    ensures ScanValue(key + ("=" + tail)) == Line(SkipSpace(tail))
  {
    var r := "=" + tail;
    KeySpan(key, r);
    SpanIs(r, IsSpace, 0);
    assert r[0..] == r && r[1..] == tail;
  }

  lemma KeyTextChars(e: Entry)
    requires KeyedEntry(e)
    ensures forall c | c in KeyText(e) :: KeyChar(c)
    ensures KeyText(e)[0] == e.key[0] && KeyOk(e.key[0])
  {
    assert e.key[0] in e.key;
  }

  /** The text from a written entry on, grouped as a line and as a key and a value. */
  lemma Regroup(e: Entry, rest: string)
    requires e.key != ""
    ensures EntryText(e) + rest == KeyText(e) + "=" + Escape(e.value) + ("\n" + rest)
    ensures EntryText(e) + rest == KeyText(e) + ("=" + (Escape(e.value) + ("\n" + rest)))
  {
    Assoc(KeyText(e) + "=" + Escape(e.value), "\n", rest);
    Assoc(KeyText(e) + "=", Escape(e.value), "\n" + rest);
    Assoc(KeyText(e), "=", Escape(e.value) + ("\n" + rest));
  }

  /** The content of a line that gives an entry. */
  function PairOf(e: Entry): Content { Pair(KeyText(e), e.value) }

  lemma PairIs(n: nat, key: string, value: string)
    requires key != "" && KeyOk(key[0]) && key[0] != ';' && key[0] != '#' && n < LINE_LIMIT
    ensures Classify(n, key, value) == Pair(key, value)
  {
  }

  /** An entry is read as its key and the text that RawValue says. */
  lemma EntryRead(e: Entry, rest: string)
    requires FormEntry(e)
    ensures ReadLine(EntryText(e) + rest) == PairOf(RawEntry(e, rest))
  {
    var line := KeyText(e) + "=" + Escape(e.value);
    var tail := Escape(e.value) + ("\n" + rest);
    Regroup(e, rest);
    KeyTextChars(e);
    OneEntryLine(e);
    LineEnds(line, rest);
    KeySpan(KeyText(e), "=" + tail);
    ScanValueIs(KeyText(e), tail);
    PairIs(|line|, KeyText(e), RawValue(e.value, rest));
  }

  /** An entry is written on one line of less than the limit. */
  lemma OneEntryLine(e: Entry)
    requires FormEntry(e)
    ensures var line := KeyText(e) + "=" + Escape(e.value); '\n' !in line && |line| < LINE_LIMIT
  {
    KeyTextChars(e);
    EscapeShape(e.value);
    assert |EntryText(e)| == |KeyText(e) + "=" + Escape(e.value)| + 1;
  }

  /** A reader that reads headers and entries as they were written. */
  ghost predicate Faithful(read: Reader) {
    && (forall name, rest | GoodName(name) :: read(HeaderText(Some(name)) + rest) == Header(name + "]"))
    && (forall e, rest | FormEntry(e) :: read(EntryText(e) + rest) == PairOf(RawEntry(e, rest)))
  }

  lemma ReadLineIsFaithful()
    ensures Faithful(ReadLine)
  {
    forall name, rest | GoodName(name)
      ensures ReadLine(HeaderText(Some(name)) + rest) == Header(name + "]")
    {
      HeaderRead(name, rest);
    }
    forall e, rest | FormEntry(e)
      ensures ReadLine(EntryText(e) + rest) == PairOf(RawEntry(e, rest))
    {
      EntryRead(e, rest);
    }
  }

  lemma HeaderLines(read: Reader, name: string, rest: string)
    requires Faithful(read) && GoodName(name)
    ensures Lines(read, HeaderText(Some(name)) + rest) == [Header(name + "]")] + Lines(read, rest)
  {
    HeaderGroups(name, rest);
    HeaderChars(name);
    FirstLine(read, "[" + name + "]", rest);
  }

  lemma EntryLines(read: Reader, e: Entry, rest: string)
    requires Faithful(read) && FormEntry(e)
    ensures Lines(read, EntryText(e) + rest) == [PairOf(RawEntry(e, rest))] + Lines(read, rest)
  {
    Regroup(e, rest);
    OneEntryLine(e);
    FirstLine(read, KeyText(e) + "=" + Escape(e.value), rest);
  }

  function Pairs(entries: seq<Entry>): seq<Content> {
    if entries == [] then [] else [PairOf(entries[0])] + Pairs(entries[1..])
  }

  lemma FirstEntryText(e: Entry, more: seq<Entry>, rest: string)
    ensures EntriesText([e] + more) + rest == EntryText(e) + (EntriesText(more) + rest)
  {
    assert ([e] + more)[1..] == more;
    Assoc(EntryText(e), EntriesText(more), rest);
  }

  lemma {:induction false} EntriesRead(read: Reader, entries: seq<Entry>, rest: string)
    requires Faithful(read) && forall e | e in entries :: FormEntry(e)
    ensures Lines(read, EntriesText(entries) + rest) == Pairs(RawEntries(entries, rest)) + Lines(read, rest)
  {
    if entries == [] {
      Units(rest);
      Units(Lines(read, rest));
    } else {
      var e, more := entries[0], entries[1..];
      assert e in entries && entries == [e] + more;
      FirstEntryText(e, more, rest);
      EntryLines(read, e, EntriesText(more) + rest);
      EntriesRead(read, more, rest);
      var raw := RawEntry(e, EntriesText(more) + rest);
      assert ([raw] + RawEntries(more, rest))[1..] == RawEntries(more, rest);
      Assoc([PairOf(raw)], Pairs(RawEntries(more, rest)), Lines(read, rest));
    }
  }

  function SectionLines(secs: Sections): seq<Content> {
    if secs == [] then []
    else
      var header := match secs[0].name case None => [] case Some(name) => [Header(name + "]")];
      header + Pairs(secs[0].entries) + SectionLines(secs[1..])
  }

  lemma SectionLinesCons(s: Section, more: Sections, last: seq<Content>)
    requires s.name.Some?
    ensures SectionLines([s] + more) + last
              == [Header(s.name.value + "]")] + (Pairs(s.entries) + (SectionLines(more) + last))
  {
    assert ([s] + more)[1..] == more;
    var header := [Header(s.name.value + "]")];
    Assoc(header, Pairs(s.entries), SectionLines(more));
    Assoc(header, Pairs(s.entries) + SectionLines(more), last);
    Assoc(Pairs(s.entries), SectionLines(more), last);
  }

  lemma TextOfFirst(s: Section, more: Sections)
    ensures Text([s] + more) == HeaderText(s.name) + (EntriesText(s.entries) + Text(more))
  {
    assert ([s] + more)[1..] == more;
    Assoc(HeaderText(s.name), EntriesText(s.entries), Text(more));
  }

  /** The lines of a written file, from the second section on. */
  lemma {:induction false} SectionsRead(read: Reader, secs: Sections)
    requires Faithful(read) && forall s | s in secs :: FormSection(s) && s.name.Some?
    ensures Lines(read, Text(secs)) == SectionLines(RawSections(secs)) + Lines(read, "")
  {
    if secs == [] {
      Units(Lines(read, ""));
    } else {
      var s, more := secs[0], secs[1..];
      assert s in secs && secs == [s] + more;
      TextOfFirst(s, more);
      HeaderLines(read, s.name.value, EntriesText(s.entries) + Text(more));
      EntriesRead(read, s.entries, Text(more));
      SectionsRead(read, more);
      SectionLinesCons(Section(s.name, RawEntries(s.entries, Text(more))), RawSections(more), Lines(read, ""));
    }
  }

  // ---- What the parser makes of the lines ----

  lemma HeaderLine(p: Parser, name: string)
    requires Ready(p) && GoodName(name) && SectionIndex(p.secs, name, 0) == -1
    ensures var q := SectionLine(p, name + "]");
            q.secs == p.secs + [Section(Some(name), [])] && q.section == |p.secs|
  {
    assert forall c | c in name :: LocaleOk(c);
    FindPast(name, "]", ']');
    assert (name + "]")[..|name|] == name;
  }

  /** Where the brackets of a key with a locale are. */
  lemma Brackets(e: Entry)
    requires KeyedEntry(e) && e.locale != ""
    ensures Find(KeyText(e), '[') == |e.key| && Find(KeyText(e), ']') == |KeyText(e)| - 1
  {
    assert KeyText(e) == e.key + ("[" + (e.locale + "]"));
    assert forall c | c in e.key :: KeyOk(c);
    assert forall c | c in e.locale :: LocaleOk(c);
    FindPast(e.key, "[" + (e.locale + "]"), '[');
    FindPast(e.key, "[" + (e.locale + "]"), ']');
    FindPast("[", e.locale + "]", ']');
    FindPast(e.locale, "]", ']');
  }

  lemma SplitParts(key: string, locale: string)
    requires key != "" && (forall c | c in key :: KeyOk(c))
    requires locale != "" && (forall c | c in locale :: LocaleOk(c)) && !IsSpace(locale[0])
    ensures ScanParts(key + ("\n" + locale)) == Parts(key, locale)
  {
    var parts := key + ("\n" + locale);
    assert forall i :: 0 <= i < |key| ==> parts[i] == key[i] && key[i] in key;
    SpanIs(parts, NotNewline, |key|);
    assert parts[..|key|] == key;
    var r := parts[|key|..];
    assert r == "\n" + locale && r[1..] == locale && r[1] == locale[0];
    SpanIs(r, IsSpace, 1);
    assert forall i :: 0 <= i < |locale| ==> locale[i] in locale;
    SpanIs(locale, NotNewline, |locale|);
    assert locale[..|locale|] == locale;
  }

  lemma PartsAre(e: Entry)
    requires KeyedEntry(e) && e.locale != ""
    ensures var key := KeyText(e);
            key[|e.key| := '\n'][..|key| - 1] == e.key + ("\n" + e.locale)
  {
    var key := KeyText(e);
    assert key == e.key + ("[" + (e.locale + "]"));
  }

  /** The key text of an entry is taken apart into its key and its locale. */
  lemma SplitKeyIs(e: Entry)
    requires KeyedEntry(e)
    ensures SplitKey(KeyText(e)) == if e.locale == "" then Plain else Parts(e.key, e.locale)
  {
    if e.locale == "" {
      assert forall c | c in e.key :: KeyOk(c);
      assert KeyText(e) == e.key;
      NotFound(e.key, '[');
    } else {
      Brackets(e);
      PartsAre(e);
      SplitParts(e.key, e.locale);
    }
  }

  lemma EntryLineIs(p: Parser, e: Entry, value: string)
    requires Ready(p) && KeyedEntry(e)
    ensures var q := EntryLine(p, KeyText(e), value);
            && q.section == p.section
            && q.secs == WithEntry(p.secs, Entry(e.key, e.locale, value), p.section).0
  {
    SplitKeyIs(e);
    assert e.locale == "" ==> KeyText(e) == e.key;
  }

  /** The parser has read `front`, and of the section it is in the entries `got`. */
  predicate HasRead(p: Parser, front: Sections, name: Option<string>, got: seq<Entry>) {
    Ready(p) && p.section == |front| && p.secs == front + [Section(name, got)]
  }

  lemma PairTaken(p: Parser, front: Sections, name: Option<string>, got: seq<Entry>, e: Entry)
    requires HasRead(p, front, name, got) && KeyedEntry(e)
    requires name.Some? ==> EntryIndex(got, e.key, e.locale) == -1
    ensures HasRead(Act(p, PairOf(e)), front, name, got + [Decode(e)])
  {
    EntryLineIs(p, e, Unescape(e.value));
    EntryAppended(front, name, got, Decode(e));
  }

  lemma EntryAppended(front: Sections, name: Option<string>, got: seq<Entry>, e: Entry)
    ensures AppendToLast(front + [Section(name, got)], e) == front + [Section(name, got + [e])]
  {
  }

  lemma NotYetThere(got: seq<Entry>, e: Entry, more: seq<Entry>)
    requires DistinctEntries(got + ([e] + more))
    ensures EntryIndex(got, e.key, e.locale) == -1
  {
    var all := got + ([e] + more);
    assert all[|got|] == e && forall i :: 0 <= i < |got| ==> all[i] == got[i];
  }

  lemma DecodeCons(e: Entry, rest: seq<Entry>)
    ensures DecodeEntries([e] + rest) == [Decode(e)] + DecodeEntries(rest)
  {
    assert ([e] + rest)[0] == e && forall i :: 0 <= i < |rest| ==> ([e] + rest)[i + 1] == rest[i];
  }

  lemma DecodeKeepsDistinct(got: seq<Entry>, e: Entry, rest: seq<Entry>)
    requires DistinctEntries(got + ([e] + rest))
    ensures DistinctEntries(got + [Decode(e)] + rest)
  {
    var a, b := got + ([e] + rest), got + [Decode(e)] + rest;
    assert forall i :: 0 <= i < |a| ==> b[i].key == a[i].key && b[i].locale == a[i].locale;
  }

  /** Pairs that do not repeat a key are taken into the last section. */
  lemma {:induction false} PairsTaken(p: Parser, front: Sections, name: Option<string>, got: seq<Entry>,
                                      entries: seq<Entry>, more: seq<Content>) returns (q: Parser)
    requires HasRead(p, front, name, got)
    requires forall e | e in entries :: KeyedEntry(e)
    requires name.Some? ==> DistinctEntries(got + entries)
    ensures HasRead(q, front, name, got + DecodeEntries(entries))
    ensures Run(p, Pairs(entries) + more) == Run(q, more)
    decreases |entries|
  {
    if entries == [] {
      q := p;
      Units(got);
      Units(more);
    } else {
      var e, rest := entries[0], entries[1..];
      assert e in entries && entries == [e] + rest;
      if name.Some? {
        NotYetThere(got, e, rest);
        DecodeKeepsDistinct(got, e, rest);
      }
      PairTaken(p, front, name, got, e);
      DecodeCons(e, rest);
      Assoc(got, [Decode(e)], DecodeEntries(rest));
      Assoc([PairOf(e)], Pairs(rest), more);
      RunFirst(p, PairOf(e), Pairs(rest) + more);
      q := PairsTaken(Act(p, PairOf(e)), front, name, got + [Decode(e)], rest, more);
    }
  }

  predicate KeyedSection(s: Section) {
    && (forall e | e in s.entries :: KeyedEntry(e))
    && (s.name.Some? ==> GoodName(s.name.value) && DistinctEntries(s.entries))
  }

  lemma NotYetNamed(done: Sections, s: Section, more: Sections)
    requires DistinctNames(done + ([s] + more)) && s.name.Some?
    ensures SectionIndex(done, s.name.value, 0) == -1
  {
    var all := done + ([s] + more);
    assert all[|done|] == s && forall i :: 0 <= i < |done| ==> all[i] == done[i];
  }

  lemma SectionTaken(p: Parser, s: Section, more: seq<Content>) returns (q: Parser)
    requires Ready(p) && KeyedSection(s) && s.name.Some? && SectionIndex(p.secs, s.name.value, 0) == -1
    ensures Ready(q) && q.secs == p.secs + [DecodeSection(s)]
    ensures Run(p, [Header(s.name.value + "]")] + (Pairs(s.entries) + more)) == Run(q, more)
  {
    HeaderLine(p, s.name.value);
    var header := Header(s.name.value + "]");
    RunFirst(p, header, Pairs(s.entries) + more);
    Units(s.entries);
    Units(DecodeEntries(s.entries));
    q := PairsTaken(Act(p, header), p.secs, s.name, [], s.entries, more);
  }

  /** Sections that do not repeat a name are taken one after the other. */
  lemma {:induction false} SectionsTaken(p: Parser, secs: Sections, last: seq<Content>) returns (q: Parser)
    requires Ready(p) && DistinctNames(p.secs + secs)
    requires forall s | s in secs :: KeyedSection(s) && s.name.Some?
    ensures Ready(q) && q.secs == p.secs + DecodeSections(secs) && Run(p, SectionLines(secs) + last) == Run(q, last)
    decreases |secs|
  {
    if secs == [] {
      Units(p.secs);
      Units(last);
      q := p;
    } else {
      var s, more := secs[0], secs[1..];
      assert s in secs && secs == [s] + more;
      NotYetNamed(p.secs, s, more);
      SectionLinesCons(s, more, last);
      var r := SectionTaken(p, s, SectionLines(more) + last);
      StillDistinctNames(p.secs, s, more);
      DecodeSectionsCons(s, more);
      Assoc(p.secs, [DecodeSection(s)], DecodeSections(more));
      q := SectionsTaken(r, more, last);
    }
  }

  lemma StillDistinctNames(done: Sections, s: Section, more: Sections)
    requires DistinctNames(done + ([s] + more))
    ensures DistinctNames(done + [DecodeSection(s)] + more)
  {
    var a, b := done + ([s] + more), done + [DecodeSection(s)] + more;
    assert forall i :: 0 <= i < |a| ==> b[i].name == a[i].name;
  }

  lemma DecodeSectionsCons(s: Section, more: Sections)
    ensures DecodeSections([s] + more) == [DecodeSection(s)] + DecodeSections(more)
  {
    var all, a, b := [s] + more, DecodeSections([s] + more), [DecodeSection(s)] + DecodeSections(more);
    forall i | 0 <= i < |a|
      ensures a[i] == b[i]
    {
      assert all[i] == if i == 0 then s else more[i - 1];
    }
  }

  // ---- The text holds no carriage return ----

  lemma {:induction false} NoReturnsInEntries(entries: seq<Entry>)
    requires forall e | e in entries :: FormEntry(e)
    ensures '\r' !in EntriesText(entries)
  {
    if entries != [] {
      var e := entries[0];
      assert e in entries;
      EscapeShape(e.value);
      assert '\r' !in e.key && '\r' !in e.locale;
      NoReturnsInEntries(entries[1..]);
    }
  }

  lemma {:induction false} NoReturns(secs: Sections)
    requires forall s | s in secs :: FormSection(s)
    ensures '\r' !in Text(secs)
  {
    if secs != [] {
      var s := secs[0];
      assert s in secs;
      assert s.name.Some? ==> '\r' !in s.name.value;
      NoReturnsInEntries(s.entries);
      NoReturns(secs[1..]);
    }
  }

  // ---- The result ----

  lemma {:induction false} ReadKeepsKeys(entries: seq<Entry>, rest: string)
    requires forall e | e in entries :: FormEntry(e)
    ensures var r := RawEntries(entries, rest);
            && |r| == |entries|
            && (forall i :: 0 <= i < |r| ==> r[i].key == entries[i].key && r[i].locale == entries[i].locale)
            && (forall i :: 0 <= i < |r| ==> KeyedEntry(r[i]))
  {
    if entries != [] {
      assert entries[0] in entries;
      ReadKeepsKeys(entries[1..], rest);
      var r, more := RawEntries(entries, rest), RawEntries(entries[1..], rest);
      assert forall i :: 0 < i < |r| ==> r[i] == more[i - 1];
    }
  }

  lemma ReadKeepsSection(s: Section, rest: string)
    requires FormSection(s)
    ensures KeyedSection(Section(s.name, RawEntries(s.entries, rest)))
  {
    ReadKeepsKeys(s.entries, rest);
  }

  lemma {:induction false} ReadKeepsNames(secs: Sections)
    requires forall s | s in secs :: FormSection(s)
    ensures var r := RawSections(secs);
            && |r| == |secs| && (forall i :: 0 <= i < |r| ==> r[i].name == secs[i].name)
            && (forall s | s in r :: KeyedSection(s))
  {
    if secs != [] {
      assert secs[0] in secs;
      ReadKeepsSection(secs[0], Text(secs[1..]));
      ReadKeepsNames(secs[1..]);
    }
  }

  /** Parsing what was written gives every section and every entry back, in order, with the values
      that RawValue says, unescaped. */
  lemma ParseOfWrite(secs: Sections, buff: string, buff2: string)
    requires Form(secs)
    ensures Parse(Text(secs), buff, buff2) == ReadSections(secs)
  {
    ReadLineIsFaithful();
    ReadsBack(ReadLine, secs, buff, buff2);
  }

  lemma ReadsBack(read: Reader, secs: Sections, buff: string, buff2: string)
    requires Form(secs) && Faithful(read) && read("") == Nothing
    ensures ParseBy(read, Text(secs), buff, buff2) == ReadSections(secs)
  {
    NoReturns(secs);
    assert Normalized(Text(secs)) == Text(secs);
    var first, more := LinesOfFile(read, secs);
    LinesTaken(Parser(EMPTY, 0, buff, buff2), first, more, Lines(read, ""));
  }

  /** The lines of a written file are those of the sections that RawSections gives. */
  lemma LinesOfFile(read: Reader, secs: Sections) returns (first: Section, more: Sections)
    requires Form(secs) && Faithful(read)
    ensures [first] + more == RawSections(secs) && first.name == None && KeyedSection(first)
    ensures DistinctNames([first] + more)
    ensures forall s | s in more :: KeyedSection(s)
    ensures forall i :: 0 <= i < |more| ==> more[i].name.Some?
    ensures Lines(read, Text(secs)) == Pairs(first.entries) + (SectionLines(more) + Lines(read, ""))
  {
    FirstSection(secs);
    first, more := RawFirst(secs);
    ReadKeepsSection(secs[0], Text(secs[1..]));
    ReadKeepsNames(secs[1..]);
    SameNamesDistinct(secs, [first] + more);
    EntriesRead(read, secs[0].entries, Text(secs[1..]));
    SectionsRead(read, secs[1..]);
  }

  lemma RawFirst(secs: Sections) returns (first: Section, more: Sections)
    requires secs != []
    ensures first == Section(secs[0].name, RawEntries(secs[0].entries, Text(secs[1..])))
    ensures more == RawSections(secs[1..])
    ensures [first] + more == RawSections(secs)
  {
    first, more := Section(secs[0].name, RawEntries(secs[0].entries, Text(secs[1..]))), RawSections(secs[1..]);
  }

  lemma SameNamesDistinct(a: Sections, b: Sections)
    requires DistinctNames(a) && |b| == |a| && forall i :: 0 <= i < |a| ==> b[i].name == a[i].name
    ensures DistinctNames(b)
  {
  }

  /** The parser takes the lines of a file into an empty one. */
  lemma LinesTaken(p: Parser, first: Section, more: Sections, last: seq<Content>)
    requires p.secs == EMPTY && p.section == 0 && last == [Nothing]
    requires first.name == None && KeyedSection(first)
    requires forall s | s in more :: KeyedSection(s)
    requires forall i :: 0 <= i < |more| ==> more[i].name.Some?
    requires DistinctNames([first] + more)
    ensures Run(p, Pairs(first.entries) + (SectionLines(more) + last)).secs == DecodeSections([first] + more)
  {
    Units(first.entries);
    Units(DecodeEntries(first.entries));
    var q := PairsTaken(p, [], None, [], first.entries, SectionLines(more) + last);
    assert q.secs == [DecodeSection(first)];
    StillDistinctNames([], first, more);
    assert [] + [DecodeSection(first)] == [DecodeSection(first)] && [] + ([first] + more) == [first] + more;
    DecodeSectionsCons(first, more);
    var r := SectionsTaken(q, more, last);
    assert [Nothing] + [] == last;
    RunFirst(r, Nothing, []);
  }

  lemma FirstSection(secs: Sections)
    requires Form(secs)
    ensures Text(secs) == EntriesText(secs[0].entries) + Text(secs[1..])
    ensures secs[0].name == None && FormSection(secs[0])
    ensures forall s | s in secs[1..] :: FormSection(s) && s.name.Some?
  {
    assert secs == [secs[0]] + secs[1..] && secs[0] in secs;
    assert "" + EntriesText(secs[0].entries) == EntriesText(secs[0].entries);
  }

  // ---- Which values come back ----

  predicate Blank(s: string) { forall c | c in s :: IsSpace(c) }

  lemma NotBlankIsSeen(s: string)
    requires !Blank(s)
    ensures SkipSpace(s) != "" && !IsSpace(SkipSpace(s)[0])
  {
    var c :| c in s && !IsSpace(c);
    var i :| 0 <= i < |s| && s[i] == c;
  }

  /** The scanned text begins with a character that is not a blank. */
  lemma FirstSeen(s: string)
    ensures var t := Line(SkipSpace(s)); t != "" ==> !IsSpace(t[0])
    ensures !Blank(s) ==> Line(SkipSpace(s)) != ""
  {
    var r := SkipSpace(s);
    if !Blank(s) {
      NotBlankIsSeen(s);
    }
  }

  /** Unescaping makes nothing of nothing only, and no blank first character but a special one. */
  lemma UnescapedFirst(t: string)
    ensures Unescape(t) == "" <==> t == ""
    ensures t != "" && !IsSpace(t[0]) ==> Special(Unescape(t)[0]) || !IsSpace(Unescape(t)[0])
  {
  }

  lemma EmptyReads(rest: string)
    requires rest == "" || !Blank(rest)
    ensures Unescape(RawValue("", rest)) == "" <==> rest == ""
  {
    var s := "\n" + rest;
    assert Escape("") + s == s;
    if rest != "" {
      var c :| c in rest && !IsSpace(c);
      assert c in s;
    }
    FirstSeen(s);
    UnescapedFirst(Line(SkipSpace(s)));
    if rest == "" {
      SpanIs(s, IsSpace, 1);
    }
  }

  /** A value is read as it was written if and only if it has no adjacent special characters and
      keeps its first character, or is empty and the last in the file. */
  lemma ReadValueIff(v: string, rest: string)
    requires rest == "" || !Blank(rest)
    ensures Unescape(RawValue(v, rest)) == v <==> NoAdjacentSpecials(v) && (GoodValue(v) || (v == "" && rest == ""))
  {
    if v == "" {
      EmptyReads(rest);
    } else if GoodValue(v) {
      EscapeShape(v);
      LineIs(Escape(v), rest);
      UnescapeUndoesEscapeIff(v);
    } else {
      var t := Line(SkipSpace(Escape(v) + ("\n" + rest)));
      FirstSeen(Escape(v) + ("\n" + rest));
      UnescapedFirst(t);
    }
  }

  predicate KeepsValue(v: string, last: bool) {
    NoAdjacentSpecials(v) && (GoodValue(v) || (v == "" && last))
  }

  /** All values are such that they are read as they were written. */
  predicate EntriesKept(entries: seq<Entry>, last: bool) {
    forall j :: 0 <= j < |entries| ==> KeepsValue(entries[j].value, last && j == |entries| - 1)
  }

  predicate AllKept(secs: Sections) {
    forall i :: 0 <= i < |secs| ==> EntriesKept(secs[i].entries, i == |secs| - 1)
  }

  lemma EntryTextNotBlank(e: Entry, rest: string)
    requires e.key != ""
    ensures !Blank(EntryText(e) + rest)
  {
    Regroup(e, rest);
    var tail := Escape(e.value) + ("\n" + rest);
    var str := KeyText(e) + ("=" + tail);
    assert str[|KeyText(e)|] == '=' && '=' in str && !IsSpace('=');
  }

  /** What follows an entry is nothing at the end of the file, and not blank elsewhere. */
  lemma RestOfEntries(more: seq<Entry>, rest: string)
    requires forall e | e in more :: FormEntry(e)
    requires rest == "" || !Blank(rest)
    ensures var r := EntriesText(more) + rest; (r == "" || !Blank(r)) && (r == "" <==> more == [] && rest == "")
  {
    if more == [] {
      Units(rest);
    } else {
      assert more[0] in more && more == [more[0]] + more[1..];
      FirstEntryText(more[0], more[1..], rest);
      EntryTextNotBlank(more[0], EntriesText(more[1..]) + rest);
    }
  }

  lemma KeptCons(e: Entry, more: seq<Entry>, last: bool)
    ensures EntriesKept([e] + more, last) <==> KeepsValue(e.value, last && more == []) && EntriesKept(more, last)
  {
    var all := [e] + more;
    assert all[0] == e && forall j :: 0 <= j < |more| ==> all[j + 1] == more[j];
    if EntriesKept(all, last) {
      forall j | 0 <= j < |more|
        ensures KeepsValue(more[j].value, last && j == |more| - 1)
      {
        assert KeepsValue(all[j + 1].value, last && j + 1 == |all| - 1);
      }
    }
  }

  lemma {:induction false} EntriesKeptIff(entries: seq<Entry>, rest: string)
    requires forall e | e in entries :: FormEntry(e)
    requires rest == "" || !Blank(rest)
    ensures DecodeEntries(RawEntries(entries, rest)) == entries <==> EntriesKept(entries, rest == "")
  {
    if entries != [] {
      var e, more := entries[0], entries[1..];
      assert entries == [e] + more;
      RestOfEntries(more, rest);
      ReadValueIff(e.value, EntriesText(more) + rest);
      EntriesKeptIff(more, rest);
      KeptCons(e, more, rest == "");
      var raw := RawEntry(e, EntriesText(more) + rest);
      DecodeCons(raw, RawEntries(more, rest));
      FirstOfBoth(Decode(raw), DecodeEntries(RawEntries(more, rest)), e, more);
    }
  }

  lemma FirstOfBoth<T>(a: T, s: seq<T>, b: T, t: seq<T>)
    ensures [a] + s == [b] + t <==> a == b && s == t
  {
    if [a] + s == [b] + t {
      assert ([a] + s)[0] == ([b] + t)[0] && ([a] + s)[1..] == ([b] + t)[1..];
    }
  }

  lemma TextOfSections(secs: Sections)
    requires forall s | s in secs :: s.name.Some?
    ensures (Text(secs) == "" || !Blank(Text(secs))) && (Text(secs) == "" <==> secs == [])
  {
    if secs != [] {
      assert secs[0] in secs && Text(secs)[0] == '[';
      assert Text(secs)[0] in Text(secs);
    }
  }

  lemma AllKeptCons(s: Section, more: Sections)
    ensures AllKept([s] + more) <==> EntriesKept(s.entries, more == []) && AllKept(more)
  {
    var all := [s] + more;
    assert all[0] == s && forall i :: 0 <= i < |more| ==> all[i + 1] == more[i];
    if AllKept(all) {
      forall i | 0 <= i < |more|
        ensures EntriesKept(more[i].entries, i == |more| - 1)
      {
        assert EntriesKept(all[i + 1].entries, i + 1 == |all| - 1);
      }
    }
  }

  lemma {:induction false} SectionsKeptIff(secs: Sections)
    requires forall s | s in secs :: FormSection(s)
    requires forall i :: 0 < i < |secs| ==> secs[i].name.Some?
    ensures ReadSections(secs) == secs <==> AllKept(secs)
  {
    if secs != [] {
      var s, more := secs[0], secs[1..];
      assert s in secs && secs == [s] + more;
      assert forall i :: 0 <= i < |more| ==> more[i] == secs[i + 1];
      TextOfSections(more);
      EntriesKeptIff(s.entries, Text(more));
      SectionsKeptIff(more);
      AllKeptCons(s, more);
      var raw := Section(s.name, RawEntries(s.entries, Text(more)));
      DecodeSectionsCons(raw, RawSections(more));
      FirstOfBoth(DecodeSection(raw), ReadSections(more), s, more);
    }
  }

  /** A file of the right form comes back unchanged exactly when every value has no two adjacent
      special characters and keeps its first character; the very last one may also be empty. */
  lemma RoundTripExact(secs: Sections, buff: string, buff2: string)
    requires Form(secs)
    ensures Parse(Text(secs), buff, buff2) == secs <==> AllKept(secs)
  {
    ParseOfWrite(secs, buff, buff2);
    SectionsKeptIff(secs);
  }

  predicate AllSpread(secs: Sections) {
    forall i, j :: 0 <= i < |secs| && 0 <= j < |secs[i].entries| ==>
                     NoAdjacentSpecials(secs[i].entries[j].value)
  }

  /** If all values keep their first character, the file comes back unchanged exactly when no value
      has two adjacent special characters. */
  lemma RoundTripIff(secs: Sections, buff: string, buff2: string)
    requires Good(secs)
    ensures Parse(Text(secs), buff, buff2) == secs <==> AllSpread(secs)
  {
    RoundTripExact(secs, buff, buff2);
    forall i, j | 0 <= i < |secs| && 0 <= j < |secs[i].entries|
      ensures GoodValue(secs[i].entries[j].value)
    {
      assert secs[i] in secs && secs[i].entries[j] in secs[i].entries;
    }
    if AllKept(secs) {
      forall i, j | 0 <= i < |secs| && 0 <= j < |secs[i].entries|
        ensures NoAdjacentSpecials(secs[i].entries[j].value)
      {
        assert EntriesKept(secs[i].entries, i == |secs| - 1);
      }
    }
  }
}
