/** Parsing further text into an existing file, as the override mechanism of dbpd does: what the
    file already says stays said. */
module DesktopOverrides {
  import opened CStrings
  import opened Escapes
  import opened DesktopFile
  import opened DesktopParser

  /** b has grown out of a: sections were added at the end, and entries at the end of sections. */
  predicate Extends(a: Sections, b: Sections) {
    && |a| <= |b|
    && forall i :: 0 <= i < |a| ==> b[i].name == a[i].name && a[i].entries <= b[i].entries
  }

  lemma ExtendsTransitive(a: Sections, b: Sections, c: Sections)
    requires Extends(a, b) && Extends(b, c)
    ensures Extends(a, c)
  {
  }

  lemma EntryExtends(secs: Sections, entry: Entry, section: nat)
    requires section < |secs|
    ensures Extends(secs, WithEntry(secs, entry, section).0)
  {
  }

  lemma SectionLineExtends(p: Parser, text: string)
    requires Ready(p)
    ensures Extends(p.secs, SectionLine(p, text).secs)
  {
  }

  lemma EntryLineExtends(p: Parser, key: string, value: string)
    requires Ready(p)
    ensures Extends(p.secs, EntryLine(p, key, value).secs)
  {
    var q := EntryLine(p, key, value);
    if SplitKey(key).Plain? {
      EntryExtends(p.secs, Entry(key, "", value), p.section);
    } else {
      EntryExtends(p.secs, Entry(q.buff, q.buff2, value), p.section);
    }
  }

  lemma ActExtends(p: Parser, line: Content)
    requires Ready(p)
    ensures Extends(p.secs, Act(p, line).secs)
  {
    match line {
      case Nothing =>
      case Header(text) => SectionLineExtends(p, text);
      case Pair(key, raw) => EntryLineExtends(p, key, Unescape(raw));
    }
  }

  lemma {:induction false} RunExtends(p: Parser, lines: seq<Content>)
    requires Ready(p)
    ensures Extends(p.secs, Run(p, lines).secs)
    decreases |lines|
  {
    if lines != [] {
      var q := Act(p, lines[0]);
      ActExtends(p, lines[0]);
      RunExtends(q, lines[1..]);
      ExtendsTransitive(p.secs, q.secs, Run(q, lines[1..]).secs);
    }
  }

  /** A text to be parsed and what its parse finds in the two line buffers. */
  datatype Input = Input(text: string, buff: string, buff2: string)

  /** A sequence of calls of dbp_desktop_parse_append on one file. */
  function AppendAll(secs: Sections, inputs: seq<Input>): (r: Sections)
    requires Shaped(secs)
    ensures Shaped(r)
    decreases |inputs|
  {
    if inputs == [] then secs
    else
      var p := Parser(secs, 0, inputs[0].buff, inputs[0].buff2);
      AppendAll(Run(p, Lines(ReadLine, Normalized(inputs[0].text))).secs, inputs[1..])
  }

  lemma {:induction false} AppendAllExtends(secs: Sections, inputs: seq<Input>)
    requires Shaped(secs)
    ensures Extends(secs, AppendAll(secs, inputs))
    decreases |inputs|
  {
    if inputs != [] {
      var p := Parser(secs, 0, inputs[0].buff, inputs[0].buff2);
      var next := Run(p, Lines(ReadLine, Normalized(inputs[0].text))).secs;
      RunExtends(p, Lines(ReadLine, Normalized(inputs[0].text)));
      AppendAllExtends(next, inputs[1..]);
      ExtendsTransitive(secs, next, AppendAll(secs, inputs));
    }
  }

  lemma {:induction false} EntryIndexStable(a: seq<Entry>, b: seq<Entry>, key: string, locale: string)
    requires a <= b && EntryIndex(a, key, locale) >= 0
    ensures EntryIndex(b, key, locale) == EntryIndex(a, key, locale)
  {
    var n, m := EntryIndex(a, key, locale), EntryIndex(b, key, locale);
    assert b[n] == a[n];
    assert forall i :: 0 <= i < |a| ==> b[i] == a[i];
  }

  lemma SectionIndexStable(a: Sections, b: Sections, name: string)
    requires Extends(a, b) && a != [] && SectionIndex(a, name, 1) >= 0
    ensures SectionIndex(b, name, 1) == SectionIndex(a, name, 1)
  {
    var n, m := SectionIndex(a, name, 1), SectionIndex(b, name, 1);
    assert b[n].name == a[n].name;
    assert forall i :: 1 <= i < |a| ==> b[i].name == a[i].name;
  }

  /** What an exact lookup once found, it finds for ever, whatever is parsed into the file: an
      override that was read first is never undone by the package's own text. */
  lemma FirstValueWins(secs: Sections, inputs: seq<Input>, section: Option<string>, key: string, locale: string)
    requires Shaped(secs) && Exact(secs, section, key, locale).Some?
    ensures Exact(AppendAll(secs, inputs), section, key, locale) == Exact(secs, section, key, locale)
  {
    var after := AppendAll(secs, inputs);
    AppendAllExtends(secs, inputs);
    var s := LookupSection(secs, section);
    if section.Some? {
      SectionIndexStable(secs, after, section.value);
    }
    EntryIndexStable(secs[s].entries, after[s].entries, key, locale);
  }

  /** dbp_desktop_entry_new puts a new entry where a lookup in the intended section finds it
      exactly when that section is the last one. */
  lemma NewEntryFoundIffSectionLast(secs: Sections, entry: Entry, section: nat)
    requires Shaped(secs) && section < |secs|
    requires LookupSection(secs, secs[section].name) == section
    requires EntryIndex(secs[section].entries, entry.key, entry.locale) == -1
    ensures Exact(WithEntry(secs, entry, section).0, secs[section].name, entry.key, entry.locale)
              == (if section == |secs| - 1 then Some(entry.value) else None)
  {
    var after := WithEntry(secs, entry, section).0;
    EntryExtends(secs, entry, section);
    if secs[section].name.Some? {
      SectionIndexStable(secs, after, secs[section].name.value);
    }
    if section == |secs| - 1 {
      var n := EntryIndex(after[section].entries, entry.key, entry.locale);
      assert after[section].entries[|secs[section].entries|] == entry;
      assert forall i :: 0 <= i < |secs[section].entries| ==>
          after[section].entries[i] == secs[section].entries[i];
    }
  }
}
