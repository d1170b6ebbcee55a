/** The desktop file store of libdbpbase/desktop.c: sections of (key, locale, value) entries. */
module DesktopFile {
  import opened CStrings
  import opened Escapes

  datatype Option<+T> = None | Some(value: T)

  datatype Entry = Entry(key: string, locale: string, value: string)

  /** Only the first section of a file has no name. */
  datatype Section = Section(name: Option<string>, entries: seq<Entry>)

  type Sections = seq<Section>

  /** The state of a file that has been created: one unnamed section, then named ones. */
  predicate Shaped(secs: Sections) {
    && secs != [] && secs[0].name == None
    && forall i :: 0 < i < |secs| ==> secs[i].name.Some?
  }

  // ---- Lookups ----

  /** The first entry with this key and locale, or -1: dbp_desktop_lookup_entry. */
  function EntryIndex(entries: seq<Entry>, key: string, locale: string): (n: int)
    ensures -1 <= n < |entries|
    ensures n >= 0 ==> entries[n].key == key && entries[n].locale == locale
    ensures forall i :: 0 <= i < (if n >= 0 then n else |entries|) ==>
              !(entries[i].key == key && entries[i].locale == locale)
  {
    if entries == [] then -1
    else if entries[0].key == key && entries[0].locale == locale then 0
    else
      var n := EntryIndex(entries[1..], key, locale);
      if n == -1 then -1 else n + 1
  }

  /** The first section called `name` from position `from` on, or -1. */
  function SectionIndex(secs: Sections, name: string, from: nat): (n: int)
    requires from <= |secs|
    ensures n == -1 || from <= n < |secs|
    ensures n >= 0 ==> secs[n].name == Some(name)
    ensures forall i :: from <= i < (if n >= 0 then n else |secs|) ==> secs[i].name != Some(name)
    decreases |secs| - from
  {
    if from == |secs| then -1
    else if secs[from].name == Some(name) then from
    else SectionIndex(secs, name, from + 1)
  }

  /** dbp_desktop_lookup_section: no name asks for the unnamed section, a name for a later one. */
  function LookupSection(secs: Sections, name: Option<string>): (n: int)
    requires secs != []
    ensures -1 <= n < |secs|
  {
    match name
    case None => 0
    case Some(s) => SectionIndex(secs, s, 1)
  }

  /** The value stored for exactly this section, key and locale. */
  function Exact(secs: Sections, section: Option<string>, key: string, locale: string): Option<string>
    requires secs != []
  {
    var s := LookupSection(secs, section);
    if s < 0 then None
    else
      var e := EntryIndex(secs[s].entries, key, locale);
      if e < 0 then None else Some(secs[s].entries[e].value)
  }

  /** dbp_desktop_lookup: the full locale, then the locale without its variant, then none. */
  function Lookup(secs: Sections, key: string, locale: string, section: Option<string>): Option<string>
    requires secs != []
  {
    var full := Exact(secs, section, key, locale);
    var base := Exact(secs, section, key, locale[..Find(locale, '@')]);
    if full.Some? then full else if base.Some? then base else Exact(secs, section, key, "")
  }

  /** The first value that there is. */
  function FirstGiven(values: seq<Option<string>>): Option<string> {
    if values == [] then None else if values[0].Some? then values[0] else FirstGiven(values[1..])
  }

  /** A locale with a variant goes from the most to the least particular value. */
  lemma LookupWithVariant(secs: Sections, key: string, base: string, variant: string, section: Option<string>)
    requires secs != [] && '@' !in base
    ensures Lookup(secs, key, base + "@" + variant, section)
            == FirstGiven([Exact(secs, section, key, base + "@" + variant), Exact(secs, section, key, base),
                           Exact(secs, section, key, "")])
  {
    var locale := base + "@" + variant;
    assert locale[|base|] == '@' && forall i :: 0 <= i < |base| ==> locale[i] == base[i];
    assert locale[..Find(locale, '@')] == base;
    FirstOfThree(Exact(secs, section, key, locale), Exact(secs, section, key, base), Exact(secs, section, key, ""));
  }

  lemma LookupWithoutVariant(secs: Sections, key: string, locale: string, section: Option<string>)
    requires secs != [] && '@' !in locale
    ensures Lookup(secs, key, locale, section)
            == FirstGiven([Exact(secs, section, key, locale), Exact(secs, section, key, "")])
  {
    NotFound(locale, '@');
    assert locale[..|locale|] == locale;
    var full, none := Exact(secs, section, key, locale), Exact(secs, section, key, "");
    FirstOfThree(full, none, none);
    assert [full, none][1..] == [none];
  }

  lemma FirstOfThree(a: Option<string>, b: Option<string>, c: Option<string>)
    ensures FirstGiven([a, b, c]) == if a.Some? then a else if b.Some? then b else c
    ensures FirstGiven([b]) == b
  {
    assert [a, b, c][1..] == [b, c] && [b, c][1..] == [c] && [c][1..] == [] && [b][1..] == [];
    assert FirstGiven([c]) == c && FirstGiven([b]) == b;
    assert FirstGiven([b, c]) == if b.Some? then b else c;
  }

  // ---- Adding sections and entries ----

  /** dbp_desktop_section_new for a name */
  function WithSection(secs: Sections, name: string): (Sections, nat)
  {
    var n := SectionIndex(secs, name, 0);
    if n >= 0 then (secs, n) else (secs + [Section(Some(name), [])], |secs|)
  }

  /** dbp_desktop_entry_new: duplicates are looked for in the given section, and not at all in the
      unnamed one, but the entry goes into the last section. */
  function WithEntry(secs: Sections, entry: Entry, section: nat): (Sections, nat)
    requires section < |secs|
  {
    var e := if secs[section].name == None then -1 else EntryIndex(secs[section].entries, entry.key, entry.locale);
    if e >= 0 then (secs, e)
    else (AppendToLast(secs, entry), |secs[|secs| - 1].entries|)
  }

  function AppendToLast(secs: Sections, entry: Entry): (r: Sections)
    requires secs != []
    ensures |r| == |secs|
  {
    var last := |secs| - 1;
    secs[last := Section(secs[last].name, secs[last].entries + [entry])]
  }

  /** struct DBPDesktopFile */
  class File {
    var sections: Sections

    /** The start of dbp_desktop_parse: one section without a name. */
    constructor ()
      ensures sections == [Section(None, [])]
    {
      sections := [Section(None, [])];
    }

    method SectionNew(name: string) returns (id: nat)
      requires Shaped(sections)
      modifies this
      ensures (sections, id) == WithSection(old(sections), name)
      ensures Shaped(sections) && id < |sections|
    {
      id := 0;
      while id < |sections|
        invariant id <= |sections|
        invariant SectionIndex(sections, name, 0) == SectionIndex(sections, name, id)
      {
        if sections[id].name == Some(name) {
          return;
        }
        id := id + 1;
      }
      sections := sections + [Section(Some(name), [])];
    }

    method EntryNew(entry: Entry, section: nat) returns (id: nat)
      requires section < |sections|
      modifies this
      ensures (sections, id) == WithEntry(old(sections), entry, section)
    {
      var entries := sections[section].entries;
      var i := 0;
      while i < |entries|
        invariant i <= |entries|
        invariant sections[section].name.Some? ==>
                    forall j :: 0 <= j < i ==> !(entries[j].key == entry.key && entries[j].locale == entry.locale)
      {
        if sections[section].name.Some? && entries[i].key == entry.key && entries[i].locale == entry.locale {
          return i;
        }
        i := i + 1;
      }
      id := |sections[|sections| - 1].entries|;
      sections := AppendToLast(sections, entry);
    }

    method LookupValue(key: string, locale: string, section: Option<string>) returns (value: Option<string>)
      requires sections != []
      ensures value == Lookup(sections, key, locale, section)
    {
      var s := LookupSection(sections, section);
      if s < 0 {
        return None;
      }
      var entries := sections[s].entries;
      var locbuff := locale[..Find(locale, '@')];
      var i := EntryIndex(entries, key, locale);
      if i < 0 {
        i := EntryIndex(entries, key, locbuff);
      }
      if i < 0 {
        i := EntryIndex(entries, key, "");
      }
      if i < 0 {
        return None;
      }
      return Some(entries[i].value);
    }
  }
}
