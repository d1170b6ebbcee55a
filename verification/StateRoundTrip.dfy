/** A restart in between: what the daemon reads back from the state file it wrote. */
module StateRoundTrip {
  import opened Sequences
  import opened CStrings
  import opened Escapes
  import opened DesktopFile
  import opened DesktopParser
  import opened DesktopRoundTrip
  import opened StateFile
  import LifeCycle
  import Registry

  /** Numbers of 32 bits and a loop device. */
  predicate Numbered(x: Instance) {
    0 <= x.runId < UINT_MOD && 0 <= x.loop < UINT_MOD
  }

  /** An instance the file format can hold: such numbers, and a line that the parser does not give
      up on. */
  predicate Storable(x: Instance) {
    Numbered(x) && |EntryText(PkgEntry(x))| <= LINE_LIMIT
  }

  /** An id that comes back as it was. */
  predicate KeptId(x: Instance) { KeepsValue(x.pkg, false) }

  lemma PermittedIdIsKept(x: Instance)
    requires x.pkg != "" && forall c | c in x.pkg :: Registry.IdChar(c)
    ensures KeptId(x)
  {
    assert x.pkg[0] in x.pkg;
    PlainEscape(x.pkg);
  }

  function SlotOf(x: Instance): Slot { Slot(Some(x.pkg), x.runId, x.loop) }

  function SlotsOf(instances: seq<Instance>): (r: seq<Slot>)
    ensures |r| == |instances| && forall i :: 0 <= i < |r| ==> r[i] == SlotOf(instances[i])
  {
    seq(|instances|, i requires 0 <= i < |instances| => SlotOf(instances[i]))
  }

  // ---- The dumped file is one that the format can express ----

  lemma NumberText(n: int)
    requires -UINT_MOD < n < UINT_MOD
    ensures Snprintf16(PrintInt(n)) == PrintInt(n) && |PrintInt(n)| <= 11
  {
    if n < 0 {
      RunIdText(-n);
    } else {
      RunIdText(n);
    }
  }

  lemma GoodNumberValue(n: int)
    ensures GoodValue(PrintInt(n)) && NoAdjacentSpecials(PrintInt(n)) && Escape(PrintInt(n)) == PrintInt(n)
  {
    var s := PrintInt(n);
    assert s[0] in s;
    forall c | c in s
      ensures !Special(c)
    {
      assert IsDigit(c) || c == '-';
    }
    PlainEscape(s);
  }

  lemma GoodNumberEntry(key: string, locale: string, n: int)
    requires GoodKey(key)
    requires (forall c | c in locale :: IsDigit(c)) && |locale| <= 10
    requires |PrintInt(n)| <= 15
    ensures GoodEntry(Entry(key, locale, Snprintf16(PrintInt(n))))
    ensures NoAdjacentSpecials(Snprintf16(PrintInt(n)))
  {
    var e := Entry(key, locale, PrintInt(n));
    GoodNumberValue(n);
    assert locale != "" ==> locale[0] in locale;
    assert forall c | c in locale :: LocaleOk(c);
    assert |EntryText(e)| <= |key| + |locale| + |PrintInt(n)| + 4;
  }

  predicate GoodKey(key: string) {
    key != "" && (forall c | c in key :: KeyOk(c)) && key[0] != ';' && key[0] != '#' && |key| <= 100
  }

  lemma GoodKeys()
    ensures GoodKey("PkgId") && GoodKey("Loop") && |"PkgId"| == 5 && |"Loop"| == 4
    ensures GoodKey("SystemBootup") && GoodKey("RunCnt") && |"SystemBootup"| == 12 && |"RunCnt"| == 6
  {
  }

  lemma FormInstanceEntries(x: Instance)
    requires Storable(x)
    ensures FormEntry(PkgEntry(x)) && GoodEntry(LoopEntry(x)) && NoAdjacentSpecials(LoopEntry(x).value)
  {
    RunIdText(x.runId);
    NumberText(x.loop);
    GoodKeys();
    assert PrintNat(x.runId)[0] in PrintNat(x.runId);
    assert forall c | c in PrintNat(x.runId) :: LocaleOk(c);
    GoodNumberEntry("Loop", PrintNat(x.runId), x.loop);
  }

  ghost predicate AllStorable(instances: seq<Instance>) {
    (forall x | x in instances :: Storable(x)) && LifeCycle.DistinctRunIds(instances)
  }

  lemma FormInstances(instances: seq<Instance>)
    requires AllStorable(instances)
    ensures Unsigned(instances) && DistinctEntries(InstanceEntries(instances))
    ensures forall e | e in InstanceEntries(instances) :: FormEntry(e)
  {
    InstanceEntriesDistinct(instances);
    InstanceEntriesAre(instances);
    forall e | e in InstanceEntries(instances)
      ensures FormEntry(e)
    {
      var x :| x in instances && (e == PkgEntry(x) || e == LoopEntry(x));
      FormInstanceEntries(x);
    }
  }

  lemma GoodControl(boot: int, runCnt: int)
    requires |PrintInt(boot)| <= 15 && 0 <= runCnt < UINT_MOD
    ensures DistinctEntries(Control(boot, runCnt))
    ensures forall e | e in Control(boot, runCnt) :: GoodEntry(e) && NoAdjacentSpecials(e.value)
  {
    GoodKeys();
    NumberText(runCnt);
    GoodNumberEntry("SystemBootup", "", boot);
    GoodNumberEntry("RunCnt", "", runCnt);
    TwoEntries(Control(boot, runCnt)[0], Control(boot, runCnt)[1]);
  }

  lemma TwoEntries(a: Entry, b: Entry)
    requires GoodEntry(a) && NoAdjacentSpecials(a.value)
    requires GoodEntry(b) && NoAdjacentSpecials(b.value) && a.key != b.key
    ensures DistinctEntries([a, b])
    ensures forall e | e in [a, b] :: GoodEntry(e) && NoAdjacentSpecials(e.value)
  {
  }

  lemma GoodNames()
    ensures GoodName("DBPStateControl") && GoodName("Instances") && "DBPStateControl" != "Instances"
  {
    assert |"DBPStateControl"| == 15 && |"Instances"| == 9;
    assert forall c | c in "DBPStateControl" :: LocaleOk(c);
    assert forall c | c in "Instances" :: LocaleOk(c);
  }

  lemma GoodHead()
    ensures GoodEntry(HEAD.entries[0]) && NoAdjacentSpecials(FILE_TYPE)
  {
    assert forall c | c in FILE_TYPE :: !Special(c);
    TypeGood(FILE_TYPE);
    PlainEscape(FILE_TYPE);
  }

  // ---- What is read back ----

  /** The instances with the ids that are read. */
  function ReadBack(instances: seq<Instance>): seq<Instance>
    requires Unsigned(instances)
  {
    if instances == [] then []
    else
      var x, more := instances[0], instances[1..];
      var rest := EntryText(LoopEntry(x)) + EntriesText(InstanceEntries(more));
      [x.(pkg := Unescape(RawValue(x.pkg, rest)))] + ReadBack(more)
  }

  lemma FirstReadBack(instances: seq<Instance>) returns (y: Instance)
    requires Unsigned(instances) && instances != []
    ensures Unsigned(instances[1..])
    ensures ReadBack(instances) == [y] + ReadBack(instances[1..])
    ensures y.runId == instances[0].runId && y.loop == instances[0].loop
  {
    var x, more := instances[0], instances[1..];
    var rest := EntryText(LoopEntry(x)) + EntriesText(InstanceEntries(more));
    y := x.(pkg := Unescape(RawValue(x.pkg, rest)));
  }

  lemma {:induction false} ReadBackKeepsNumbers(instances: seq<Instance>)
    requires Unsigned(instances)
    ensures var r := ReadBack(instances);
            && |r| == |instances|
            && forall i :: 0 <= i < |r| ==> r[i].runId == instances[i].runId && r[i].loop == instances[i].loop
  {
    if instances != [] {
      var y := FirstReadBack(instances);
      ReadBackKeepsNumbers(instances[1..]);
    }
  }

  lemma ReadBackNumbered(instances: seq<Instance>)
    requires Unsigned(instances) && AllNumbered(instances)
    ensures Unsigned(ReadBack(instances)) && AllNumbered(ReadBack(instances))
  {
    ReadBackKeepsNumbers(instances);
    var r := ReadBack(instances);
    forall x | x in r
      ensures Numbered(x)
    {
      var i :| 0 <= i < |r| && r[i] == x;
      assert instances[i] in instances;
    }
  }

  /** An id is read as it was written exactly if it is kept: a line with a loop device follows. */
  lemma ReadIdIff(x: Instance, rest: string)
    requires x.runId >= 0
    ensures Unescape(RawValue(x.pkg, EntryText(LoopEntry(x)) + rest)) == x.pkg <==> KeptId(x)
  {
    var r := EntryText(LoopEntry(x)) + rest;
    EntryTextNotBlank(LoopEntry(x), rest);
    Regroup(LoopEntry(x), rest);
    assert r != "";
    ReadValueIff(x.pkg, r);
  }

  lemma {:induction false} ReadBackIff(instances: seq<Instance>)
    requires Unsigned(instances)
    ensures ReadBack(instances) == instances <==> forall x | x in instances :: KeptId(x)
  {
    if instances != [] {
      var x, more := instances[0], instances[1..];
      assert instances == [x] + more;
      ReadIdIff(x, EntriesText(InstanceEntries(more)));
      ReadBackIff(more);
      var rest := EntryText(LoopEntry(x)) + EntriesText(InstanceEntries(more));
      FirstOfBoth(x.(pkg := Unescape(RawValue(x.pkg, rest))), ReadBack(more), x, more);
    }
  }

  lemma {:induction false} InstanceEntriesCons(x: Instance, more: seq<Instance>)
    requires Unsigned([x] + more) && Unsigned(more) && x.runId >= 0
    ensures InstanceEntries([x] + more) == [PkgEntry(x)] + ([LoopEntry(x)] + InstanceEntries(more))
    decreases |more|
  {
    var all := [x] + more;
    if more == [] {
      assert all[..0] == [] && InstanceEntries([]) == [];
    } else {
      var front, last := more[..|more| - 1], more[|more| - 1];
      assert all[..|more|] == [x] + front && all[|more|] == last && last in more;
      InstanceEntriesCons(x, front);
      Assoc([PkgEntry(x)], [LoopEntry(x)] + InstanceEntries(front), [PkgEntry(last), LoopEntry(last)]);
      Assoc([LoopEntry(x)], InstanceEntries(front), [PkgEntry(last), LoopEntry(last)]);
    }
  }

  /** The entries of the instances are read as those of the instances read back. */
  ghost predicate ReadsBack(instances: seq<Instance>) {
    && Unsigned(instances) && Unsigned(ReadBack(instances))
    && DecodeEntries(RawEntries(InstanceEntries(instances), "")) == InstanceEntries(ReadBack(instances))
  }

  lemma NoneReadsBack()
    ensures ReadsBack([])
  {
  }

  lemma {:induction false} InstancesRead(instances: seq<Instance>)
    requires Unsigned(instances) && forall x | x in instances :: Storable(x)
    ensures ReadsBack(instances)
  {
    if instances == [] {
      NoneReadsBack();
    } else {
      var x, more := instances[0], instances[1..];
      assert x in instances && instances == [x] + more;
      InstancesRead(more);
      ReadBackNumbered(instances);
      PairRead(x, more);
    }
  }

  lemma PairRead(x: Instance, more: seq<Instance>)
    requires Unsigned([x] + more) && Storable(x) && Unsigned(ReadBack([x] + more)) && ReadsBack(more)
    ensures ReadsBack([x] + more)
  {
    var entries := InstanceEntries(more);
    var rest := EntryText(LoopEntry(x)) + EntriesText(entries);
    var y := x.(pkg := Unescape(RawValue(x.pkg, rest)));
    assert ([x] + more)[1..] == more;
    assert ReadBack([x] + more) == [y] + ReadBack(more);
    InstanceEntriesCons(x, more);
    InstanceEntriesCons(y, ReadBack(more));
    NamedEntries(more);
    LoopIsRead(x, EntriesText(entries), entries);
    RawTwo(PkgEntry(x), LoopEntry(x), entries);
    DecodeTwo(RawEntry(PkgEntry(x), rest), RawEntry(LoopEntry(x), EntriesText(entries)), RawEntries(entries, ""));
  }

  lemma NamedEntries(instances: seq<Instance>)
    requires Unsigned(instances)
    ensures forall e | e in InstanceEntries(instances) :: e.key != ""
  {
    InstanceEntriesAre(instances);
  }

  lemma RawTwo(a: Entry, b: Entry, more: seq<Entry>)
    ensures RawEntries([a] + ([b] + more), "")
              == [RawEntry(a, EntryText(b) + EntriesText(more))]
                 + ([RawEntry(b, EntriesText(more))] + RawEntries(more, ""))
  {
    assert ([a] + ([b] + more))[1..] == [b] + more && ([b] + more)[1..] == more;
    Units(EntriesText(more));
    Units(EntriesText([b] + more));
  }

  lemma DecodeTwo(a: Entry, b: Entry, more: seq<Entry>)
    ensures DecodeEntries([a] + ([b] + more)) == [Decode(a)] + ([Decode(b)] + DecodeEntries(more))
  {
    DecodeCons(a, [b] + more);
    DecodeCons(b, more);
  }

  lemma LoopIsRead(x: Instance, text: string, entries: seq<Entry>)
    requires Storable(x) && text == EntriesText(entries) && forall e | e in entries :: e.key != ""
    ensures Decode(RawEntry(LoopEntry(x), text)) == LoopEntry(x)
  {
    FormInstanceEntries(x);
    if entries != [] {
      assert entries[0] in entries;
      EntryTextNotBlank(entries[0], EntriesText(entries[1..]));
    }
    ReadValueIff(LoopEntry(x).value, text);
  }

  // ---- Parsing a dump ----

  ghost predicate Writable(entries: seq<Entry>) {
    DistinctEntries(entries) && forall e | e in entries :: GoodEntry(e) && NoAdjacentSpecials(e.value)
  }

  lemma WritableIsRead(entries: seq<Entry>, rest: string)
    requires (rest == "" || !Blank(rest)) && forall e | e in entries :: GoodEntry(e) && NoAdjacentSpecials(e.value)
    ensures DecodeEntries(RawEntries(entries, rest)) == entries
  {
    forall j | 0 <= j < |entries|
      ensures KeepsValue(entries[j].value, rest == "" && j == |entries| - 1)
    {
      assert entries[j] in entries;
    }
    EntriesKeptIff(entries, rest);
  }

  lemma ReadCons(s: Section, more: Sections)
    ensures ReadSections([s] + more)
            == [Section(s.name, DecodeEntries(RawEntries(s.entries, Text(more))))] + ReadSections(more)
  {
    assert ([s] + more)[1..] == more;
    DecodeSectionsCons(Section(s.name, RawEntries(s.entries, Text(more))), RawSections(more));
  }

  lemma ReadThree(a: Section, b: Section, c: Section)
    requires b.name.Some? && c.name.Some?
    requires forall e | e in a.entries :: GoodEntry(e) && NoAdjacentSpecials(e.value)
    requires forall e | e in b.entries :: GoodEntry(e) && NoAdjacentSpecials(e.value)
    ensures ReadSections([a, b, c]) == [a, b, Section(c.name, DecodeEntries(RawEntries(c.entries, "")))]
  {
    assert [a, b, c] == [a] + [b, c] && [b, c] == [b] + [c] && [c] == [c] + [];
    ReadCons(a, [b, c]);
    ReadCons(b, [c]);
    ReadCons(c, []);
    TextOfSections([b, c]);
    TextOfSections([c]);
    WritableIsRead(a.entries, Text([b, c]));
    WritableIsRead(b.entries, Text([c]));
  }

  lemma FormThree(a: Section, b: Section, c: Section)
    requires a.name == None && b.name.Some? && c.name.Some? && b.name != c.name
    requires FormSection(a) && FormSection(b) && FormSection(c)
    ensures Form([a, b, c])
  {
  }

  /** Parsing the dumped text gives the dump of the instances that ReadBack says. */
  lemma DumpParsesBack(boot: int, runCnt: int, instances: seq<Instance>, stack: string, stack2: string)
    requires AllStorable(instances) && Unsigned(instances)
    requires |PrintInt(boot)| <= 15 && 0 <= runCnt < UINT_MOD
    ensures Unsigned(ReadBack(instances))
    ensures Parse(Text(Dumped(boot, runCnt, instances)), stack, stack2) == Dumped(boot, runCnt, ReadBack(instances))
  {
    var a := HEAD;
    var b := Section(Some("DBPStateControl"), Control(boot, runCnt));
    var c := Section(Some("Instances"), InstanceEntries(instances));
    AllAreDumped(boot, runCnt, instances);
    FormInstances(instances);
    GoodControl(boot, runCnt);
    GoodNames();
    GoodHead();
    FormThree(a, b, c);
    ParseOfWrite([a, b, c], stack, stack2);
    ReadThree(a, b, c);
    InstancesRead(instances);
    ReadBackNumbered(instances);
    ReadBackDistinct(instances);
    AllAreDumped(boot, runCnt, ReadBack(instances));
  }

  lemma ReadBackDistinct(instances: seq<Instance>)
    requires Unsigned(instances) && LifeCycle.DistinctRunIds(instances)
    ensures LifeCycle.DistinctRunIds(ReadBack(instances))
  {
    ReadBackKeepsNumbers(instances);
  }

  // ---- The entries rebuild the table ----

  lemma RunOfLocale(x: Instance, junk: int)
    requires 0 <= x.runId < UINT_MOD
    ensures ScanUnsigned(PkgEntry(x).locale, junk) == x.runId
  {
    RunIdText(x.runId);
    var s := PrintNat(x.runId);
    assert s[0] in s;
    SpanIs(s, IsSpace, 0);
    assert s[0..] == s;
  }

  ghost predicate AllNumbered(instances: seq<Instance>) {
    forall x | x in instances :: Numbered(x)
  }

  /** The entries of the instances rebuild the table, and the last slot is used last. */
  ghost predicate Rebuilds(instances: seq<Instance>, junk: Junk) {
    Unsigned(instances) &&
    var (slots, id) := RecoverAll(InstanceEntries(instances), junk);
    slots == SlotsOf(instances) && (instances != [] ==> id == |instances| - 1)
  }

  lemma {:induction false} EntriesRebuild(instances: seq<Instance>, junk: Junk)
    requires AllNumbered(instances) && LifeCycle.DistinctRunIds(instances) && Unsigned(instances)
    ensures Rebuilds(instances, junk)
  {
    if instances != [] {
      var front, x := instances[..|instances| - 1], instances[|instances| - 1];
      LastRunDiffers(instances);
      assert instances == front + [x] && x in instances;
      EntriesRebuild(front, junk);
      NextRebuilds(front, x, junk);
    }
  }

  lemma {:induction false} NextRebuilds(front: seq<Instance>, x: Instance, junk: Junk)
    requires Rebuilds(front, junk) && Unsigned(front + [x]) && Numbered(x)
    requires forall y | y in front :: y.runId != x.runId
    ensures Rebuilds(front + [x], junk)
  {
    var es := InstanceEntries(front);
    var next := RecoverEntry(RecoverEntry(SlotsOf(front), PkgEntry(x), junk(|es|)).0, LoopEntry(x), junk(|es| + 1));
    PairRebuilds(front, x, junk(|es|), junk(|es| + 1));
    TwoMore(es, PkgEntry(x), LoopEntry(x), junk);
    EntriesAppend(front, x);
    SlotsAppend(front, x);
  }

  lemma {:induction false} EntriesAppend(front: seq<Instance>, x: Instance)
    requires Unsigned(front) && Unsigned(front + [x]) && x.runId >= 0
    ensures InstanceEntries(front + [x]) == InstanceEntries(front) + [PkgEntry(x), LoopEntry(x)]
  {
    assert (front + [x])[..|front|] == front;
  }

  lemma SlotsAppend(front: seq<Instance>, x: Instance)
    ensures SlotsOf(front + [x]) == SlotsOf(front) + [SlotOf(x)]
  {
  }

  lemma TwoMore(es: seq<Entry>, a: Entry, b: Entry, junk: Junk)
    ensures var n := |es|;
            RecoverAll(es + [a, b], junk)
              == RecoverEntry(RecoverEntry(RecoverAll(es, junk).0, a, junk(n)).0, b, junk(n + 1))
  {
    var all := es + [a, b];
    assert all[..|all| - 1] == es + [a] && (es + [a])[..|es|] == es;
  }

  lemma PkgEntryAdds(slots: seq<Slot>, e: Entry, run: int, junk: int)
    requires e.key == "PkgId" && ScanUnsigned(e.locale, junk) == run && SlotIndex(slots, run) < 0
    ensures RecoverEntry(slots, e, junk) == (slots + [Slot(Some(e.value), run, -1)], |slots|)
  {
    var s1 := slots + [Slot(None, run, -1)];
    assert s1[|slots| := s1[|slots|].(pkg := Some(e.value))] == slots + [Slot(Some(e.value), run, -1)];
  }

  lemma LoopEntryFills(slots: seq<Slot>, e: Entry, run: int, junk: int)
    requires e.key == "Loop" && ScanUnsigned(e.locale, junk) == run && SlotIndex(slots, run) >= 0
    ensures var n := SlotIndex(slots, run);
            RecoverEntry(slots, e, junk) == (slots[n := slots[n].(loop := AToI(e.value))], n)
  {
    assert |"PkgId"| == 5 && |"Loop"| == 4;
  }

  lemma SlotIndexLast(slots: seq<Slot>, s: Slot)
    requires SlotIndex(slots, s.runId) < 0
    ensures SlotIndex(slots + [s], s.runId) == |slots|
  {
    var s1 := slots + [s];
    assert s1[|slots|] == s && forall i :: 0 <= i < |slots| ==> s1[i] == slots[i];
  }

  /** The two entries of an instance make one slot at the end. */
  lemma PairRebuilds(front: seq<Instance>, x: Instance, junk: int, junk2: int)
    requires Numbered(x) && forall y | y in front :: y.runId != x.runId
    ensures RecoverEntry(RecoverEntry(SlotsOf(front), PkgEntry(x), junk).0, LoopEntry(x), junk2)
              == (SlotsOf(front) + [SlotOf(x)], |front|)
  {
    var slots := SlotsOf(front);
    forall i | 0 <= i < |slots|
      ensures slots[i].runId != x.runId
    {
      assert front[i] in front;
    }
    PairAdds(slots, x, junk, junk2);
  }

  lemma PairAdds(slots: seq<Slot>, x: Instance, junk: int, junk2: int)
    requires Numbered(x) && SlotIndex(slots, x.runId) < 0
    ensures RecoverEntry(RecoverEntry(slots, PkgEntry(x), junk).0, LoopEntry(x), junk2)
              == (slots + [SlotOf(x)], |slots|)
  {
    RunOfLocale(x, junk);
    RunOfLocale(x, junk2);
    PkgEntryAdds(slots, PkgEntry(x), x.runId, junk);
    var half := Slot(Some(x.pkg), x.runId, -1);
    SlotIndexLast(slots, half);
    LoopEntryFills(slots + [half], LoopEntry(x), x.runId, junk2);
    LoopText(x);
    assert (slots + [half])[|slots| := SlotOf(x)] == slots + [SlotOf(x)];
  }

  lemma LoopText(x: Instance)
    requires Numbered(x)
    ensures AToI(LoopEntry(x).value) == x.loop
  {
    NumberText(x.loop);
    AToIOfPrint(x.loop);
  }

  // ---- The restart ----

  lemma ControlLookups(boot: int, runCnt: int, instances: seq<Instance>)
    requires Unsigned(instances) && |PrintInt(boot)| <= 15 && 0 <= runCnt < UINT_MOD
    ensures var secs := Dumped(boot, runCnt, instances);
            && Lookup(secs, "SystemBootup", "", Some("DBPStateControl")) == Some(PrintInt(boot))
            && Lookup(secs, "RunCnt", "", Some("DBPStateControl")) == Some(PrintInt(runCnt))
            && LookupSection(secs, Some("Instances")) == 2
  {
    var secs := Dumped(boot, runCnt, instances);
    var es := Control(boot, runCnt);
    NumberText(runCnt);
    assert |es[0].key| == 12 && |es[1].key| == 6;
    assert |"DBPStateControl"| == 15 && |"Instances"| == 9;
    assert SectionIndex(secs, "DBPStateControl", 1) == 1;
    assert SectionIndex(secs, "Instances", 1) == 2;
    assert EntryIndex(es, "SystemBootup", "") == 0;
    assert EntryIndex(es, "RunCnt", "") == 1;
  }

  /** Reading the dumped file back into an empty daemon gives the instances in the same order, with
      their run ids and devices and the ids that ReadBack says, and the run counter, if the boot
      times agree within one second; otherwise the file is ignored. */
  lemma RestartReads(boot: int, now: int, runCnt: int, instances: seq<Instance>, stack: string, stack2: string,
                     junk: Junk)
    requires AllStorable(instances) && Unsigned(instances)
    requires |PrintInt(boot)| <= 15 && 0 <= runCnt < UINT_MOD
    ensures Recovered(Some(Text(Dumped(boot, runCnt, instances))), now, stack, stack2, junk)
              == if -1 <= boot - now <= 1 then (SlotsOf(ReadBack(instances)), runCnt) else ([], 0)
  {
    DumpParsesBack(boot, runCnt, instances, stack, stack2);
    ReadBackNumbered(instances);
    ReadBackDistinct(instances);
    FromDump(boot, now, runCnt, ReadBack(instances), junk);
  }

  /** Within the same boot the table is restored exactly if every id is kept. */
  lemma RestartRestores(boot: int, now: int, runCnt: int, instances: seq<Instance>, stack: string, stack2: string,
                        junk: Junk)
    requires AllStorable(instances) && Unsigned(instances)
    requires |PrintInt(boot)| <= 15 && 0 <= runCnt < UINT_MOD && -1 <= boot - now <= 1
    ensures var restored := (SlotsOf(instances), runCnt);
            Recovered(Some(Text(Dumped(boot, runCnt, instances))), now, stack, stack2, junk) == restored
            <==> forall x | x in instances :: KeptId(x)
  {
    RestartReads(boot, now, runCnt, instances, stack, stack2, junk);
    SameSlots(ReadBack(instances), instances);
    ReadBackIff(instances);
  }

  lemma SameSlots(a: seq<Instance>, b: seq<Instance>)
    ensures SlotsOf(a) == SlotsOf(b) <==> a == b
  {
    if SlotsOf(a) == SlotsOf(b) {
      forall i | 0 <= i < |a|
        ensures a[i] == b[i]
      {
        assert SlotsOf(a)[i] == SlotsOf(b)[i];
      }
    }
  }

  lemma FromDump(boot: int, now: int, runCnt: int, instances: seq<Instance>, junk: Junk)
    requires AllNumbered(instances) && LifeCycle.DistinctRunIds(instances) && Unsigned(instances)
    requires |PrintInt(boot)| <= 15 && 0 <= runCnt < UINT_MOD
    ensures RecoveredFrom(Dumped(boot, runCnt, instances), now, junk)
              == if -1 <= boot - now <= 1 then (SlotsOf(instances), runCnt) else ([], 0)
  {
    ControlLookups(boot, runCnt, instances);
    AToIOfPrint(boot);
    AToIOfPrint(runCnt);
    AllAreDumped(boot, runCnt, instances);
    AllAccepted(instances, junk);
    Recovering(Dumped(boot, runCnt, instances), boot, now, runCnt, InstanceEntries(instances), junk);
  }

  lemma Recovering(secs: Sections, boot: int, now: int, runCnt: int, entries: seq<Entry>, junk: Junk)
    requires secs != [] && LookupSection(secs, Some("Instances")) == 2 && secs[2].entries == entries
    requires Lookup(secs, "SystemBootup", "", Some("DBPStateControl")) == Some(PrintInt(boot))
    requires Lookup(secs, "RunCnt", "", Some("DBPStateControl")) == Some(PrintInt(runCnt))
    requires AToI(PrintInt(boot)) == boot && AToI(PrintInt(runCnt)) == runCnt
    ensures RecoveredFrom(secs, now, junk)
              == if -1 <= boot - now <= 1 then (Accepted(entries, junk), runCnt) else ([], 0)
  {
  }

  /** The check after the loop accepts the rebuilt table. */
  lemma AllAccepted(instances: seq<Instance>, junk: Junk)
    requires AllNumbered(instances) && LifeCycle.DistinctRunIds(instances) && Unsigned(instances)
    ensures Accepted(InstanceEntries(instances), junk) == SlotsOf(instances)
  {
    EntriesRebuild(instances, junk);
    if instances != [] {
      assert instances[|instances| - 1] in instances;
    }
  }
}
