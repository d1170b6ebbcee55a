/** The state file of dbpd/state.c: the instance table is written out when the daemon stops and
    read back when it starts again. */
module StateFile {
  import Sequences
  import opened CStrings
  import opened Escapes
  import opened DesktopFile
  import opened DesktopParser
  import opened DesktopRoundTrip
  import LifeCycle
  import Registry

  type Instance = LifeCycle.Instance

  const UINT_MOD := 0x1_0000_0000

  /** snprintf into a buffer of 16 bytes. */
  function Snprintf16(s: string): string {
    if |s| <= 15 then s else s[..15]
  }

  // ---- Dumping ----

  function PkgEntry(x: Instance): Entry
    requires x.runId >= 0
  {
    Entry("PkgId", Snprintf16(PrintNat(x.runId)), x.pkg)
  }

  function LoopEntry(x: Instance): Entry
    requires x.runId >= 0
  {
    Entry("Loop", Snprintf16(PrintNat(x.runId)), Snprintf16(PrintInt(x.loop)))
  }

  /** Run ids are unsigned. */
  predicate Unsigned(instances: seq<Instance>) {
    forall x | x in instances :: 0 <= x.runId < UINT_MOD
  }

  function InstanceEntries(instances: seq<Instance>): seq<Entry>
    requires Unsigned(instances)
  {
    if instances == [] then []
    else
      var last := instances[|instances| - 1];
      InstanceEntries(instances[..|instances| - 1]) + [PkgEntry(last), LoopEntry(last)]
  }

  /** Entries as dbp_desktop_entry_new takes them: one that repeats key and locale is dropped. */
  function FirstEntries(es: seq<Entry>): seq<Entry> {
    if es == [] then []
    else
      var front, last := FirstEntries(es[..|es| - 1]), es[|es| - 1];
      if EntryIndex(front, last.key, last.locale) >= 0 then front else front + [last]
  }

  function Control(boot: int, runCnt: int): seq<Entry> {
    [Entry("SystemBootup", "", Snprintf16(PrintInt(boot))), Entry("RunCnt", "", Snprintf16(PrintInt(runCnt)))]
  }

  const FILE_TYPE := "DBPStateFile"

  /** The text that state_dump parses to get started. */
  const TYPE_LINE := "Type" + "=" + FILE_TYPE + "\n"

  const HEAD: Section := Section(None, [Entry("Type", "", "DBPStateFile")])

  /** The file that state_dump builds. */
  function Dumped(boot: int, runCnt: int, instances: seq<Instance>): Sections
    requires Unsigned(instances)
  {
    [HEAD, Section(Some("DBPStateControl"), Control(boot, runCnt)),
     Section(Some("Instances"), FirstEntries(InstanceEntries(instances)))]
  }

  /** The decimal form of a 32-bit number fits the buffer and determines the number. */
  lemma RunIdText(n: nat)
    requires n < UINT_MOD
    ensures Snprintf16(PrintNat(n)) == PrintNat(n) && |PrintNat(n)| <= 10
    ensures LeadingNat(PrintNat(n)) == n
  {
    assert Pow10(10) == 10_000_000_000;
    PrintNatLength(n, 10);
    LeadingNatOfPrint(n);
  }

  lemma {:induction false} InstanceEntriesAre(instances: seq<Instance>)
    requires Unsigned(instances)
    ensures forall e | e in InstanceEntries(instances) ::
              exists x :: x in instances && (e == PkgEntry(x) || e == LoopEntry(x))
  {
    if instances != [] {
      var front, last := instances[..|instances| - 1], instances[|instances| - 1];
      InstanceEntriesAre(front);
      assert instances == front + [last];
      assert InstanceEntries(instances) == InstanceEntries(front) + [PkgEntry(last), LoopEntry(last)];
    }
  }

  /** The entries of other instances have other locales. */
  lemma OtherLocales(instances: seq<Instance>, y: Instance)
    requires Unsigned(instances) && 0 <= y.runId < UINT_MOD
    requires forall x | x in instances :: x.runId != y.runId
    ensures forall e | e in InstanceEntries(instances) :: e.locale != PkgEntry(y).locale
  {
    InstanceEntriesAre(instances);
    RunIdText(y.runId);
    forall e | e in InstanceEntries(instances)
      ensures e.locale != PkgEntry(y).locale
    {
      var x :| x in instances && (e == PkgEntry(x) || e == LoopEntry(x));
      RunIdText(x.runId);
    }
  }

  lemma LastRunDiffers(instances: seq<Instance>)
    requires Unsigned(instances) && LifeCycle.DistinctRunIds(instances) && instances != []
    ensures var front, last := instances[..|instances| - 1], instances[|instances| - 1];
            && Unsigned(front) && LifeCycle.DistinctRunIds(front) && (forall x | x in front :: x.runId != last.runId)
  {
    var front := instances[..|instances| - 1];
    assert forall i :: 0 <= i < |front| ==> front[i] == instances[i] && front[i] in instances;
  }

  /** With distinct run ids no two entries of the section collide. */
  lemma {:induction false} InstanceEntriesDistinct(instances: seq<Instance>)
    requires Unsigned(instances) && LifeCycle.DistinctRunIds(instances)
    ensures DistinctEntries(InstanceEntries(instances))
  {
    if instances != [] {
      var front, last := instances[..|instances| - 1], instances[|instances| - 1];
      assert last in instances;
      LastRunDiffers(instances);
      InstanceEntriesDistinct(front);
      OtherLocales(front, last);
      var es, a, b := InstanceEntries(front), PkgEntry(last), LoopEntry(last);
      var all := es + [a, b];
      assert forall i :: 0 <= i < |es| ==> all[i] == es[i] && es[i] in es;
      assert all[|es|] == a && all[|es| + 1] == b && |all| == |es| + 2;
    }
  }

  lemma {:induction false} DistinctAreFirst(es: seq<Entry>)
    requires DistinctEntries(es)
    ensures FirstEntries(es) == es
  {
    if es != [] {
      var n := |es| - 1;
      DistinctAreFirst(es[..n]);
      assert es == es[..n] + [es[n]];
      assert forall i :: 0 <= i < n ==> es[..n][i] == es[i];
    }
  }

  /** With distinct run ids every instance is in the file. */
  lemma AllAreDumped(boot: int, runCnt: int, instances: seq<Instance>)
    requires Unsigned(instances) && LifeCycle.DistinctRunIds(instances)
    ensures Dumped(boot, runCnt, instances)
              == [HEAD, Section(Some("DBPStateControl"), Control(boot, runCnt)),
                  Section(Some("Instances"), InstanceEntries(instances))]
  {
    InstanceEntriesDistinct(instances);
    DistinctAreFirst(InstanceEntries(instances));
  }

  /** state_dump, with the file it writes as its result. */
  method StateDump(t: LifeCycle.Table, boot: int, stack: string, stack2: string) returns (file: string)
    requires Unsigned(t.instances)
    ensures file == Text(Dumped(boot, t.runCnt, t.instances))
  {
    var df := new File();
    ParseAppend(df, TYPE_LINE, stack, stack2);
    HeadLine(stack, stack2);
    DumpControl(df, boot, t.runCnt);
    DumpInstances(df, t.instances, boot, t.runCnt);
    file := Write(df);
  }

  method DumpControl(df: File, boot: int, runCnt: int)
    requires df.sections == [HEAD]
    modifies df
    ensures df.sections == Dumped(boot, runCnt, [])
  {
    var control := Control(boot, runCnt);
    assert |control[0].key| == 12 && |control[1].key| == 6;
    assert |"DBPStateControl"| == 15 && |"Instances"| == 9;
    TwoSections(HEAD, "DBPStateControl", control[0], control[1], "Instances");
    var section := df.SectionNew("DBPStateControl");
    var _ := df.EntryNew(control[0], section);
    var _ := df.EntryNew(control[1], section);
    section := df.SectionNew("Instances");
  }

  lemma TwoSections(head: Section, name: string, a: Entry, b: Entry, name2: string)
    requires head.name == None && name != name2 && a.key != b.key
    ensures WithSection([head], name) == ([head, Section(Some(name), [])], 1)
    ensures WithEntry([head, Section(Some(name), [])], a, 1).0 == [head, Section(Some(name), [a])]
    ensures WithEntry([head, Section(Some(name), [a])], b, 1).0 == [head, Section(Some(name), [a, b])]
    ensures WithSection([head, Section(Some(name), [a, b])], name2)
              == ([head, Section(Some(name), [a, b]), Section(Some(name2), [])], 2)
  {
    var n, n2 := Some(name), Some(name2);
    assert EntryIndex([a], b.key, b.locale) < 0;
    assert SectionIndex([head], name, 0) < 0;
    assert SectionIndex([head, Section(n, [a, b])], name2, 0) < 0;
    assert [] + [a] == [a] && [a] + [b] == [a, b];
    assert [head] + [Section(n, [])] == [head, Section(n, [])];
    assert AppendToLast([head, Section(n, [])], a) == [head, Section(n, [a])];
    assert AppendToLast([head, Section(n, [a])], b) == [head, Section(n, [a, b])];
    assert [head, Section(n, [a, b])] + [Section(n2, [])] == [head, Section(n, [a, b]), Section(n2, [])];
  }

  method DumpInstances(df: File, instances: seq<Instance>, ghost boot: int, ghost runCnt: int)
    requires Unsigned(instances)
    requires df.sections == Dumped(boot, runCnt, [])
    modifies df
    ensures df.sections == Dumped(boot, runCnt, instances)
  {
    assert instances[..0] == [];
    var i := 0;
    while i < |instances|
      invariant 0 <= i <= |instances| && Unsigned(instances[..i])
      invariant df.sections == Dumped(boot, runCnt, instances[..i])
    {
      var x := instances[i];
      assert x in instances;
      DumpStep(boot, runCnt, instances, i);
      var buff := Snprintf16(PrintNat(x.runId));
      var _ := df.EntryNew(Entry("PkgId", buff, x.pkg), 2);
      var _ := df.EntryNew(Entry("Loop", buff, Snprintf16(PrintInt(x.loop))), 2);
      i := i + 1;
    }
    assert instances[..i] == instances;
  }

  function TypeEntry(v: string): Entry { Entry("Type", "", v) }

  lemma TypeText(v: string)
    requires forall c | c in v :: !Special(c)
    ensures EntryText(TypeEntry(v)) == "Type" + "=" + v + "\n"
    ensures Text([Section(None, [TypeEntry(v)])]) == "Type" + "=" + v + "\n"
  {
    var e := TypeEntry(v);
    PlainEscape(v);
    assert KeyText(e) == e.key;
    assert EntriesText([e]) == EntryText(e) + EntriesText([]);
    assert Text([Section(None, [e])]) == "" + EntriesText([e]) + Text([]);
  }

  lemma TypeGood(v: string)
    requires v != "" && (forall c | c in v :: !Special(c)) && !IsSpace(v[0]) && |v| <= 100
    ensures GoodEntry(TypeEntry(v))
  {
    TypeText(v);
    assert forall c | c in "Type" :: KeyOk(c);
  }

  lemma TypeLine(v: string, stack: string, stack2: string)
    requires v != "" && (forall c | c in v :: !Special(c)) && !IsSpace(v[0]) && |v| <= 100
    ensures Parse("Type" + "=" + v + "\n", stack, stack2) == [Section(None, [TypeEntry(v)])]
  {
    TypeText(v);
    TypeGood(v);
    PlainEscape(v);
    RoundTripIff([Section(None, [TypeEntry(v)])], stack, stack2);
  }

  lemma HeadLine(stack: string, stack2: string)
    ensures Parse(TYPE_LINE, stack, stack2) == [HEAD]
  {
    assert forall c | c in FILE_TYPE :: !Special(c);
    TypeLine(FILE_TYPE, stack, stack2);
  }

  lemma {:induction false} PlainEscape(v: string)
    requires forall c | c in v :: !Special(c)
    ensures Escape(v) == v && NoAdjacentSpecials(v)
  {
    if v != "" {
      assert v[0] in v;
      PlainEscape(v[1..]);
    }
  }

  /** Dumping instance i adds those of its two entries that are new. */
  lemma DumpStep(boot: int, runCnt: int, instances: seq<Instance>, i: nat)
    requires i < |instances| && Unsigned(instances)
    ensures Unsigned(instances[..i]) && Unsigned(instances[..i + 1])
    ensures var x := instances[i];
            var before := Dumped(boot, runCnt, instances[..i]);
            var between := WithEntry(before, PkgEntry(x), 2).0;
            && |between| == 3 && between[2].name == before[2].name
            && WithEntry(between, LoopEntry(x), 2).0 == Dumped(boot, runCnt, instances[..i + 1])
  {
    OneMoreInstance(instances, i);
    var x, es := instances[i], InstanceEntries(instances[..i]);
    TwoAdded(Dumped(boot, runCnt, instances[..i]), es, PkgEntry(x), LoopEntry(x));
  }

  lemma OneMoreInstance(instances: seq<Instance>, i: nat)
    requires i < |instances| && Unsigned(instances)
    ensures Unsigned(instances[..i]) && Unsigned(instances[..i + 1])
    ensures InstanceEntries(instances[..i + 1])
              == InstanceEntries(instances[..i]) + [PkgEntry(instances[i])] + [LoopEntry(instances[i])]
  {
    var upTo := instances[..i + 1];
    assert upTo[..i] == instances[..i];
    forall y | y in upTo
      ensures y in instances
    {
      var j :| 0 <= j < |upTo| && upTo[j] == y;
      assert instances[j] == y;
    }
    assert forall y | y in instances[..i] :: y in upTo;
  }

  lemma TwoAdded(secs: Sections, es: seq<Entry>, a: Entry, b: Entry)
    requires |secs| == 3 && secs[2].name.Some? && secs[2].entries == FirstEntries(es)
    ensures var between := WithEntry(secs, a, 2).0;
            && |between| == 3 && between[2].name == secs[2].name
            && WithEntry(between, b, 2).0 == secs[2 := Section(secs[2].name, FirstEntries(es + [a] + [b]))]
  {
    EntryAdded(secs, es, a);
    EntryAdded(WithEntry(secs, a, 2).0, es + [a], b);
  }

  /** Adding an entry to the last of three sections is adding it to the list it was built from. */
  lemma EntryAdded(secs: Sections, es: seq<Entry>, e: Entry)
    requires |secs| == 3 && secs[2].name.Some? && secs[2].entries == FirstEntries(es)
    ensures WithEntry(secs, e, 2).0 == secs[2 := Section(secs[2].name, FirstEntries(es + [e]))]
  {
    assert (es + [e])[..|es|] == es;
    assert secs[2 := secs[2]] == secs;
  }

  // ---- Recovering ----

  /** struct package_instance_s while it is being filled: no package id is a null pointer. */
  datatype Slot = Slot(pkg: Option<string>, runId: int, loop: int)

  function SlotIndex(slots: seq<Slot>, runId: int): (n: int)
    ensures -1 <= n < |slots|
    ensures n >= 0 ==> slots[n].runId == runId
    ensures forall i :: 0 <= i < (if n >= 0 then n else |slots|) ==> slots[i].runId != runId
  {
    Sequences.First(slots, (x: Slot) => x.runId == runId)
  }

  /** What the local variable `run` holds at each entry before it is scanned. */
  type Junk = nat -> int

  /** sscanf(s, "%u", &run); where there is no number, run keeps the junk it had. */
  function ScanUnsigned(s: string, junk: int): int {
    var t := SkipSpace(s);
    var signed := t != "" && (t[0] == '-' || t[0] == '+');
    var digits := if signed then t[1..] else t;
    if digits == "" || !IsDigit(digits[0]) then junk
    else if t[0] == '-' then (0 - LeadingNat(digits)) % UINT_MOD
    else LeadingNat(digits) % UINT_MOD
  }

  /** state_get_instance: the slot with this run id, or a new one at the end. */
  function GetSlot(slots: seq<Slot>, run: int): (r: (seq<Slot>, nat))
    ensures r.1 < |r.0|
  {
    var n := SlotIndex(slots, run);
    if n >= 0 then (slots, n) else (slots + [Slot(None, run, -1)], |slots|)
  }

  function RecoverEntry(slots: seq<Slot>, e: Entry, junk: int): (r: (seq<Slot>, nat))
    ensures r.1 < |r.0|
  {
    FillSlot(slots, e, ScanUnsigned(e.locale, junk))
  }

  function FillSlot(slots: seq<Slot>, e: Entry, run: int): (r: (seq<Slot>, nat))
    ensures r.1 < |r.0|
  {
    var (more, id) := GetSlot(slots, run);
    if e.key == "PkgId" then (more[id := more[id].(pkg := Some(e.value))], id)
    else if e.key == "Loop" then (more[id := more[id].(loop := AToI(e.value))], id)
    else (more, id)
  }

  /** All entries in order: the slots, and the slot that was used last. */
  function RecoverAll(entries: seq<Entry>, junk: Junk): (r: (seq<Slot>, nat))
    ensures entries != [] ==> r.1 < |r.0|
  {
    if entries == [] then ([], 0)
    else
      var n := |entries| - 1;
      RecoverEntry(RecoverAll(entries[..n], junk).0, entries[n], junk(n))
  }

  /** The instances and the run counter that a daemon with an empty table takes from a file that
      has been parsed. Only the slot used last is checked before the table is accepted. */
  function RecoveredFrom(secs: Sections, boot: int, junk: Junk): (seq<Slot>, int)
    requires secs != []
  {
    var booted := Lookup(secs, "SystemBootup", "", Some("DBPStateControl"));
    var section := LookupSection(secs, Some("Instances"));
    var runCnt := Lookup(secs, "RunCnt", "", Some("DBPStateControl"));
    if booted == None || !(-1 <= AToI(booted.value) - boot <= 1) || section < 0 || runCnt == None then ([], 0)
    else (Accepted(secs[section].entries, junk), AToI(runCnt.value))
  }

  function Accepted(entries: seq<Entry>, junk: Junk): seq<Slot> {
    var (slots, id) := RecoverAll(entries, junk);
    if entries != [] && (slots[id].pkg == None || slots[id].loop < 0) then [] else slots
  }

  function Recovered(file: Option<string>, boot: int, stack: string, stack2: string, junk: Junk): (seq<Slot>, int)
  {
    if file == None then ([], 0) else RecoveredFrom(Parse(file.value, stack, stack2), boot, junk)
  }

  /** state_recover on an empty table */
  method StateRecover(file: Option<string>, boot: int, stack: string, stack2: string, junk: Junk)
    returns (slots: seq<Slot>, runCnt: int)
    ensures (slots, runCnt) == Recovered(file, boot, stack, stack2, junk)
  {
    slots, runCnt := [], 0;
    if file == None {
      return;
    }
    var df := new File();
    ParseAppend(df, file.value, stack, stack2);
    var s := df.LookupValue("SystemBootup", "", Some("DBPStateControl"));
    if s == None {
      return;
    }
    var rboot := AToI(s.value);
    if rboot - boot < -1 || rboot - boot > 1 {
      return;
    }
    var section := LookupSection(df.sections, Some("Instances"));
    if section < 0 {
      return;
    }
    s := df.LookupValue("RunCnt", "", Some("DBPStateControl"));
    if s == None {
      return;
    }
    runCnt := AToI(s.value);
    slots := ReadInstances(df.sections[section].entries, junk);
  }

  /** The loop that fills the table and the loop that validates it, and empties it if need be. */
  method ReadInstances(entries: seq<Entry>, junk: Junk) returns (slots: seq<Slot>)
    ensures slots == Accepted(entries, junk)
  {
    slots := [];
    var id := 0;
    for i := 0 to |entries|
      invariant (slots, id) == RecoverAll(entries[..i], junk)
    {
      assert entries[..i + 1][..i] == entries[..i];
      var next := RecoverEntry(slots, entries[i], junk(i));
      slots, id := next.0, next.1;
    }
    assert entries[..|entries|] == entries;
    var valid := true;
    for i := 0 to |entries|
      invariant valid <==> i == 0 || (slots[id].pkg != None && slots[id].loop >= 0)
    {
      if slots[id].pkg == None || slots[id].loop < 0 {
        valid := false;
      }
    }
    if !valid {
      slots := [];
    }
  }
}
