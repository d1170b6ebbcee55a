/** What the check at the end of state_recover is worth: it looks at the slot used last, again and
    again, and at no other. */
module StateValidity {
  import opened CStrings
  import opened DesktopFile
  import opened StateFile
  import opened StateRoundTrip

  /** The run that each entry is about. */
  function RunsOf(entries: seq<Entry>, junk: Junk): (runs: seq<int>)
    ensures |runs| == |entries|
    ensures forall i :: 0 <= i < |runs| ==> runs[i] == ScanUnsigned(entries[i].locale, junk(i))
  {
    seq(|entries|, i requires 0 <= i < |entries| => ScanUnsigned(entries[i].locale, junk(i)))
  }

  /** The id that the file gives for a run, if any: of several the last one. */
  function PkgOf(entries: seq<Entry>, runs: seq<int>, run: int): Option<string>
    requires |runs| == |entries|
  {
    if entries == [] then None
    else
      var n := |entries| - 1;
      if entries[n].key == "PkgId" && runs[n] == run then Some(entries[n].value)
      else PkgOf(entries[..n], runs[..n], run)
  }

  /** The loop device that the file gives for a run, or -1. */
  function LoopOf(entries: seq<Entry>, runs: seq<int>, run: int): int
    requires |runs| == |entries|
  {
    if entries == [] then -1
    else
      var n := |entries| - 1;
      if entries[n].key == "Loop" && runs[n] == run then AToI(entries[n].value)
      else LoopOf(entries[..n], runs[..n], run)
  }

  /** The file says all that is needed about the run. */
  predicate Complete(entries: seq<Entry>, runs: seq<int>, run: int)
    requires |runs| == |entries|
  {
    PkgOf(entries, runs, run).Some? && LoopOf(entries, runs, run) >= 0
  }

  predicate Valid(s: Slot) { s.pkg.Some? && s.loop >= 0 }

  predicate AllValid(slots: seq<Slot>) { forall i :: 0 <= i < |slots| ==> Valid(slots[i]) }

  /** One slot for each run that occurs, filled with what the entries say about the run. */
  ghost predicate Filled(slots: seq<Slot>, entries: seq<Entry>, runs: seq<int>)
    requires |runs| == |entries|
  {
    && (forall i, j :: 0 <= i < j < |slots| ==> slots[i].runId != slots[j].runId)
    && (forall i :: 0 <= i < |slots| ==> Says(slots[i], entries, runs))
    && (forall i :: 0 <= i < |slots| ==> slots[i].runId in runs)
    && (forall run | run in runs :: SlotIndex(slots, run) >= 0)
  }

  ghost predicate Says(s: Slot, entries: seq<Entry>, runs: seq<int>)
    requires |runs| == |entries|
  {
    s.pkg == PkgOf(entries, runs, s.runId) && s.loop == LoopOf(entries, runs, s.runId)
  }

  lemma {:induction false} AbsentSaysNothing(entries: seq<Entry>, runs: seq<int>, run: int)
    requires |runs| == |entries| && run !in runs
    ensures PkgOf(entries, runs, run) == None && LoopOf(entries, runs, run) == -1
  {
    if entries != [] {
      var n := |entries| - 1;
      assert runs[n] in runs && forall r | r in runs[..n] :: r in runs;
      AbsentSaysNothing(entries[..n], runs[..n], run);
    }
  }

  lemma Keys()
    ensures "PkgId" != "Loop"
  {
    assert |"PkgId"| == 5 && |"Loop"| == 4;
  }

  /** What an entry changes about a slot of its run. */
  function Written(s: Slot, e: Entry): (r: Slot)
    ensures r.runId == s.runId
  {
    if e.key == "PkgId" then s.(pkg := Some(e.value))
    else if e.key == "Loop" then s.(loop := AToI(e.value))
    else s
  }

  /** What one more entry changes: what is said about its run, and about no other. */
  lemma StillSays(entries: seq<Entry>, runs: seq<int>, e: Entry, run: int, s: Slot)
    requires |runs| == |entries| && Says(s, entries, runs)
    ensures Says(if s.runId == run then Written(s, e) else s, entries + [e], runs + [run])
  {
    Keys();
    assert (entries + [e])[..|entries|] == entries && (runs + [run])[..|runs|] == runs;
  }

  /** Finding or making the slot leaves one slot for each run, the new one still empty. */
  lemma SlotMade(slots: seq<Slot>, entries: seq<Entry>, runs: seq<int>, run: int)
    requires |runs| == |entries| && Filled(slots, entries, runs)
    ensures var (more, id) := GetSlot(slots, run);
            && more[id].runId == run && |slots| <= |more| && more[..|slots|] == slots
            && (forall i, j :: 0 <= i < j < |more| ==> more[i].runId != more[j].runId)
            && (forall i :: 0 <= i < |more| ==> Says(more[i], entries, runs))
            && (|more| == |slots| || (|more| == |slots| + 1 && id == |slots|))
  {
    if SlotIndex(slots, run) < 0 {
      AbsentSaysNothing(entries, runs, run);
      NewSlot(slots, entries, runs, run);
    }
  }

  lemma NewSlot(slots: seq<Slot>, entries: seq<Entry>, runs: seq<int>, run: int)
    requires |runs| == |entries| && Filled(slots, entries, runs) && SlotIndex(slots, run) < 0
    requires PkgOf(entries, runs, run) == None && LoopOf(entries, runs, run) == -1
    ensures var more := slots + [Slot(None, run, -1)];
            && more[..|slots|] == slots
            && (forall i, j :: 0 <= i < j < |more| ==> more[i].runId != more[j].runId)
            && (forall i :: 0 <= i < |more| ==> Says(more[i], entries, runs))
  {
    var more := slots + [Slot(None, run, -1)];
    assert forall i :: 0 <= i < |slots| ==> more[i] == slots[i];
  }

  /** One entry keeps the slots filled. */
  lemma EntryFills(slots: seq<Slot>, entries: seq<Entry>, runs: seq<int>, e: Entry, run: int)
    returns (next: seq<Slot>, id: nat)
    requires |runs| == |entries| && Filled(slots, entries, runs)
    ensures FillSlot(slots, e, run) == (next, id)
    ensures Filled(next, entries + [e], runs + [run]) && id < |next| && next[id].runId == run
  {
    var more;
    more, next, id := EntryWrites(slots, e, run);
    SlotMade(slots, entries, runs, run);
    forall i | 0 <= i < |next|
      ensures Says(next[i], entries + [e], runs + [run]) && next[i].runId in runs + [run]
    {
      StillSays(entries, runs, e, run, more[i]);
      assert i < |slots| ==> more[..|slots|][i] == slots[i];
    }
    AllFound(slots, runs, run, next, id);
  }

  lemma EntryWrites(slots: seq<Slot>, e: Entry, run: int) returns (more: seq<Slot>, next: seq<Slot>, id: nat)
    ensures GetSlot(slots, run) == (more, id) && FillSlot(slots, e, run) == (next, id)
    ensures id < |more| && next == more[id := Written(more[id], e)]
  {
    more, id := GetSlot(slots, run).0, GetSlot(slots, run).1;
    next := FillSlot(slots, e, run).0;
  }

  lemma AllFound(slots: seq<Slot>, runs: seq<int>, run: int, next: seq<Slot>, id: nat)
    requires forall r | r in runs :: SlotIndex(slots, r) >= 0
    requires |slots| <= |next| && forall i :: 0 <= i < |slots| ==> next[i].runId == slots[i].runId
    requires id < |next| && next[id].runId == run
    ensures forall r | r in runs + [run] :: SlotIndex(next, r) >= 0
  {
    forall r | r in runs + [run]
      ensures SlotIndex(next, r) >= 0
    {
      var k := if r in runs then SlotIndex(slots, r) else id;
      assert next[k].runId == r;
    }
  }

  lemma {:induction false} AllFilled(entries: seq<Entry>, junk: Junk) returns (slots: seq<Slot>, id: nat)
    ensures RecoverAll(entries, junk) == (slots, id) && Filled(slots, entries, RunsOf(entries, junk))
    ensures entries != [] ==> id < |slots| && slots[id].runId == RunsOf(entries, junk)[|entries| - 1]
  {
    if entries == [] {
      slots, id := [], 0;
    } else {
      var n := |entries| - 1;
      var before, _ := AllFilled(entries[..n], junk);
      slots, id := LastFills(before, entries, junk);
    }
  }

  lemma LastFills(before: seq<Slot>, entries: seq<Entry>, junk: Junk) returns (slots: seq<Slot>, id: nat)
    requires entries != []
    requires var front := entries[..|entries| - 1]; Filled(before, front, RunsOf(front, junk))
    ensures var n := |entries| - 1; RecoverEntry(before, entries[n], junk(n)) == (slots, id)
    ensures Filled(slots, entries, RunsOf(entries, junk))
    ensures id < |slots| && slots[id].runId == RunsOf(entries, junk)[|entries| - 1]
  {
    var n, runs := |entries| - 1, RunsOf(entries, junk);
    var front := entries[..n];
    assert runs == RunsOf(front, junk) + [runs[n]] && entries == front + [entries[n]];
    slots, id := EntryFills(before, front, RunsOf(front, junk), entries[n], runs[n]);
  }

  /** The table is accepted exactly if the file says all that is needed about the run of its last
      entry. What is accepted has an id and a device for every run exactly if, moreover, the file
      says so about every run. */
  lemma AcceptedIsValidIff(entries: seq<Entry>, junk: Junk)
    requires entries != []
    ensures var accepted, runs := Accepted(entries, junk), RunsOf(entries, junk);
            && (accepted != [] <==> Complete(entries, runs, runs[|runs| - 1]))
            && (accepted != [] ==> (AllValid(accepted) <==> forall run | run in runs :: Complete(entries, runs, run)))
  {
    var slots, id := AllFilled(entries, junk);
    AcceptedIs(entries, junk, slots, id);
    var runs := RunsOf(entries, junk);
    assert Says(slots[id], entries, runs);
    AllValidIff(slots, entries, runs);
  }

  lemma AcceptedIs(entries: seq<Entry>, junk: Junk, slots: seq<Slot>, id: nat)
    requires entries != [] && RecoverAll(entries, junk) == (slots, id) && id < |slots|
    ensures Accepted(entries, junk) == if Valid(slots[id]) then slots else []
  {
  }

  lemma AllValidIff(slots: seq<Slot>, entries: seq<Entry>, runs: seq<int>)
    requires |runs| == |entries| && Filled(slots, entries, runs)
    ensures AllValid(slots) <==> forall run | run in runs :: Complete(entries, runs, run)
  {
    if AllValid(slots) {
      forall run | run in runs
        ensures Complete(entries, runs, run)
      {
        var n := SlotIndex(slots, run);
        assert Valid(slots[n]) && Says(slots[n], entries, runs);
      }
    }
    if forall run | run in runs :: Complete(entries, runs, run) {
      forall i | 0 <= i < |slots|
        ensures Valid(slots[i])
      {
        assert Says(slots[i], entries, runs) && slots[i].runId in runs;
      }
    }
  }

  /** It does happen: a file that lacks the device of an instance is accepted when a complete
      instance follows, and the table has an instance on device -1. */
  lemma AcceptsMissingLoop(x: Instance, y: Instance, junk: Junk)
    requires Storable(x) && Storable(y) && x.runId != y.runId
    ensures var entries := [PkgEntry(x), PkgEntry(y), LoopEntry(y)];
            Accepted(entries, junk) == [Slot(Some(x.pkg), x.runId, -1), SlotOf(y)]
  {
    var entries := [PkgEntry(x), PkgEntry(y), LoopEntry(y)];
    var one := [Slot(Some(x.pkg), x.runId, -1)];
    FirstSlot(x, junk);
    PairAppended([PkgEntry(x)], one, y, junk);
    assert entries == [PkgEntry(x)] + [PkgEntry(y), LoopEntry(y)];
    assert one + [SlotOf(y)] == [one[0], SlotOf(y)];
    AcceptedIs(entries, junk, [one[0], SlotOf(y)], 1);
  }

  lemma PairAppended(entries: seq<Entry>, slots: seq<Slot>, y: Instance, junk: Junk)
    requires Storable(y) && RecoverAll(entries, junk).0 == slots && SlotIndex(slots, y.runId) < 0
    ensures RecoverAll(entries + [PkgEntry(y), LoopEntry(y)], junk) == (slots + [SlotOf(y)], |slots|)
  {
    TwoMore(entries, PkgEntry(y), LoopEntry(y), junk);
    PairAdds(slots, y, junk(|entries|), junk(|entries| + 1));
  }

  lemma FirstSlot(x: Instance, junk: Junk)
    requires Storable(x)
    ensures RecoverAll([PkgEntry(x)], junk).0 == [Slot(Some(x.pkg), x.runId, -1)]
  {
    RunOfLocale(x, junk(0));
    PkgEntryAdds([], PkgEntry(x), x.runId, junk(0));
    OneMoreEntry([], PkgEntry(x), junk);
    assert [] + [PkgEntry(x)] == [PkgEntry(x)];
    assert [] + [Slot(Some(x.pkg), x.runId, -1)] == [Slot(Some(x.pkg), x.runId, -1)];
  }

  lemma {:induction false} OneMoreEntry(entries: seq<Entry>, e: Entry, junk: Junk)
    ensures RecoverAll(entries + [e], junk) == RecoverEntry(RecoverAll(entries, junk).0, e, junk(|entries|))
  {
    assert (entries + [e])[..|entries|] == entries;
  }
}
