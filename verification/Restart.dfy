/** A daemon that stops and starts again: the state that LifeCycle reached, written by StateFile,
    read back, and judged by the invariant of LifeCycleSafety. */
module Restart {
  import opened CStrings
  import opened DesktopFile
  import opened DesktopParser
  import opened LoopDevice
  import opened LifeCycle
  import opened LifeCycleSafety
  import opened StateFile
  import opened StateRoundTrip

  function InstanceOf(s: Slot): Instance {
    LifeCycle.Instance(if s.pkg == None then "" else s.pkg.value, s.runId, s.loop)
  }

  function InstancesOf(slots: seq<Slot>): (r: seq<Instance>)
    ensures |r| == |slots| && forall i :: 0 <= i < |r| ==> r[i] == InstanceOf(slots[i])
  {
    seq(|slots|, i requires 0 <= i < |slots| => InstanceOf(slots[i]))
  }

  /** What the next daemon starts from: it reads the file the last one wrote, has no purgatory and
      no packages yet, and finds the system as it was left. */
  function Restarted(s: State, boot: int, now: int, stack: string, stack2: string, junk: Junk): State
    requires Unsigned(s.instances)
  {
    var (slots, runCnt) := Recovered(Some(Text(Dumped(boot, s.runCnt, s.instances))), now, stack, stack2, junk);
    State({}, InstancesOf(slots), [], runCnt, s.kernel)
  }

  /** The file format can hold the table. */
  ghost predicate Savable(s: State) {
    RunIdsDistinct(s) && forall x | x in s.instances :: Storable(x)
  }

  ghost predicate AllKept(instances: seq<Instance>) {
    forall x | x in instances :: KeptId(x)
  }

  lemma TableFits(s: State)
    requires Savable(s)
    ensures AllStorable(s.instances) && Unsigned(s.instances) && 0 <= s.runCnt < UINT_MOD
  {
  }

  lemma SlotsAreInstances(instances: seq<Instance>)
    ensures InstancesOf(SlotsOf(instances)) == instances
  {
  }

  /** The tables come back with the ids that are read, except for the purgatory. */
  lemma TablesComeBack(s: State, boot: int, now: int, stack: string, stack2: string, junk: Junk)
    requires Savable(s)
    requires |PrintInt(boot)| <= 15 && -1 <= boot - now <= 1
    ensures Unsigned(s.instances)
    ensures Restarted(s, boot, now, stack, stack2, junk) == State({}, ReadBack(s.instances), [], s.runCnt, s.kernel)
  {
    TableFits(s);
    RestartReads(boot, now, s.runCnt, s.instances, stack, stack2, junk);
    SlotsAreInstances(ReadBack(s.instances));
  }

  /** t has the run ids, the devices and the counter of s, and the same instances exactly if their
      ids are kept. It is safe exactly if moreover nothing in purgatory still had its union, and
      keeps track of everything exactly if s did, the ids are kept and the purgatory was empty. */
  ghost predicate RestartedWell(s: State, t: State) {
    && |t.instances| == |s.instances| && t.runCnt == s.runCnt && t.kernel == s.kernel && RunIdsDistinct(t)
    && (t.instances == s.instances <==> AllKept(s.instances))
    && (Safe(t) <==> AllKept(s.instances) && forall l | l in s.purgatory :: l.reusable != 1)
    && (Inv(s) ==> (Inv(t) <==> AllKept(s.instances) && s.purgatory == []))
  }

  /** A daemon that starts from the file that s was dumped to is well restarted. */
  ghost predicate ComesBack(s: State, boot: int, now: int, stack: string, stack2: string, junk: Junk) {
    Unsigned(s.instances) && RestartedWell(s, Restarted(s, boot, now, stack, stack2, junk))
  }

  /** In every run, whatever the system has refused: after a restart within the same boot every
      instance is back under its run id and with its loop, the counter goes on from where it was,
      and RestartedWell says when the daemon is in a state from which every run is safe again. */
  lemma RestartInAnyRun(s0: State, es: seq<Event>, boot: int, now: int, stack: string, stack2: string, junk: Junk)
    requires Initial(s0) && AllPlausible(s0, es) && NeverStopsTwin(s0, es) && Savable(Exec(s0, es))
    requires |PrintInt(boot)| <= 15 && -1 <= boot - now <= 1
    ensures ComesBack(Exec(s0, es), boot, now, stack, stack2, junk)
  {
    var s := Exec(s0, es);
    assert Safe(s) by {
      ExecKeeps(s0, es);
    }
    assert Unsigned(s.instances);
    RestartFrom(s, boot, now, stack, stack2, junk);
  }

  /** A table whose packages hold what they should cannot have got another package's name. */
  lemma SafeNeedsIds(s: State, t: State)
    requires Safe(s) && Safe(t) && t.kernel == s.kernel && |t.instances| == |s.instances|
    requires forall i :: 0 <= i < |s.instances| ==>
               t.instances[i].runId == s.instances[i].runId && t.instances[i].loop == s.instances[i].loop
    ensures t.instances == s.instances
  {
    forall i | 0 <= i < |s.instances|
      ensures t.instances[i] == s.instances[i]
    {
      var x, y := s.instances[i], t.instances[i];
      assert x in s.instances && y in t.instances;
      assert Claim(x.pkg, x.loop, 1) in Claims(s) && Claim(y.pkg, y.loop, 1) in Claims(t);
      assert y.pkg in s.kernel.unions && Layers(s.kernel, y.pkg)[0] == y.loop;
      var c :| c in Claims(s) && c.pkg == y.pkg;
      assert Holding(s.kernel, c.pkg, c.loop, c.code);
    }
  }

  lemma WellWhenBack(s: State, t: State)
    requires Safe(s) && Savable(s) && Unsigned(s.instances)
    requires t == State({}, ReadBack(s.instances), [], s.runCnt, s.kernel)
    ensures RestartedWell(s, t)
  {
    ReadBackIff(s.instances);
    ReadBackKeepsNumbers(s.instances);
    NumbersStay(s, t);
    if Safe(t) {
      SafeNeedsIds(s, t);
    }
    if t.instances == s.instances {
      CleanWhenBack(s, t);
    }
  }

  lemma CleanWhenBack(s: State, t: State)
    requires Safe(s) && t == State({}, s.instances, [], s.runCnt, s.kernel)
    ensures Safe(t) <==> forall l | l in s.purgatory :: l.reusable != 1
    ensures Inv(s) ==> (Inv(t) <==> s.purgatory == [])
  {
    RestartIsCleanIff(s);
    assert Claims(t) == Claims(s.(purgatory := []));
  }

  lemma NumbersStay(s: State, t: State)
    requires RunIdsDistinct(s) && t.runCnt == s.runCnt && |t.instances| == |s.instances|
    requires forall i :: 0 <= i < |s.instances| ==> t.instances[i].runId == s.instances[i].runId
    ensures RunIdsDistinct(t)
  {
    forall y | y in t.instances
      ensures 0 <= y.runId <= INT_MAX
    {
      var i :| 0 <= i < |t.instances| && t.instances[i] == y;
      assert s.instances[i] in s.instances;
    }
  }

  lemma RestartFrom(s: State, boot: int, now: int, stack: string, stack2: string, junk: Junk)
    requires Safe(s) && Savable(s)
    requires |PrintInt(boot)| <= 15 && -1 <= boot - now <= 1
    ensures ComesBack(s, boot, now, stack, stack2, junk)
  {
    TablesComeBack(s, boot, now, stack, stack2, junk);
    WellWhenBack(s, Restarted(s, boot, now, stack, stack2, junk));
  }

  /** What follows a clean restart is as safe as what went before. */
  lemma SafeAcrossRestart(s: State, boot: int, now: int, stack: string, stack2: string, junk: Junk, later: seq<Event>)
    requires Safe(s) && Savable(s) && AllKept(s.instances) && s.purgatory == [] && Unsigned(s.instances)
    requires |PrintInt(boot)| <= 15 && -1 <= boot - now <= 1
    requires var t := Restarted(s, boot, now, stack, stack2, junk); AllPlausible(t, later) && NeverStopsTwin(t, later)
    ensures var t := Restarted(s, boot, now, stack, stack2, junk);
            Safe(Exec(t, later)) && (Inv(s) && AllClean(t, later) ==> Inv(Exec(t, later)))
  {
    RestartFrom(s, boot, now, stack, stack2, junk);
    ExecKeeps(Restarted(s, boot, now, stack, stack2, junk), later);
  }
}
