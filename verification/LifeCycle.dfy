/** Running and stopping packages: the instance table and the purgatory of dbpd/package.c. Every
    public operation holds the table's mutex from start to end, so each one is an atomic step. */
module LifeCycle {
  import Sequences
  import opened LoopDevice

  datatype Instance = Instance(pkg: string, runId: int, loop: int)

  /** A package nobody runs any more. Its expiry time is always set and never compared with the
      clock, so it is not part of the model. */
  datatype Limbo = Limbo(pkg: string, loop: int, reusable: int)

  datatype State = State(registered: set<string>, instances: seq<Instance>, purgatory: seq<Limbo>,
                         runCnt: int, kernel: Kernel)

  const MUTILATED := -1023
  const BAD_PKG_ID := -1007
  const INT_MAX := 0x7fff_ffff

  ghost predicate DistinctRunIds(instances: seq<Instance>) {
    forall i, j :: 0 <= i < j < |instances| ==> instances[i].runId != instances[j].runId
  }

  // ---- Searches: the first match or -1 ----

  function FindInstance(instances: seq<Instance>, pkg: string): (n: int)
    ensures -1 <= n < |instances|
    ensures n >= 0 ==> instances[n].pkg == pkg
    ensures n == -1 ==> forall i :: 0 <= i < |instances| ==> instances[i].pkg != pkg
  {
    Sequences.First(instances, (x: Instance) => x.pkg == pkg)
  }

  function FindLimbo(purgatory: seq<Limbo>, pkg: string): (n: int)
    ensures -1 <= n < |purgatory|
    ensures n >= 0 ==> purgatory[n].pkg == pkg
    ensures n == -1 ==> forall i :: 0 <= i < |purgatory| ==> purgatory[i].pkg != pkg
  {
    Sequences.First(purgatory, (x: Limbo) => x.pkg == pkg)
  }

  function FindRun(instances: seq<Instance>, runId: int): (n: int)
    ensures -1 <= n < |instances|
    ensures n >= 0 ==> instances[n].runId == runId
    ensures forall i :: 0 <= i < (if n >= 0 then n else |instances|) ==> instances[i].runId != runId
  {
    Sequences.First(instances, (x: Instance) => x.runId == runId)
  }

  /** memmove over one element */
  function Without<T>(s: seq<T>, i: nat): seq<T>
    requires i < |s|
  {
    s[..i] + s[i + 1..]
  }

  // ---- The operations as functions ----

  /** The instance that a successful run adds. A counter that would leave the range of an int
      starts over. */
  function WithInstance(s: State, pkg: string, loop: int): State {
    s.(instances := s.instances + [Instance(pkg, s.runCnt, loop)],
       runCnt := if s.runCnt >= INT_MAX then 0 else s.runCnt + 1)
  }

  /** package_run: share the mount of a running instance, else take the package back out of
      purgatory, else mount it. */
  function Run(s: State, pkg: string, env: MountEnv): (State, int) {
    var i, j := FindInstance(s.instances, pkg), FindLimbo(s.purgatory, pkg);
    if i >= 0 then (WithInstance(s, pkg, s.instances[i].loop), s.runCnt)
    else if j >= 0 then
      if s.purgatory[j].reusable < 1 then (s, MUTILATED)
      else (WithInstance(s.(purgatory := Without(s.purgatory, j)), pkg, s.purgatory[j].loop), s.runCnt)
    else if pkg !in s.registered then (s, BAD_PKG_ID)
    else
      var (loop, k) := Mount(s.kernel, pkg, env);
      if loop < 0 then (s.(kernel := k), loop) else (WithInstance(s.(kernel := k), pkg, loop), s.runCnt)
  }

  /** Some instance with another run id runs the package. */
  predicate Shared(instances: seq<Instance>, pkg: string, runId: int) {
    exists i :: 0 <= i < |instances| && instances[i].pkg == pkg && instances[i].runId != runId
  }

  /** package_stop */
  function Stop(s: State, runId: int): State {
    var n := FindRun(s.instances, runId);
    if n < 0 then s
    else
      var inst := s.instances[n];
      s.(instances := Without(s.instances, n),
         purgatory := if Shared(s.instances, inst.pkg, runId) then s.purgatory
                      else s.purgatory + [Limbo(inst.pkg, inst.loop, 1)])
  }

  /** package_purgatory_reap of entry j */
  function Reap(s: State, j: nat, f: Faults): State
    requires j < |s.purgatory|
  {
    var l := s.purgatory[j];
    var (code, k) := Teardown(s.kernel, l.pkg, l.loop, l.reusable, f);
    s.(kernel := k,
       purgatory := if code == 0 then Without(s.purgatory, j) else s.purgatory[j := l.(reusable := code)])
  }

  /** The loop of package_purgatory_check from entry j on: a reaped entry makes way for the next
      one at the same index. faults(pkg) is what the system does to that package. */
  function ReapFrom(s: State, j: nat, faults: string -> Faults): State
    requires j <= |s.purgatory|
    decreases |s.purgatory| - j
  {
    if j == |s.purgatory| then s
    else
      var t := Reap(s, j, faults(s.purgatory[j].pkg));
      if |t.purgatory| < |s.purgatory| then ReapFrom(t, j, faults) else ReapFrom(t, j + 1, faults)
  }

  // ---- The operations as they are written ----

  class Table {
    var registered: set<string>
    var instances: seq<Instance>
    var purgatory: seq<Limbo>
    var runCnt: int
    var kernel: Kernel   // stands for the operating system

    function Abs(): State
      reads this
    {
      State(registered, instances, purgatory, runCnt, kernel)
    }

    /** package_init */
    constructor (registered: set<string>, kernel: Kernel)
      ensures Abs() == State(registered, [], [], 0, kernel)
    {
      this.registered, this.kernel := registered, kernel;
      instances, purgatory, runCnt := [], [], 0;
    }

    method PurgatoryRemove(id: nat)
      requires id < |purgatory|
      modifies this`purgatory
      ensures purgatory == Without(old(purgatory), id)
    {
      purgatory := purgatory[..id] + purgatory[id + 1..];
    }

    method PurgatoryRevive(pkg: string) returns (loop: int)
      modifies this`purgatory
      ensures var j := FindLimbo(old(purgatory), pkg);
              if j < 0 then loop == -1 && purgatory == old(purgatory)
              else if old(purgatory)[j].reusable < 1 then loop == -2 && purgatory == old(purgatory)
              else loop == old(purgatory)[j].loop && purgatory == Without(old(purgatory), j)
    {
      var i := FindLimbo(purgatory, pkg);
      if i < 0 {
        return -1;
      }
      if purgatory[i].reusable < 1 {
        return -2;
      }
      loop := purgatory[i].loop;
      PurgatoryRemove(i);
    }

    method RunPackage(pkg: string, env: MountEnv) returns (ret: int)
      requires forall j :: 0 <= j < |purgatory| ==> purgatory[j].loop >= 0
      modifies this
      ensures (Abs(), ret) == Run(old(Abs()), pkg, env)
    {
      var i := FindInstance(instances, pkg);
      var loop;
      if i >= 0 {
        loop := instances[i].loop;
      } else {
        loop := PurgatoryRevive(pkg);
        if loop < -1 {
          return MUTILATED;
        }
        if loop == -1 {
          if pkg !in registered {
            return BAD_PKG_ID;
          }
          loop, kernel := LoopMount(kernel, pkg, env);
          if loop < 0 {
            return loop;
          }
        }
      }
      instances := instances + [Instance(pkg, runCnt, loop)];
      ret := runCnt;
      runCnt := runCnt + 1;
      if runCnt > INT_MAX {
        runCnt := 0;
      }
    }

    method StopPackage(runId: int)
      modifies this
      ensures Abs() == Stop(old(Abs()), runId)
    {
      var rid := FindRun(instances, runId);
      if rid < 0 {
        return;
      }
      var inst := instances[rid];
      var i := 0;
      while i < |instances| && !(instances[i].pkg == inst.pkg && instances[i].runId != runId)
        invariant 0 <= i <= |instances|
        invariant forall j :: 0 <= j < i ==> !(instances[j].pkg == inst.pkg && instances[j].runId != runId)
      {
        i := i + 1;
      }
      if i == |instances| {
        purgatory := purgatory + [Limbo(inst.pkg, inst.loop, 1)];
      }
      instances := instances[..rid] + instances[rid + 1..];
    }

    method PurgatoryReap(id: nat, f: Faults) returns (gone: bool)
      requires id < |purgatory|
      modifies this`purgatory, this`kernel
      ensures Abs() == Reap(old(Abs()), id, f)
      ensures gone <==> |purgatory| < |old(purgatory)|
    {
      var l := purgatory[id];
      var code;
      code, kernel := LoopUmount(kernel, l.pkg, l.loop, l.reusable, f);
      purgatory := purgatory[id := l.(reusable := code)];
      if code == 0 {
        PurgatoryRemove(id);
        return true;
      }
      return false;
    }

    method PurgatoryCheck(faults: string -> Faults)
      modifies this`purgatory, this`kernel
      ensures Abs() == ReapFrom(old(Abs()), 0, faults)
    {
      var i := 0;
      ghost var s := Abs();
      ghost var result := ReapFrom(s, 0, faults);
      while i < |purgatory|
        invariant s == Abs() && 0 <= i <= |s.purgatory|
        invariant result == ReapFrom(s, i, faults)
        decreases |s.purgatory| - i
      {
        var gone := PurgatoryReap(i, faults(purgatory[i].pkg));
        s := Reap(s, i, faults(s.purgatory[i].pkg));
        if gone {
          i := i - 1;
        }
        i := i + 1;
      }
    }
  }
}
