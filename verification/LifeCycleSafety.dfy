/** What holds in every state that the operations of LifeCycle can reach, in any order and with
    any faults of the system. */
module LifeCycleSafety {
  import opened LoopDevice
  import opened LifeCycle

  /** A package's claim to a loop device; the code says which resources go with it. */
  datatype Claim = Claim(pkg: string, loop: int, code: int)

  /** Running packages claim everything, packages in purgatory what their code says. */
  ghost function Claims(s: State): set<Claim> {
    (set x | x in s.instances :: Claim(x.pkg, x.loop, 1))
    + (set l | l in s.purgatory :: Claim(l.pkg, l.loop, l.reusable))
  }

  ghost predicate Claimed(claims: set<Claim>, pkg: string) {
    exists c :: c in claims && c.pkg == pkg
  }

  ghost predicate LoopClaimed(claims: set<Claim>, loop: int) {
    exists c :: c in claims && c.loop == loop
  }

  /** The images that a claim accounts for. */
  function OwnLayers(c: Claim): seq<int> {
    if HasImage(c.code) then [c.loop] else []
  }

  /** The claims describe the system: each one tells what its package holds, a package has one
      claim and a loop one claimant, and no union is mounted unclaimed. */
  ghost predicate Sound(k: Kernel, claims: set<Claim>) {
    && (forall c | c in claims :: IsCode(c.code) && c.loop >= 0 && Holding(k, c.pkg, c.loop, c.code))
    && (forall c, d | c in claims && d in claims && (c.pkg == d.pkg || c.loop == d.loop) :: c == d)
    && (forall pkg | pkg in k.unions :: Claimed(claims, pkg))
  }

  /** And they describe all of it: no image and no device is there beyond what is claimed. */
  ghost predicate Complete(k: Kernel, claims: set<Claim>) {
    && (forall c | c in claims :: Layers(k, c.pkg) == OwnLayers(c))
    && (forall pkg | Layers(k, pkg) != [] :: Claimed(claims, pkg))
    && (forall loop | loop in k.loops :: LoopClaimed(claims, loop))
  }

  /** A package is in purgatory once at most, and not while it runs. */
  ghost predicate LimboOnce(s: State) {
    && (forall j, j' :: 0 <= j < j' < |s.purgatory| ==> s.purgatory[j].pkg != s.purgatory[j'].pkg)
    && (forall x, l | x in s.instances && l in s.purgatory :: x.pkg != l.pkg)
  }

  /** What keeps running packages safe, whatever fails. */
  ghost predicate Safe(s: State) {
    Sound(s.kernel, Claims(s)) && LimboOnce(s)
  }

  /** And with it nothing is lost track of. */
  ghost predicate Inv(s: State) {
    Safe(s) && Complete(s.kernel, Claims(s))
  }

  /** Run ids are distinct numbers that fit an int. */
  ghost predicate RunIdsDistinct(s: State) {
    && 0 <= s.runCnt <= INT_MAX
    && (forall x | x in s.instances :: 0 <= x.runId <= INT_MAX)
    && DistinctRunIds(s.instances)
  }

  // ---- Sequences ----

  lemma WithoutElements<T>(s: seq<T>, i: nat)
    requires i < |s|
    ensures forall x | x in Without(s, i) :: x in s
    ensures forall x | x in s :: x in Without(s, i) || x == s[i]
  {
    var t := Without(s, i);
    forall x | x in s
      ensures x in t || x == s[i]
    {
      var j :| 0 <= j < |s| && s[j] == x;
      assert j < i ==> t[j] == x;
      assert j > i ==> t[j - 1] == x;
    }
  }

  lemma WithoutIndex<T>(s: seq<T>, i: nat)
    requires i < |s|
    ensures forall j :: 0 <= j < |s| - 1 ==> Without(s, i)[j] == s[if j < i then j else j + 1]
  {
  }

  // ---- Claims that change ----

  /** A claim on another package and another loop is as good as before. */
  lemma OtherHolding(k: Kernel, k': Kernel, pkg: string, loop: int, c: Claim)
    requires OthersUnchanged(k, k', pkg, loop) && Holding(k, c.pkg, c.loop, c.code)
    requires c.pkg != pkg && c.loop != loop
    ensures Holding(k', c.pkg, c.loop, c.code)
  {
    assert c.pkg in k'.unions <==> c.pkg in k'.unions - {pkg};
    assert c.pkg in k.unions <==> c.pkg in k.unions - {pkg};
    assert c.loop in k'.loops <==> c.loop in k'.loops - {loop};
    assert c.loop in k.loops <==> c.loop in k.loops - {loop};
  }

  /** What `c` stands for is the only thing that differs, and it is the only claim that may. */
  ghost predicate OneClaimDiffers(k: Kernel, claims: set<Claim>, k': Kernel, claims': set<Claim>, pkg: string,
                                  loop: int)
  {
    && OthersUnchanged(k, k', pkg, loop)
    && (forall c | c in claims && (c.pkg == pkg || c.loop == loop) :: c.pkg == pkg && c.loop == loop)
    && (forall c | c in claims' && (c.pkg == pkg || c.loop == loop) :: c.pkg == pkg && c.loop == loop)
    && (forall c, d | c in claims' && d in claims' && c.pkg == pkg && d.pkg == pkg :: c == d)
    && (forall c: Claim | c.pkg != pkg && c.loop != loop :: c in claims <==> c in claims')
  }

  lemma SoundAfter(k: Kernel, claims: set<Claim>, k': Kernel, claims': set<Claim>, pkg: string, loop: int)
    requires Sound(k, claims) && OneClaimDiffers(k, claims, k', claims', pkg, loop)
    requires forall c | c in claims' && c.pkg == pkg ::
               IsCode(c.code) && c.loop >= 0 && Holding(k', c.pkg, c.loop, c.code)
    requires pkg in k'.unions ==> Claimed(claims', pkg)
    ensures Sound(k', claims')
  {
    forall c | c in claims'
      ensures IsCode(c.code) && c.loop >= 0 && Holding(k', c.pkg, c.loop, c.code)
    {
      if c.pkg != pkg {
        OtherHolding(k, k', pkg, loop, c);
      }
    }
    forall p | p in k'.unions && p != pkg
      ensures Claimed(claims', p)
    {
      assert p in k'.unions - {pkg} && p in k.unions;
      var c :| c in claims && c.pkg == p;
      assert c in claims';
    }
  }

  lemma CompleteAfter(k: Kernel, claims: set<Claim>, k': Kernel, claims': set<Claim>, pkg: string, loop: int)
    requires Complete(k, claims) && OneClaimDiffers(k, claims, k', claims', pkg, loop)
    requires forall c | c in claims' && c.pkg == pkg :: Layers(k', pkg) == OwnLayers(c)
    requires Layers(k', pkg) != [] ==> Claimed(claims', pkg)
    requires loop in k'.loops ==> LoopClaimed(claims', loop)
    ensures Complete(k', claims')
  {
    forall p | Layers(k', p) != [] && p != pkg
      ensures Claimed(claims', p)
    {
      assert Layers(k, p) != [];
      var c :| c in claims && c.pkg == p;
      assert c in claims';
    }
    forall l | l in k'.loops && l != loop
      ensures LoopClaimed(claims', l)
    {
      assert l in k'.loops - {loop} && l in k.loops;
      var c :| c in claims && c.loop == l;
      assert c in claims';
    }
  }

  lemma NewClaim(k: Kernel, claims: set<Claim>, pkg: string, loop: int, k': Kernel)
    requires Sound(k, claims) && !Claimed(claims, pkg)
    requires loop >= 0 && loop !in k.loops
    requires Holding(k', pkg, loop, 1) && OthersUnchanged(k, k', pkg, loop)
    ensures Sound(k', claims + {Claim(pkg, loop, 1)})
    ensures Complete(k, claims) && Layers(k', pkg) == [loop] + Layers(k, pkg) ==>
              Complete(k', claims + {Claim(pkg, loop, 1)})
  {
    var c := Claim(pkg, loop, 1);
    var all := claims + {c};
    assert c in all;
    SoundAfter(k, claims, k', all, pkg, loop);
    if Complete(k, claims) && Layers(k', pkg) == [loop] + Layers(k, pkg) {
      CompleteAfter(k, claims, k', all, pkg, loop);
    }
  }

  /** A failing mount of a package without a claim, from a device that was free. */
  lemma NoNewClaim(k: Kernel, claims: set<Claim>, pkg: string, loop: int, k': Kernel)
    requires Sound(k, claims) && !Claimed(claims, pkg) && !LoopClaimed(claims, loop)
    requires OthersUnchanged(k, k', pkg, loop) && k'.unions == k.unions
    ensures Sound(k', claims)
    ensures SameMounts(k, k') && Complete(k, claims) ==> Complete(k', claims)
  {
    SoundAfter(k, claims, k', claims, pkg, loop);
  }

  lemma ChangedClaim(k: Kernel, claims: set<Claim>, c: Claim, code: int, k': Kernel)
    requires Sound(k, claims) && c in claims && (IsCode(code) || code == 0)
    requires Released(k, k', c.pkg, c.loop, c.code, code)
    ensures var all := claims - {c} + if code == 0 then {} else {c.(code := code)};
            Sound(k', all) && (Complete(k, claims) ==> Complete(k', all))
  {
    var all := claims - {c} + if code == 0 then {} else {c.(code := code)};
    if code != 0 {
      assert c.(code := code) in all;
    }
    SoundAfter(k, claims, k', all, c.pkg, c.loop);
    if Complete(k, claims) {
      assert Layers(k, c.pkg) == OwnLayers(c);
      CompleteAfter(k, claims, k', all, c.pkg, c.loop);
    }
  }

  // ---- Every step keeps the invariant ----

  /** The package is neither mounted nor in purgatory, so running it has to mount it. */
  predicate Mounts(s: State, pkg: string) {
    FindInstance(s.instances, pkg) < 0 && FindLimbo(s.purgatory, pkg) < 0 && pkg in s.registered
  }

  /** If the run mounts the package and that fails, the failure is undone. */
  predicate CleanRun(s: State, pkg: string, env: MountEnv) {
    Mounts(s, pkg) && MountResult(env, pkg) < 0 ==> CleanFailure(env, pkg)
  }

  /** Giving a new instance to a package with a complete claim. */
  lemma AttachKeeps(s: State, pkg: string, loop: int)
    requires Sound(s.kernel, Claims(s) + {Claim(pkg, loop, 1)}) && LimboOnce(s)
    requires forall l | l in s.purgatory :: l.pkg != pkg
    ensures Safe(WithInstance(s, pkg, loop))
    ensures Claims(WithInstance(s, pkg, loop)) == Claims(s) + {Claim(pkg, loop, 1)}
  {
    var t := WithInstance(s, pkg, loop);
    var x := Instance(pkg, s.runCnt, loop);
    assert t.instances == s.instances + [x];
    assert forall y :: y in t.instances <==> y in s.instances || y == x;
    assert Claims(t) == Claims(s) + {Claim(pkg, loop, 1)};
  }

  /** What a step from s to t keeps: safety always, completeness if the step is clean. */
  ghost predicate Kept(s: State, t: State, clean: bool) {
    Safe(t) && (clean && Inv(s) ==> Inv(t))
  }

  lemma RunningKeeps(s: State, pkg: string, env: MountEnv)
    requires Safe(s) && FindInstance(s.instances, pkg) >= 0
    ensures Kept(s, Run(s, pkg, env).0, true)
  {
    var x := s.instances[FindInstance(s.instances, pkg)];
    assert x in s.instances;
    assert Claims(s) + {Claim(pkg, x.loop, 1)} == Claims(s) by {
      assert Claim(x.pkg, x.loop, 1) in Claims(s);
    }
    AttachKeeps(s, pkg, x.loop);
  }

  /** Taking entry j out of purgatory takes out its claim and no other. */
  lemma LeavesPurgatory(s: State, j: nat)
    requires LimboOnce(s) && j < |s.purgatory|
    ensures var t := s.(purgatory := Without(s.purgatory, j));
            var l := s.purgatory[j];
            && LimboOnce(t) && Claims(t) == Claims(s) - {Claim(l.pkg, l.loop, l.reusable)}
            && (forall m | m in t.purgatory :: m.pkg != l.pkg && m in s.purgatory)
  {
    var l := s.purgatory[j];
    var t := s.(purgatory := Without(s.purgatory, j));
    WithoutElements(s.purgatory, j);
    WithoutIndex(s.purgatory, j);
    assert l in s.purgatory;
    forall m | m in t.purgatory
      ensures m.pkg != l.pkg
    {
      var i :| 0 <= i < |t.purgatory| && t.purgatory[i] == m;
    }
    forall c | c in Claims(s) && c != Claim(l.pkg, l.loop, l.reusable)
      ensures c in Claims(t)
    {
      if x :| x in s.instances && c == Claim(x.pkg, x.loop, 1) {
        assert x in t.instances;
      } else {
        var m :| m in s.purgatory && c == Claim(m.pkg, m.loop, m.reusable);
        assert m in t.purgatory;
      }
    }
  }

  lemma ReviveKeeps(s: State, pkg: string, env: MountEnv)
    requires Safe(s)
    requires FindInstance(s.instances, pkg) < 0 && FindLimbo(s.purgatory, pkg) >= 0
    ensures Kept(s, Run(s, pkg, env).0, true)
  {
    var j := FindLimbo(s.purgatory, pkg);
    var l := s.purgatory[j];
    var c := Claim(l.pkg, l.loop, l.reusable);
    assert l in s.purgatory && c in Claims(s);
    if l.reusable >= 1 {
      var t := s.(purgatory := Without(s.purgatory, j));
      LeavesPurgatory(s, j);
      assert Claims(t) + {Claim(pkg, l.loop, 1)} == Claims(s);
      AttachKeeps(t, pkg, l.loop);
    }
  }

  lemma NotClaimed(s: State, pkg: string)
    requires FindInstance(s.instances, pkg) < 0 && FindLimbo(s.purgatory, pkg) < 0
    ensures !Claimed(Claims(s), pkg)
    ensures forall l | l in s.purgatory :: l.pkg != pkg
  {
  }

  lemma FreeIsNotClaimed(k: Kernel, claims: set<Claim>, loop: int)
    requires Sound(k, claims) && (loop >= 0 ==> loop !in k.loops)
    ensures !LoopClaimed(claims, loop)
  {
  }

  lemma MountKeeps(s: State, pkg: string, env: MountEnv)
    requires Safe(s) && Plausible(s.kernel, env) && Mounts(s, pkg)
    ensures Kept(s, Run(s, pkg, env).0, CleanRun(s, pkg, env))
  {
    NotClaimed(s, pkg);
    FreeIsNotClaimed(s.kernel, Claims(s), env.free);
    MountTouchesOwn(s.kernel, pkg, env);
    MountAllOrNothingIff(s.kernel, pkg, env);
    var (loop, k) := Mount(s.kernel, pkg, env);
    var t := s.(kernel := k);
    assert Claims(t) == Claims(s);
    if loop < 0 {
      NoNewClaim(s.kernel, Claims(s), pkg, env.free, k);
    } else {
      NewClaim(s.kernel, Claims(s), pkg, loop, k);
      AttachKeeps(t, pkg, loop);
    }
  }

  lemma RunKeeps(s: State, pkg: string, env: MountEnv)
    requires Safe(s) && Plausible(s.kernel, env)
    ensures Kept(s, Run(s, pkg, env).0, CleanRun(s, pkg, env))
  {
    if FindInstance(s.instances, pkg) >= 0 {
      RunningKeeps(s, pkg, env);
    } else if FindLimbo(s.purgatory, pkg) >= 0 {
      ReviveKeeps(s, pkg, env);
    } else if pkg in s.registered {
      MountKeeps(s, pkg, env);
    }
  }

  /** The claims leave no choice about the mounts they describe completely. */
  lemma CompleteIsUnique(k: Kernel, k': Kernel, claims: set<Claim>)
    requires Sound(k, claims) && Complete(k, claims) && Sound(k', claims) && Complete(k', claims)
    requires k'.unions == k.unions
    ensures SameMounts(k, k')
  {
    forall p
      ensures Layers(k', p) == Layers(k, p)
    {
      if Claimed(claims, p) {
        var c :| c in claims && c.pkg == p;
        assert Layers(k', c.pkg) == OwnLayers(c) == Layers(k, c.pkg);
      }
    }
    forall loop
      ensures loop in k'.loops <==> loop in k.loops
    {
      assert loop in k'.loops <==> LoopClaimed(claims, loop);
      assert loop in k.loops <==> LoopClaimed(claims, loop);
    }
  }

  /** Running a package loses track of something exactly when it mounts the package, the mount
      fails, and the failure is not undone. */
  lemma RunLeaksIff(s: State, pkg: string, env: MountEnv)
    requires Inv(s) && Plausible(s.kernel, env)
    ensures Inv(Run(s, pkg, env).0) <==> CleanRun(s, pkg, env)
  {
    RunKeeps(s, pkg, env);
    if Mounts(s, pkg) && MountResult(env, pkg) < 0 && Inv(Run(s, pkg, env).0) {
      var (ret, k) := Mount(s.kernel, pkg, env);
      MountTouchesOwn(s.kernel, pkg, env);
      MountAllOrNothingIff(s.kernel, pkg, env);
      assert Claims(s.(kernel := k)) == Claims(s);
      CompleteIsUnique(s.kernel, k, Claims(s));
    }
  }

  ghost predicate Runs(instances: seq<Instance>, pkg: string) {
    exists x :: x in instances && x.pkg == pkg
  }

  /** If another run id runs the package, removing this instance leaves it running. */
  lemma SharedStillRuns(instances: seq<Instance>, n: nat)
    requires n < |instances| && Shared(instances, instances[n].pkg, instances[n].runId)
    ensures Runs(Without(instances, n), instances[n].pkg)
  {
    var i :| 0 <= i < |instances| && instances[i].pkg == instances[n].pkg && instances[i].runId != instances[n].runId;
    WithoutElements(instances, n);
    assert instances[i] in Without(instances, n);
  }

  /** The instance to be stopped has a twin: another instance of the package still runs, but none
      under another run id, so the code takes it for the last one. */
  ghost predicate TwinStop(s: State, runId: int) {
    var n := FindRun(s.instances, runId);
    && n >= 0 && !Shared(s.instances, s.instances[n].pkg, runId)
    && Runs(Without(s.instances, n), s.instances[n].pkg)
  }

  lemma DistinctNoTwin(s: State, runId: int)
    requires DistinctRunIds(s.instances)
    ensures !TwinStop(s, runId)
  {
    var n := FindRun(s.instances, runId);
    if n >= 0 && Runs(Without(s.instances, n), s.instances[n].pkg) {
      var rest := Without(s.instances, n);
      var x :| x in rest && x.pkg == s.instances[n].pkg;
      var i :| 0 <= i < |rest| && rest[i] == x;
      WithoutIndex(s.instances, n);
      assert s.instances[if i < n then i else i + 1] == x;
    }
  }

  /** Stopping an instance moves no claim: either others keep it or purgatory takes it over. */
  lemma StopKeepsClaims(s: State, runId: int)
    requires Safe(s) && FindRun(s.instances, runId) >= 0
    ensures Claims(Stop(s, runId)) == Claims(s)
  {
    var n := FindRun(s.instances, runId);
    var x, t := s.instances[n], Stop(s, runId);
    var c := Claim(x.pkg, x.loop, 1);
    WithoutElements(s.instances, n);
    assert x in s.instances && c in Claims(s);
    assert c in Claims(t) by {
      if Shared(s.instances, x.pkg, runId) {
        SharedStillRuns(s.instances, n);
        var y :| y in t.instances && y.pkg == x.pkg;
        assert Claim(y.pkg, y.loop, 1) in Claims(s) && Claim(y.pkg, y.loop, 1) in Claims(t);
      } else {
        assert t.purgatory[|s.purgatory|] == Limbo(x.pkg, x.loop, 1) && t.purgatory[|s.purgatory|] in t.purgatory;
      }
    }
    SameOtherClaims(s, t, x);
  }

  lemma SameOtherClaims(s: State, t: State, x: Instance)
    requires forall y | y in t.instances :: y in s.instances
    requires forall y | y in s.instances :: y in t.instances || y == x
    requires t.purgatory == s.purgatory || t.purgatory == s.purgatory + [Limbo(x.pkg, x.loop, 1)]
    requires Claim(x.pkg, x.loop, 1) in Claims(s) && Claim(x.pkg, x.loop, 1) in Claims(t)
    ensures Claims(t) == Claims(s)
  {
    assert forall l | l in t.purgatory :: l in s.purgatory || l == Limbo(x.pkg, x.loop, 1);
    assert forall l | l in s.purgatory :: l in t.purgatory;
  }

  lemma StopTablesIff(s: State, runId: int)
    requires Safe(s) && FindRun(s.instances, runId) >= 0
    ensures LimboOnce(Stop(s, runId)) <==> !TwinStop(s, runId)
  {
    var n := FindRun(s.instances, runId);
    var x, t := s.instances[n], Stop(s, runId);
    var l := Limbo(x.pkg, x.loop, 1);
    assert x in s.instances;
    WithoutElements(s.instances, n);
    assert forall m | m in t.purgatory :: m in s.purgatory || m == l;
    if TwinStop(s, runId) {
      var y :| y in t.instances && y.pkg == x.pkg;
      assert t.purgatory[|s.purgatory|] == l && l in t.purgatory;
    } else if !Shared(s.instances, x.pkg, runId) {
      assert forall y | y in t.instances :: y.pkg != x.pkg;
    }
  }

  /** A stop is safe exactly if the instance has no twin. */
  lemma StopIsSafeIff(s: State, runId: int)
    requires Safe(s)
    ensures Safe(Stop(s, runId)) <==> !TwinStop(s, runId)
    ensures Inv(s) && !TwinStop(s, runId) ==> Inv(Stop(s, runId))
  {
    if FindRun(s.instances, runId) >= 0 {
      StopKeepsClaims(s, runId);
      StopTablesIff(s, runId);
    }
  }

  /** The entry disappears exactly when all three of its resources have been released. */
  lemma ReapKeeps(s: State, j: nat, f: Faults)
    requires Safe(s) && j < |s.purgatory|
    ensures Kept(s, Reap(s, j, f), true)
    ensures var l, t := s.purgatory[j], Reap(s, j, f);
            && (|t.purgatory| < |s.purgatory| <==>
                  t.kernel.log == s.kernel.log + Order(l.pkg, l.loop)[Stage(l.reusable)..])
            && (f == NO_FAULTS ==> |t.purgatory| < |s.purgatory|)
  {
    var l := s.purgatory[j];
    var c := Claim(l.pkg, l.loop, l.reusable);
    assert l in s.purgatory && c in Claims(s);
    TeardownKeepsTrack(s.kernel, l.pkg, l.loop, l.reusable, f);
    var (code, k) := Teardown(s.kernel, l.pkg, l.loop, l.reusable, f);
    LogTells(s.kernel.log, Order(l.pkg, l.loop), Stage(l.reusable), Stage(code));
    ChangedClaim(s.kernel, Claims(s), c, code, k);
    ReapedTable(s, j, code, k);
  }

  lemma LogTells(log: seq<Release>, o: seq<Release>, i: nat, j: nat)
    requires i <= j <= |o|
    ensures log + o[i..j] == log + o[i..] <==> j == |o|
  {
    assert |log + o[i..j]| == |log| + j - i;
    assert o[i..|o|] == o[i..];
  }

  /** The table after an entry has got a new code, or has gone. */
  lemma ReapedTable(s: State, j: nat, code: int, k: Kernel)
    requires LimboOnce(s) && j < |s.purgatory|
    ensures var l := s.purgatory[j];
            var left := if code == 0 then Without(s.purgatory, j) else s.purgatory[j := l.(reusable := code)];
            var t := s.(kernel := k, purgatory := left);
            && LimboOnce(t)
            && Claims(t) == Claims(s) - {Claim(l.pkg, l.loop, l.reusable)}
                            + if code == 0 then {} else {Claim(l.pkg, l.loop, code)}
  {
    LeavesPurgatory(s, j);
    StaysInPurgatory(s, j, code);
  }

  lemma StaysInPurgatory(s: State, j: nat, code: int)
    requires LimboOnce(s) && j < |s.purgatory|
    ensures var l := s.purgatory[j];
            var t := s.(purgatory := s.purgatory[j := l.(reusable := code)]);
            LimboOnce(t) && Claims(t) == Claims(s) - {Claim(l.pkg, l.loop, l.reusable)} + {Claim(l.pkg, l.loop, code)}
  {
    var l := s.purgatory[j];
    var t := s.(purgatory := s.purgatory[j := l.(reusable := code)]);
    LeavesPurgatory(s, j);
    UpdateIn(s.purgatory, j, l.(reusable := code));
    UpdateOut(s.purgatory, j, l.(reusable := code));
  }

  /** An update puts the new element among those that were there without the old one. */
  lemma UpdateIn<T>(s: seq<T>, j: nat, x: T)
    requires j < |s|
    ensures x in s[j := x] && forall m | m in Without(s, j) :: m in s[j := x]
  {
    var t, u := s[j := x], Without(s, j);
    assert t[j] == x;
    forall m | m in u
      ensures m in t
    {
      var i :| 0 <= i < |u| && u[i] == m;
      assert t[if i < j then i else i + 1] == m;
    }
  }

  lemma UpdateOut<T>(s: seq<T>, j: nat, x: T)
    requires j < |s|
    ensures forall m | m in s[j := x] :: m in Without(s, j) || m == x
  {
    var t, u := s[j := x], Without(s, j);
    forall m | m in t
      ensures m in u || m == x
    {
      var i :| 0 <= i < |t| && t[i] == m;
      assert i < j ==> u[i] == m;
      assert i > j ==> u[i - 1] == m;
    }
  }

  lemma {:induction false} CheckKeeps(s: State, j: nat, faults: string -> Faults)
    requires Safe(s) && j <= |s.purgatory|
    ensures Kept(s, ReapFrom(s, j, faults), true)
    decreases |s.purgatory| - j
  {
    if j < |s.purgatory| {
      var f := faults(s.purgatory[j].pkg);
      ReapKeeps(s, j, f);
      var t := Reap(s, j, f);
      assert |s.purgatory| - 1 <= |t.purgatory| <= |s.purgatory|;
      CheckKeeps(t, if |t.purgatory| < |s.purgatory| then j else j + 1, faults);
    }
  }

  // ---- All runs ----

  /** One atomic step: a public operation, or the registry gaining or losing a package. */
  datatype Event =
    | Start(pkg: string, env: MountEnv)
    | End(runId: int)
    | Check(faults: string -> Faults)
    | Registers(pkg: string)
    | Releases(pkg: string)

  ghost function Apply(s: State, e: Event): State {
    match e
    case Start(pkg, env) => Run(s, pkg, env).0
    case End(runId) => Stop(s, runId)
    case Check(faults) => ReapFrom(s, 0, faults)
    case Registers(pkg) => s.(registered := s.registered + {pkg})
    case Releases(pkg) => s.(registered := s.registered - {pkg})
  }

  ghost function Exec(s: State, es: seq<Event>): State
    decreases |es|
  {
    if es == [] then s else Exec(Apply(s, es[0]), es[1..])
  }

  ghost predicate AllPlausible(s: State, es: seq<Event>)
    decreases |es|
  {
    es == [] || ((es[0].Start? ==> Plausible(s.kernel, es[0].env)) && AllPlausible(Apply(s, es[0]), es[1..]))
  }

  predicate CleanStep(s: State, e: Event) {
    e.Start? ==> CleanRun(s, e.pkg, e.env)
  }

  /** Every failed mount of the run was undone. */
  ghost predicate AllClean(s: State, es: seq<Event>)
    decreases |es|
  {
    es == [] || (CleanStep(s, es[0]) && AllClean(Apply(s, es[0]), es[1..]))
  }

  /** The daemon starts with empty tables on a system where nothing of its own is mounted. */
  ghost predicate Initial(s: State) {
    && s.instances == [] && s.purgatory == [] && s.runCnt == 0
    && s.kernel.unions == {} && s.kernel.images == map[] && s.kernel.loops == {}
  }

  ghost predicate StopsTwin(s: State, e: Event) {
    e.End? && TwinStop(s, e.runId)
  }

  /** No step stops an instance that has a twin. */
  ghost predicate NeverStopsTwin(s: State, es: seq<Event>)
    decreases |es|
  {
    es == [] || (!StopsTwin(s, es[0]) && NeverStopsTwin(Apply(s, es[0]), es[1..]))
  }

  ghost predicate AlwaysSafe(s: State, es: seq<Event>)
    decreases |es|
  {
    Safe(s) && (es != [] ==> AlwaysSafe(Apply(s, es[0]), es[1..]))
  }

  lemma ApplyKeeps(s: State, e: Event)
    requires Safe(s) && (e.Start? ==> Plausible(s.kernel, e.env)) && !StopsTwin(s, e)
    ensures Kept(s, Apply(s, e), CleanStep(s, e))
  {
    match e {
      case Start(pkg, env) => RunKeeps(s, pkg, env);
      case End(runId) => StopIsSafeIff(s, runId);
      case Check(faults) => CheckKeeps(s, 0, faults);
      case Registers(pkg) => assert Claims(Apply(s, e)) == Claims(s);
      case Releases(pkg) => assert Claims(Apply(s, e)) == Claims(s);
    }
  }

  lemma {:induction false} ExecKeeps(s: State, es: seq<Event>)
    requires Safe(s) && AllPlausible(s, es) && NeverStopsTwin(s, es)
    ensures Kept(s, Exec(s, es), AllClean(s, es))
    decreases |es|
  {
    if es != [] {
      ApplyKeeps(s, es[0]);
      ExecKeeps(Apply(s, es[0]), es[1..]);
    }
  }

  /** Whatever the system refuses and whatever the run counter does, a run stays safe all along
      exactly if it never stops an instance that has a twin. */
  lemma {:induction false} RunIsSafeIff(s: State, es: seq<Event>)
    requires Safe(s) && AllPlausible(s, es)
    ensures AlwaysSafe(s, es) <==> NeverStopsTwin(s, es)
    decreases |es|
  {
    if es != [] {
      if StopsTwin(s, es[0]) {
        StopIsSafeIff(s, es[0].runId);
        assert !AlwaysSafe(Apply(s, es[0]), es[1..]);
      } else {
        ApplyKeeps(s, es[0]);
        RunIsSafeIff(Apply(s, es[0]), es[1..]);
      }
    }
  }

  /** In every state that is reached without stopping an instance that has a twin, whatever the
      system has refused and left behind: every running package has its union, its image on top of
      all that is mounted in its place, and its device; a package has one loop and a loop one package;
      and a package that is in purgatory is there once, does not run, and holds what its code says. */
  lemma SafeInEveryRun(s0: State, es: seq<Event>)
    requires Initial(s0) && AllPlausible(s0, es) && NeverStopsTwin(s0, es)
    ensures var s := Exec(s0, es);
            && (forall x | x in s.instances :: Holding(s.kernel, x.pkg, x.loop, 1))
            && (forall x, y | x in s.instances && y in s.instances :: x.pkg == y.pkg <==> x.loop == y.loop)
            && (forall x, l | x in s.instances && l in s.purgatory :: x.pkg != l.pkg && x.loop != l.loop)
            && (forall i, j :: 0 <= i < j < |s.purgatory| ==>
                  s.purgatory[i].pkg != s.purgatory[j].pkg && s.purgatory[i].loop != s.purgatory[j].loop)
            && (forall l | l in s.purgatory :: IsCode(l.reusable) && Holding(s.kernel, l.pkg, l.loop, l.reusable))
  {
    ExecKeeps(s0, es);
    var s := Exec(s0, es);
    assert forall x | x in s.instances :: Claim(x.pkg, x.loop, 1) in Claims(s);
    assert forall l | l in s.purgatory :: Claim(l.pkg, l.loop, l.reusable) in Claims(s);
    forall i, j | 0 <= i < j < |s.purgatory|
      ensures s.purgatory[i].pkg != s.purgatory[j].pkg && s.purgatory[i].loop != s.purgatory[j].loop
    {
      assert s.purgatory[i] in s.purgatory && s.purgatory[j] in s.purgatory;
    }
  }

  /** If every failed mount was undone, then in every reachable state whatever is mounted or attached
      belongs to some package that runs or is in purgatory, and what the code of a package says it
      holds is all there is. */
  lemma NothingLeaksInAnyRun(s0: State, es: seq<Event>)
    requires Initial(s0) && AllPlausible(s0, es) && NeverStopsTwin(s0, es) && AllClean(s0, es)
    ensures var s := Exec(s0, es);
            && (forall pkg | pkg in s.kernel.unions || Layers(s.kernel, pkg) != [] :: InUse(s, pkg))
            && (forall loop | loop in s.kernel.loops :: LoopInUse(s, loop))
            && (forall x | x in s.instances :: Layers(s.kernel, x.pkg) == [x.loop])
            && (forall l | l in s.purgatory ::
                  Layers(s.kernel, l.pkg) == if HasImage(l.reusable) then [l.loop] else [])
  {
    ExecKeeps(s0, es);
    var s := Exec(s0, es);
    assert Complete(s.kernel, Claims(s));
    assert forall x | x in s.instances :: Claim(x.pkg, x.loop, 1) in Claims(s);
    assert forall l | l in s.purgatory :: Claim(l.pkg, l.loop, l.reusable) in Claims(s);
    forall pkg | pkg in s.kernel.unions || Layers(s.kernel, pkg) != []
      ensures InUse(s, pkg)
    {
      assert Claimed(Claims(s), pkg);
    }
    forall loop | loop in s.kernel.loops
      ensures LoopInUse(s, loop)
    {
      assert LoopClaimed(Claims(s), loop);
    }
  }

  ghost predicate InUse(s: State, pkg: string) {
    (exists x :: x in s.instances && x.pkg == pkg) || (exists l :: l in s.purgatory && l.pkg == pkg)
  }

  ghost predicate LoopInUse(s: State, loop: int) {
    (exists x :: x in s.instances && x.loop == loop) || (exists l :: l in s.purgatory && l.loop == loop)
  }

  /** A run id that package_run gives out is that of a new last instance of a package that is
      mounted completely, and a stop finds that instance by it exactly if nobody else has the id. */
  lemma RunIdNamesMountedPackage(s: State, pkg: string, env: MountEnv)
    requires Safe(s) && Plausible(s.kernel, env) && Run(s, pkg, env).1 >= 0
    ensures var (t, id) := Run(s, pkg, env);
            var n := |s.instances|;
            && |t.instances| == n + 1 && t.instances[..n] == s.instances
            && t.instances[n].pkg == pkg && t.instances[n].runId == id
            && Holding(t.kernel, pkg, t.instances[n].loop, 1)
            && (FindRun(t.instances, id) == n <==> FindRun(s.instances, id) < 0)
  {
    RunKeeps(s, pkg, env);
    RunAppends(s, pkg, env);
    var (t, id) := Run(s, pkg, env);
    var x := t.instances[|s.instances|];
    assert x in t.instances && Claim(x.pkg, x.loop, 1) in Claims(t);
    assert forall i :: 0 <= i < |s.instances| ==> t.instances[i] == s.instances[i];
  }

  /** Which runs are refused without asking the system, and that they change nothing: a package of
      which only part is still mounted, and one that is not registered, mounted or running. */
  lemma RunRefusedIff(s: State, pkg: string, env: MountEnv)
    requires Safe(s) && s.runCnt >= 0
    ensures var (t, ret) := Run(s, pkg, env);
            && (ret == -1023 <==> exists l :: l in s.purgatory && l.pkg == pkg && l.reusable != 1)
            && (ret == -1007 <==> pkg !in s.registered && !InUse(s, pkg))
            && (ret == -1023 || ret == -1007 ==> t == s)
  {
    var i, j := FindInstance(s.instances, pkg), FindLimbo(s.purgatory, pkg);
    if i >= 0 {
      assert s.instances[i] in s.instances;
    } else if j >= 0 {
      var l := s.purgatory[j];
      assert l in s.purgatory && Claim(l.pkg, l.loop, l.reusable) in Claims(s);
      forall m | m in s.purgatory && m.pkg == pkg
        ensures m == l
      {
        assert Claim(m.pkg, m.loop, m.reusable) in Claims(s);
      }
    }
  }

  lemma RunAppends(s: State, pkg: string, env: MountEnv)
    requires Run(s, pkg, env).1 >= 0
    ensures var (t, id) := Run(s, pkg, env);
            && id == s.runCnt && |t.instances| == |s.instances| + 1 && t.instances[..|s.instances|] == s.instances
            && t.instances[|s.instances|].pkg == pkg && t.instances[|s.instances|].runId == id
  {
  }

  /** What a run that has to mount a registered package reports: the first of the things that can
      fail, by the number that its callers know, or a run id. */
  lemma RunReportsFirstFailure(s: State, pkg: string, env: MountEnv)
    requires s.runCnt >= 0 && pkg in s.registered && !InUse(s, pkg)
    ensures var (t, ret) := Run(s, pkg, env);
            var device := |env.user| <= 63 && env.free >= 0;
            var attached := device && env.setup != NoAccess && env.setup != SetFailed;
            && (ret == -1001 <==> |env.user| > 63)
            && (ret == -1002 <==> |env.user| <= 63 && env.free < 0)
            && (ret == -1005 <==> device && env.setup == NoAccess)
            && (ret == -1004 <==> device && env.setup == SetFailed)
            && (ret == -1008 <==> attached && !env.imageOk)
            && (ret == -1009 <==> attached && env.imageOk && !LegalNames(env, pkg))
            && (ret == -1010 <==> attached && env.imageOk && LegalNames(env, pkg) && !env.unionOk)
            && (ret >= 0 <==> attached && env.imageOk && LegalNames(env, pkg) && env.unionOk)
            && (ret < 0 ==> t == s.(kernel := t.kernel))
  {
    var i, j := FindInstance(s.instances, pkg), FindLimbo(s.purgatory, pkg);
    assert forall x | x in s.instances :: x.pkg != pkg;
    assert forall l | l in s.purgatory :: l.pkg != pkg;
    assert i < 0 && j < 0;
  }

  // ---- Last one out ----

  /** An id that nobody has changes nothing. Otherwise exactly that instance goes, and its package
      enters purgatory, complete, exactly when no instance of it is left, unless it had a twin. */
  lemma StopMovesLastInstance(s: State, runId: int)
    ensures var t := Stop(s, runId);
            var n := FindRun(s.instances, runId);
            if n < 0 then t == s
            else
              var last := !Runs(t.instances, s.instances[n].pkg);
              var limbo := [Limbo(s.instances[n].pkg, s.instances[n].loop, 1)];
              && t.instances == s.instances[..n] + s.instances[n + 1..] && t.kernel == s.kernel
              && (t.purgatory == s.purgatory + (if last then limbo else []) <==> !TwinStop(s, runId))
  {
    var n := FindRun(s.instances, runId);
    if n >= 0 {
      assert s.purgatory + [] == s.purgatory;
      if Shared(s.instances, s.instances[n].pkg, runId) {
        SharedStillRuns(s.instances, n);
      }
      var added := if Shared(s.instances, s.instances[n].pkg, runId) then 0 else 1;
      assert |Stop(s, runId).purgatory| == |s.purgatory| + added;
    }
  }

  /** Running a package right after its last instance has stopped takes the whole stop back: the
      mount is used again, the system is not touched, and only the run id is new. */
  lemma RunTakesStopBack(s: State, runId: int, env: MountEnv)
    requires Safe(s) && FindRun(s.instances, runId) >= 0
    requires var n := FindRun(s.instances, runId); !Runs(Without(s.instances, n), s.instances[n].pkg)
    ensures var n := FindRun(s.instances, runId);
            var x := s.instances[n];
            var (t, id) := Run(Stop(s, runId), x.pkg, env);
            && id == s.runCnt && t.kernel == s.kernel && t.purgatory == s.purgatory
            && t.instances == Without(s.instances, n) + [Instance(x.pkg, id, x.loop)]
  {
    var n := FindRun(s.instances, runId);
    var x := s.instances[n];
    var t := Stop(s, runId);
    if Shared(s.instances, x.pkg, runId) {
      SharedStillRuns(s.instances, n);
    }
    assert t.purgatory == s.purgatory + [Limbo(x.pkg, x.loop, 1)];
    assert FindInstance(t.instances, x.pkg) < 0;
    assert x in s.instances;
    assert FindLimbo(t.purgatory, x.pkg) == |s.purgatory| by {
      assert t.purgatory[|s.purgatory|].pkg == x.pkg;
      assert forall j :: 0 <= j < |s.purgatory| ==> t.purgatory[j] == s.purgatory[j] && s.purgatory[j] in s.purgatory;
    }
    assert Without(t.purgatory, |s.purgatory|) == s.purgatory;
  }

  /** A new run id is a new one exactly when no living instance still has the counter's value. */
  lemma RunIdsStayDistinctIff(s: State, pkg: string, env: MountEnv)
    requires DistinctRunIds(s.instances) && s.runCnt >= 0 && Run(s, pkg, env).1 >= 0
    ensures DistinctRunIds(Run(s, pkg, env).0.instances) <==> FindRun(s.instances, s.runCnt) < 0
  {
    var t := Run(s, pkg, env).0;
    var n := FindRun(s.instances, s.runCnt);
    RunAppends(s, pkg, env);
    assert forall i :: 0 <= i < |s.instances| ==> t.instances[i] == t.instances[..|s.instances|][i];
    if n >= 0 {
      assert t.instances[n].runId == t.instances[|s.instances|].runId;
    }
  }

  /** The counter is ahead of all living instances. */
  ghost predicate RunIdsBelow(s: State) {
    0 <= s.runCnt <= INT_MAX && forall x | x in s.instances :: 0 <= x.runId < s.runCnt
  }

  /** The counter has room at every start of the run. */
  ghost predicate NeverWraps(s: State, es: seq<Event>)
    decreases |es|
  {
    es == [] || ((es[0].Start? ==> s.runCnt < INT_MAX) && NeverWraps(Apply(s, es[0]), es[1..]))
  }

  /** The run gives out a number that a living instance still has. */
  ghost predicate ReusesId(s: State, e: Event) {
    e.Start? && Run(s, e.pkg, e.env).1 >= 0 && FindRun(s.instances, s.runCnt) >= 0
  }

  ghost predicate NeverReusesId(s: State, es: seq<Event>)
    decreases |es|
  {
    es == [] || (!ReusesId(s, es[0]) && NeverReusesId(Apply(s, es[0]), es[1..]))
  }

  ghost predicate AlwaysDistinct(s: State, es: seq<Event>)
    decreases |es|
  {
    DistinctRunIds(s.instances) && (es != [] ==> AlwaysDistinct(Apply(s, es[0]), es[1..]))
  }

  lemma DistinctAfterIff(s: State, e: Event)
    requires DistinctRunIds(s.instances) && s.runCnt >= 0
    ensures Apply(s, e).runCnt >= 0 && (DistinctRunIds(Apply(s, e).instances) <==> !ReusesId(s, e))
  {
    match e {
      case Start(pkg, env) =>
        if Run(s, pkg, env).1 >= 0 {
          RunAppendsOne(s, pkg, env);
          RunIdsStayDistinctIff(s, pkg, env);
        } else {
          RefusedAppendsNothing(s, pkg, env);
        }
      case End(runId) =>
        var n := FindRun(s.instances, runId);
        if n >= 0 {
          WithoutIndex(s.instances, n);
        }
      case Check(faults) => CheckKeepsInstances(s, 0, faults);
      case Registers(pkg) =>
      case Releases(pkg) =>
    }
  }

  /** Live run ids stay distinct all along exactly if no start finds its number in use. */
  lemma {:induction false} RunIdsAlwaysDistinctIff(s: State, es: seq<Event>)
    requires DistinctRunIds(s.instances) && s.runCnt >= 0
    ensures AlwaysDistinct(s, es) <==> NeverReusesId(s, es)
    decreases |es|
  {
    if es != [] {
      DistinctAfterIff(s, es[0]);
      if ReusesId(s, es[0]) {
        assert !AlwaysDistinct(Apply(s, es[0]), es[1..]);
      } else {
        RunIdsAlwaysDistinctIff(Apply(s, es[0]), es[1..]);
      }
    }
  }

  lemma {:induction false} CheckKeepsInstances(s: State, j: nat, faults: string -> Faults)
    requires j <= |s.purgatory|
    ensures ReapFrom(s, j, faults).instances == s.instances && ReapFrom(s, j, faults).runCnt == s.runCnt
    decreases |s.purgatory| - j
  {
    if j < |s.purgatory| {
      var t := Reap(s, j, faults(s.purgatory[j].pkg));
      CheckKeepsInstances(t, if |t.purgatory| < |s.purgatory| then j else j + 1, faults);
    }
  }

  lemma BelowStep(s: State, e: Event)
    requires RunIdsBelow(s) && DistinctRunIds(s.instances) && (e.Start? ==> s.runCnt < INT_MAX)
    ensures var t := Apply(s, e); RunIdsBelow(t) && DistinctRunIds(t.instances)
  {
    match e {
      case Start(pkg, env) => BelowStart(s, pkg, env);
      case End(runId) =>
        var n := FindRun(s.instances, runId);
        if n >= 0 {
          WithoutElements(s.instances, n);
          WithoutIndex(s.instances, n);
        }
      case Check(faults) => CheckKeepsInstances(s, 0, faults);
      case Registers(pkg) =>
      case Releases(pkg) =>
    }
  }

  lemma BelowStart(s: State, pkg: string, env: MountEnv)
    requires RunIdsBelow(s) && DistinctRunIds(s.instances) && s.runCnt < INT_MAX
    ensures var t := Run(s, pkg, env).0; RunIdsBelow(t) && DistinctRunIds(t.instances)
  {
    if Run(s, pkg, env).1 >= 0 {
      RunIdsStayDistinctIff(s, pkg, env);
      RunAppendsOne(s, pkg, env);
    } else {
      RefusedAppendsNothing(s, pkg, env);
    }
  }

  lemma RunAppendsOne(s: State, pkg: string, env: MountEnv)
    requires Run(s, pkg, env).1 >= 0
    ensures var t := Run(s, pkg, env).0;
            && (forall x | x in t.instances :: x in s.instances || x.runId == s.runCnt)
            && t.runCnt == if s.runCnt >= 2147483647 then 0 else s.runCnt + 1
  {
    RunAppends(s, pkg, env);
    var t := Run(s, pkg, env).0;
    forall x | x in t.instances
      ensures x in s.instances || x.runId == s.runCnt
    {
      var i :| 0 <= i < |t.instances| && t.instances[i] == x;
      assert i < |s.instances| ==> t.instances[..|s.instances|][i] == x;
    }
  }

  lemma RefusedAppendsNothing(s: State, pkg: string, env: MountEnv)
    requires Run(s, pkg, env).1 < 0 && s.runCnt >= 0
    ensures var t := Run(s, pkg, env).0; t.instances == s.instances && t.runCnt == s.runCnt
  {
  }

  /** Until the counter wraps, run ids are distinct and below it, whatever else happens: no start
      ever finds its number taken. */
  lemma {:induction false} RunIdsBelowUntilWrap(s: State, es: seq<Event>)
    requires RunIdsBelow(s) && DistinctRunIds(s.instances) && NeverWraps(s, es)
    ensures var t := Exec(s, es);
            RunIdsBelow(t) && DistinctRunIds(t.instances) && FindRun(t.instances, t.runCnt) < 0
    decreases |es|
  {
    if es != [] {
      BelowStep(s, es[0]);
      RunIdsBelowUntilWrap(Apply(s, es[0]), es[1..]);
    }
  }

  /** Once the counter has wrapped, ids repeat: a package that has run since the beginning shares
      its id with the next but one that is started. */
  lemma WrappedCounterRepeatsIds(s: State, pkg: string, env: MountEnv)
    requires s.runCnt == 2147483647 && s.instances != [] && s.instances[0].runId == 0 && s.instances[0].pkg == pkg
    ensures var t := Run(Run(s, pkg, env).0, pkg, env).0;
            !DistinctRunIds(t.instances)
  {
    var t := Run(Run(s, pkg, env).0, pkg, env).0;
    assert t.instances[0].runId == 0 && t.instances[|s.instances| + 1].runId == 0;
  }

  // ---- Purgatory drains ----

  /** A check during which the system refuses nothing dismantles everything in purgatory. */
  lemma {:induction false} FaultFreeCheckDrains(s: State, faults: string -> Faults)
    requires Safe(s) && forall pkg :: faults(pkg) == NO_FAULTS
    ensures ReapFrom(s, 0, faults).purgatory == []
    decreases |s.purgatory|
  {
    if s.purgatory != [] {
      ReapKeeps(s, 0, NO_FAULTS);
      FaultFreeCheckDrains(Reap(s, 0, NO_FAULTS), faults);
    }
  }

  // ---- What stopping a twin does ----

  lemma {:induction false} CheckIgnoresInstances(s: State, j: nat, faults: string -> Faults, instances: seq<Instance>)
    requires j <= |s.purgatory|
    ensures ReapFrom(s.(instances := instances), j, faults) == ReapFrom(s, j, faults).(instances := instances)
    decreases |s.purgatory| - j
  {
    if j < |s.purgatory| {
      var t := Reap(s, j, faults(s.purgatory[j].pkg));
      CheckIgnoresInstances(t, if |t.purgatory| < |s.purgatory| then j else j + 1, faults, instances);
    }
  }

  /** The instances of other packages. */
  function Others(instances: seq<Instance>, pkg: string): (r: seq<Instance>)
    ensures forall x :: x in r <==> x in instances && x.pkg != pkg
  {
    if instances == [] then []
    else (if instances[0].pkg == pkg then [] else [instances[0]]) + Others(instances[1..], pkg)
  }

  /** In any safe state, stopping an instance that has a twin and then checking the purgatory, with
      a system that refuses nothing, leaves the twin running without its union. */
  lemma TwinStopUnmountsTwin(s: State, runId: int, faults: string -> Faults)
    requires Safe(s) && TwinStop(s, runId) && forall pkg :: faults(pkg) == NO_FAULTS
    ensures var pkg := s.instances[FindRun(s.instances, runId)].pkg;
            var t := ReapFrom(Stop(s, runId), 0, faults);
            Runs(t.instances, pkg) && pkg !in t.kernel.unions
  {
    var n := FindRun(s.instances, runId);
    var x, stopped := s.instances[n], Stop(s, runId);
    var without := stopped.(instances := Others(stopped.instances, x.pkg));
    WithoutTwinIsSafe(s, runId, without);
    NobodysUnionGoes(without, x.pkg, faults);
    CheckKeepsInstances(stopped, 0, faults);
    CheckIgnoresInstances(stopped, 0, faults, without.instances);
  }

  /** A check without faults leaves no union to a package that does not run. */
  lemma NobodysUnionGoes(s: State, pkg: string, faults: string -> Faults)
    requires Safe(s) && !Runs(s.instances, pkg) && forall p :: faults(p) == NO_FAULTS
    ensures pkg !in ReapFrom(s, 0, faults).kernel.unions
  {
    FaultFreeCheckDrains(s, faults);
    CheckKeeps(s, 0, faults);
    CheckKeepsInstances(s, 0, faults);
    assert forall c | c in Claims(ReapFrom(s, 0, faults)) :: c.pkg != pkg;
  }

  lemma WithoutTwinIsSafe(s: State, runId: int, without: State)
    requires Safe(s) && TwinStop(s, runId)
    requires var pkg := s.instances[FindRun(s.instances, runId)].pkg;
             without == Stop(s, runId).(instances := Others(Stop(s, runId).instances, pkg))
    ensures Safe(without)
  {
    WithoutTwinClaims(s, runId, without);
    WithoutTwinLimbo(s, runId, without);
  }

  lemma WithoutTwinLimbo(s: State, runId: int, without: State)
    requires Safe(s) && TwinStop(s, runId)
    requires var pkg := s.instances[FindRun(s.instances, runId)].pkg;
             without == Stop(s, runId).(instances := Others(Stop(s, runId).instances, pkg))
    ensures LimboOnce(without)
  {
    var n := FindRun(s.instances, runId);
    assert s.instances[n] in s.instances;
    WithoutElements(s.instances, n);
  }

  lemma WithoutTwinClaims(s: State, runId: int, without: State)
    requires Safe(s) && TwinStop(s, runId)
    requires var pkg := s.instances[FindRun(s.instances, runId)].pkg;
             without == Stop(s, runId).(instances := Others(Stop(s, runId).instances, pkg))
    ensures Claims(without) == Claims(s)
  {
    var n := FindRun(s.instances, runId);
    var x, t := s.instances[n], Stop(s, runId);
    var l := Limbo(x.pkg, x.loop, 1);
    StopKeepsClaims(s, runId);
    WithoutElements(s.instances, n);
    assert t.purgatory[|s.purgatory|] == l && l in t.purgatory;
    assert forall m | m in t.purgatory :: m in s.purgatory || m == l;
    assert x in s.instances;
    forall c
      ensures c in Claims(without) <==> c in Claims(s)
    {
      if y :| y in t.instances && c == Claim(y.pkg, y.loop, 1) {
        if y.pkg == x.pkg {
          assert c in Claims(s) && Claim(x.pkg, x.loop, 1) in Claims(s);
        } else {
          assert y in without.instances;
        }
      }
    }
    assert Claims(without) == Claims(s);
  }

  /** Such a state comes about when the counter wraps: a package that has run since the beginning is
      run twice more and stopped once, and then two of its instances have the id 0. */
  lemma WrapMakesTwins(s: State, x: Instance, env: MountEnv)
    requires s.runCnt == INT_MAX && s.instances == [x] && x.runId == 0
    ensures var t := Stop(Run(Run(s, x.pkg, env).0, x.pkg, env).0, INT_MAX);
            && t.instances == [x, x] && t.kernel == s.kernel && t.purgatory == s.purgatory && TwinStop(t, 0)
  {
    var y := Instance(x.pkg, INT_MAX, x.loop);
    RunShares(s, x, env);
    var s1 := Run(s, x.pkg, env).0;
    assert s1.instances == [x, y] && s1.runCnt == 0;
    RunShares(s1, x, env);
    TwinsWithout(Run(s1, x.pkg, env).0, x, y);
  }

  lemma RunShares(s: State, x: Instance, env: MountEnv)
    requires s.instances != [] && s.instances[0] == x
    ensures Run(s, x.pkg, env).0 == WithInstance(s, x.pkg, x.loop)
  {
    assert FindInstance(s.instances, x.pkg) == 0;
  }

  lemma TwinsWithout(s: State, x: Instance, y: Instance)
    requires s.instances == [x, y, x] && x.pkg == y.pkg && x.runId == 0 && y.runId == INT_MAX
    ensures var t := Stop(s, INT_MAX);
            t.instances == [x, x] && t.kernel == s.kernel && t.purgatory == s.purgatory && TwinStop(t, 0)
  {
    var t := Stop(s, INT_MAX);
    assert s.instances[0].runId == 0 && s.instances[1].runId == INT_MAX;
    assert FindRun(s.instances, INT_MAX) == 1;
    assert Shared(s.instances, x.pkg, INT_MAX);
    assert t.instances == [x, x];
    assert FindRun(t.instances, 0) == 0;
    assert Without(t.instances, 0)[0] == x;
  }

  /** Until the counter wraps no instance has a twin. */
  lemma {:induction false} NoTwinsUntilWrap(s: State, es: seq<Event>)
    requires RunIdsBelow(s) && DistinctRunIds(s.instances) && NeverWraps(s, es)
    ensures NeverStopsTwin(s, es)
    decreases |es|
  {
    if es != [] {
      if es[0].End? {
        DistinctNoTwin(s, es[0].runId);
      }
      BelowStep(s, es[0]);
      NoTwinsUntilWrap(Apply(s, es[0]), es[1..]);
    }
  }

  /** A restart that loses the purgatory but keeps the instances leaves a union without an owner
      exactly when a package in purgatory still had one, and leaves anything without an owner
      exactly when there was something in purgatory. */
  lemma RestartIsCleanIff(s: State)
    requires Safe(s)
    ensures Safe(s.(purgatory := [])) <==> forall l | l in s.purgatory :: l.reusable != 1
    ensures Inv(s) ==> (Inv(s.(purgatory := [])) <==> s.purgatory == [])
  {
    var t := s.(purgatory := []);
    assert forall c | c in Claims(t) :: c in Claims(s);
    forall l | l in s.purgatory
      ensures Claim(l.pkg, l.loop, l.reusable) in Claims(s)
      ensures !Claimed(Claims(t), l.pkg) && !LoopClaimed(Claims(t), l.loop) && l.loop in s.kernel.loops
    {
      Unclaimed(s, l);
    }
    if forall l | l in s.purgatory :: l.reusable != 1 {
      UnionsStayClaimed(s);
    }
    if s.purgatory != [] {
      assert s.purgatory[0] in s.purgatory;
    }
  }

  lemma Unclaimed(s: State, l: Limbo)
    requires Safe(s) && l in s.purgatory
    ensures Claim(l.pkg, l.loop, l.reusable) in Claims(s) && l.loop in s.kernel.loops
    ensures !Claimed(Claims(s.(purgatory := [])), l.pkg) && !LoopClaimed(Claims(s.(purgatory := [])), l.loop)
  {
    assert Claim(l.pkg, l.loop, l.reusable) in Claims(s);
    forall x | x in s.instances
      ensures x.loop != l.loop && x.pkg != l.pkg
    {
      assert Claim(x.pkg, x.loop, 1) in Claims(s);
    }
  }

  lemma UnionsStayClaimed(s: State)
    requires Safe(s) && forall l | l in s.purgatory :: l.reusable != 1
    ensures Safe(s.(purgatory := []))
  {
    var t := s.(purgatory := []);
    forall pkg | pkg in t.kernel.unions
      ensures Claimed(Claims(t), pkg)
    {
      var c :| c in Claims(s) && c.pkg == pkg;
      assert Holding(s.kernel, c.pkg, c.loop, c.code) && c.code == 1;
      assert c in Claims(t);
    }
  }
}
