/** Mounting and dismantling a package image: libdbpbase/loop.c. A running package holds a union
    mount and an image mount, both named by its id, and an attached loop device. */
module LoopDevice {
  import Sequences

  /** What the releases have achieved, in the order in which they happened. */
  datatype Release = UnionGone(id: string) | ImageGone(id: string, loop: int) | LoopGone(loop: int)

  /** The part of the operating system's state that the daemon changes: the mounted unions, the
      mounted images by the loop device behind each, the attached loop devices, and the history of
      successful releases. Images that are mounted in the same place lie on top of each other,
      the topmost one first. */
  datatype Kernel = Kernel(unions: set<string>, images: map<string, seq<int>>, loops: set<int>,
                           log: seq<Release>)

  /** The images that are mounted for a package. */
  function Layers(k: Kernel, id: string): seq<int> {
    if id in k.images then k.images[id] else []
  }

  function WithLayers(k: Kernel, id: string, layers: seq<int>): Kernel {
    k.(images := if layers == [] then k.images - {id} else k.images[id := layers])
  }

  /** Whether the system lets each of the three releases of one teardown succeed. */
  datatype Faults = Faults(unionOk: bool, imageOk: bool, resetOk: bool)

  const NO_FAULTS := Faults(true, true, true)

  // Nothing that is not there can be released.

  function UmountUnion(k: Kernel, id: string, ok: bool): (bool, Kernel) {
    if ok && id in k.unions then (true, k.(unions := k.unions - {id}, log := k.log + [UnionGone(id)]))
    else (false, k)
  }

  /** Takes off the topmost image. */
  function UmountImage(k: Kernel, id: string, ok: bool): (bool, Kernel) {
    var layers := Layers(k, id);
    if ok && layers != [] then
      (true, WithLayers(k, id, layers[1..]).(log := k.log + [ImageGone(id, layers[0])]))
    else (false, k)
  }

  function ResetLoop(k: Kernel, loop: int, ok: bool): (bool, Kernel) {
    if ok && loop in k.loops then (true, k.(loops := k.loops - {loop}, log := k.log + [LoopGone(loop)]))
    else (false, k)
  }

  // ---- Teardown ----

  function TeardownLoop(k: Kernel, loop: int, f: Faults): (int, Kernel) {
    var (ok, k') := ResetLoop(k, loop, f.resetOk);
    if ok then (0, k') else (-3, k)
  }

  function TeardownImage(k: Kernel, id: string, loop: int, f: Faults): (int, Kernel) {
    var (ok, k') := UmountImage(k, id, f.imageOk);
    if ok then TeardownLoop(k', loop, f) else (-2, k)
  }

  /** The new code and the new kernel state; code 0 says that everything is gone. */
  function Teardown(k: Kernel, id: string, loop: int, prev: int, f: Faults): (int, Kernel) {
    if prev < -2 then TeardownLoop(k, loop, f)
    else if prev < -1 then TeardownImage(k, id, loop, f)
    else
      var (ok, k') := UmountUnion(k, id, f.unionOk);
      if ok then TeardownImage(k', id, loop, f) else (if prev < 0 then prev else 1, k)
  }

  /** dbp_loop_umount */
  method LoopUmount(k0: Kernel, id: string, loop: int, prev: int, f: Faults) returns (code: int, k: Kernel)
    ensures (code, k) == Teardown(k0, id, loop, prev, f)
  {
    k := k0;
    var state := prev;
    if prev >= -1 {
      state := if prev < 0 then prev else 1;
      var union := UmountUnion(k, id, f.unionOk);
      k := union.1;
      if !union.0 {
        return state, k;
      }
    }
    if state >= -2 {
      state := -2;
      var image := UmountImage(k, id, f.imageOk);
      k := image.1;
      if !image.0 {
        return state, k;
      }
    }
    state := -3;
    var device := ResetLoop(k, loop, f.resetOk);
    return if device.0 then 0 else state, device.1;
  }

  // ---- What the code says ----

  predicate IsCode(code: int) { code == 1 || code == -2 || code == -3 }

  /** What the code promises: the union until it has been released, then the image, which lies on
      top of whatever else is mounted in its place, and the device until the end. */
  predicate Holding(k: Kernel, id: string, loop: int, code: int) {
    && (id in k.unions <==> code == 1)
    && (HasImage(code) ==> Layers(k, id) != [] && Layers(k, id)[0] == loop)
    && (loop in k.loops <==> code != 0)
  }

  predicate HasImage(code: int) { code == 1 || code == -2 }

  /** Nothing but the union and the images of `id` and the device `loop` differs. */
  ghost predicate OthersUnchanged(k: Kernel, k': Kernel, id: string, loop: int) {
    && k'.unions - {id} == k.unions - {id}
    && (forall p | p != id :: Layers(k', p) == Layers(k, p))
    && k'.loops - {loop} == k.loops - {loop}
  }

  /** How many of the three releases have been done. */
  function Stage(code: int): nat {
    if code == 1 then 0 else if code == -2 then 1 else if code == -3 then 2 else 3
  }

  function Order(id: string, loop: int): (r: seq<Release>)
    ensures |r| == 3
  {
    [UnionGone(id), ImageGone(id, loop), LoopGone(loop)]
  }

  /** How many images go between two codes: the package's own, if that stage has been passed. */
  function Taken(prev: int, code: int): nat {
    if Stage(prev) <= 1 < Stage(code) then 1 else 0
  }

  /** From one code to another nothing was released but the package's own resources, each once and
      in the fixed order: what lies below its image stays. */
  ghost predicate Released(k: Kernel, k': Kernel, id: string, loop: int, prev: int, code: int) {
    && Stage(prev) <= Stage(code)
    && Holding(k', id, loop, code) && OthersUnchanged(k, k', id, loop)
    && Taken(prev, code) <= |Layers(k, id)| && Layers(k', id) == Layers(k, id)[Taken(prev, code)..]
    && k'.log == k.log + Order(id, loop)[Stage(prev)..Stage(code)]
  }

  lemma NothingReleased(k: Kernel, id: string, loop: int, code: int)
    requires Holding(k, id, loop, code)
    ensures Released(k, k, id, loop, code, code)
  {
    var none: seq<Release> := [];
    assert Order(id, loop)[Stage(code)..Stage(code)] == none && k.log + none == k.log;
    assert Layers(k, id)[0..] == Layers(k, id);
  }

  lemma ReleasedTransitive(k: Kernel, k': Kernel, k'': Kernel, id: string, loop: int, prev: int, code: int, last: int)
    requires Released(k, k', id, loop, prev, code) && Released(k', k'', id, loop, code, last)
    ensures Released(k, k'', id, loop, prev, last)
  {
    Joined(k.log, Order(id, loop), Stage(prev), Stage(code), Stage(last));
    Dropped(Layers(k, id), Taken(prev, code), Taken(code, last));
    OthersTransitive(k, k', k'', id, loop);
  }

  lemma Joined(log: seq<Release>, o: seq<Release>, i: nat, j: nat, l: nat)
    requires i <= j <= l <= |o|
    ensures log + o[i..j] + o[j..l] == log + o[i..l]
  {
    Sequences.Slices(o, i, j, l);
    Sequences.Assoc(log, o[i..j], o[j..l]);
  }

  lemma Dropped(layers: seq<int>, i: nat, j: nat)
    requires i <= |layers| && j <= |layers[i..]|
    ensures layers[i..][j..] == layers[i + j..]
  {
  }

  lemma OthersTransitive(k: Kernel, k': Kernel, k'': Kernel, id: string, loop: int)
    requires OthersUnchanged(k, k', id, loop) && OthersUnchanged(k', k'', id, loop)
    ensures OthersUnchanged(k, k'', id, loop)
  {
  }

  lemma UnionReleased(k: Kernel, id: string, loop: int)
    requires Holding(k, id, loop, 1)
    ensures Released(k, UmountUnion(k, id, true).1, id, loop, 1, -2)
  {
    assert Order(id, loop)[0..1] == [UnionGone(id)];
    assert Layers(k, id)[0..] == Layers(k, id);
  }

  lemma ImageReleased(k: Kernel, id: string, loop: int)
    requires Holding(k, id, loop, -2)
    ensures Released(k, UmountImage(k, id, true).1, id, loop, -2, -3)
  {
    assert Order(id, loop)[1..2] == [ImageGone(id, loop)];
  }

  lemma LoopReleased(k: Kernel, id: string, loop: int)
    requires Holding(k, id, loop, -3)
    ensures Released(k, ResetLoop(k, loop, true).1, id, loop, -3, 0)
  {
    assert Order(id, loop)[2..3] == [LoopGone(loop)];
    assert Layers(k, id)[0..] == Layers(k, id);
  }

  lemma LoopStep(k: Kernel, id: string, loop: int, f: Faults)
    requires Holding(k, id, loop, -3)
    ensures var (code, k') := TeardownLoop(k, loop, f);
            && (code == 0 || code == -3) && Released(k, k', id, loop, -3, code)
            && (f == NO_FAULTS ==> code == 0)
  {
    if f.resetOk {
      LoopReleased(k, id, loop);
    } else {
      NothingReleased(k, id, loop, -3);
    }
  }

  lemma ImageStep(k: Kernel, id: string, loop: int, f: Faults)
    requires Holding(k, id, loop, -2)
    ensures var (code, k') := TeardownImage(k, id, loop, f);
            && (code == 0 || IsCode(code)) && Released(k, k', id, loop, -2, code)
            && (f == NO_FAULTS ==> code == 0)
  {
    if f.imageOk {
      ImageReleased(k, id, loop);
      var k' := UmountImage(k, id, true).1;
      LoopStep(k', id, loop, f);
      var (code, k'') := TeardownLoop(k', loop, f);
      ReleasedTransitive(k, k', k'', id, loop, -2, -3, code);
    } else {
      NothingReleased(k, id, loop, -2);
    }
  }

  lemma UnionStep(k: Kernel, id: string, loop: int, f: Faults)
    requires Holding(k, id, loop, 1)
    ensures var (code, k') := Teardown(k, id, loop, 1, f);
            && (code == 0 || IsCode(code)) && Released(k, k', id, loop, 1, code)
            && (f == NO_FAULTS ==> code == 0)
  {
    if f.unionOk {
      UnionReleased(k, id, loop);
      var k' := UmountUnion(k, id, true).1;
      ImageStep(k', id, loop, f);
      var (code, k'') := TeardownImage(k', id, loop, f);
      ReleasedTransitive(k, k', k'', id, loop, 1, -2, code);
    } else {
      NothingReleased(k, id, loop, 1);
    }
  }

  /** One attempt, with any faults: the new code is right again, nobody else's resources are
      touched, and what was released is the next piece of the fixed order. */
  lemma TeardownKeepsTrack(k: Kernel, id: string, loop: int, prev: int, f: Faults)
    requires IsCode(prev) && Holding(k, id, loop, prev)
    ensures var (code, k') := Teardown(k, id, loop, prev, f);
            && (code == 0 || IsCode(code)) && Released(k, k', id, loop, prev, code)
            && (f == NO_FAULTS ==> code == 0)
  {
    if prev == -3 {
      LoopStep(k, id, loop, f);
    } else if prev == -2 {
      ImageStep(k, id, loop, f);
    } else {
      UnionStep(k, id, loop, f);
    }
  }

  /** Any number of attempts, each with faults of its own. */
  function Retry(k: Kernel, id: string, loop: int, prev: int, fs: seq<Faults>): (int, Kernel)
    decreases |fs|
  {
    if fs == [] || prev == 0 then (prev, k)
    else
      var (code, k') := Teardown(k, id, loop, prev, fs[0]);
      Retry(k', id, loop, code, fs[1..])
  }

  /** Over any number of attempts each release succeeds at most once, in the order union, image,
      device, and code 0 is reached exactly when all three have. */
  lemma {:induction false} RetriesReleaseOnce(k: Kernel, id: string, loop: int, prev: int, fs: seq<Faults>)
    requires (IsCode(prev) || prev == 0) && Holding(k, id, loop, prev)
    ensures var (code, k') := Retry(k, id, loop, prev, fs);
            (code == 0 || IsCode(code)) && Released(k, k', id, loop, prev, code)
    decreases |fs|
  {
    if fs == [] || prev == 0 {
      NothingReleased(k, id, loop, prev);
    } else {
      TeardownKeepsTrack(k, id, loop, prev, fs[0]);
      var (code, k') := Teardown(k, id, loop, prev, fs[0]);
      RetriesReleaseOnce(k', id, loop, code, fs[1..]);
      var (last, k'') := Retry(k', id, loop, code, fs[1..]);
      ReleasedTransitive(k, k', k'', id, loop, prev, code, last);
    }
  }

  // ---- Mounting ----

  datatype Setup = Attached | NoAccess | SetFailed | DeviceMissing

  /** The configured directories, and whether application data is kept apart by user and package. */
  datatype Config = Config(imgMount: string, data: string, rodata: string, perUser: bool, perPackage: bool)

  /** How a call of dbp_loop_mount is made and how the system answers: the free device found
      (negative for none), what attaching it gives, whether the two mounts work, and whether the
      cleanup calls work. */
  datatype MountEnv = MountEnv(config: Config, user: string, srcMount: string, appdata: string,
                               free: int, setup: Setup, imageOk: bool, unionOk: bool, umountOk: bool, resetOk: bool)

  const USER_LIMIT := 63

  /** loop_decide_appdata for one of the two directories. */
  function AppDir(env: MountEnv, base: string): string {
    (if |env.srcMount| > 1 then env.srcMount else "") + "/" + base
    + (if env.config.perUser then "_" + env.user else "")
    + (if env.config.perPackage then "/" + env.appdata else "")
  }

  function ImageDir(env: MountEnv, id: string): string { env.config.imgMount + "/" + id }

  /** Mount options use these as separators. */
  predicate Separator(c: char) { c == ':' || c == '=' || c == ',' }

  predicate Legal(dir: string) { forall c | c in dir :: !Separator(c) }

  predicate LegalNames(env: MountEnv, id: string) {
    Legal(AppDir(env, env.config.data)) && Legal(ImageDir(env, id)) && Legal(AppDir(env, env.config.rodata))
  }

  const INTERNAL_MSG := -1001
  const NO_LOOP := -1002
  const SET_LOOP2 := -1004
  const NO_PKG_ACCESS := -1005
  const BAD_FSIMG := -1008
  const ILL_DIRNAME := -1009
  const UNION_FAILED := -1010

  /** dbp_loop_mount: the device number, or an error after the cleanup at `fail`. */
  method LoopMount(k0: Kernel, id: string, env: MountEnv) returns (ret: int, k: Kernel)
    ensures (ret, k) == Mount(k0, id, env)
  {
    k := k0;
    if |env.user| > USER_LIMIT {
      return INTERNAL_MSG, k;
    }
    if env.free < 0 {
      return NO_LOOP, k;
    }
    if env.setup == NoAccess || env.setup == SetFailed {
      ret := if env.setup == NoAccess then NO_PKG_ACCESS else SET_LOOP2;
    } else {
      if env.setup == Attached {
        k := k.(loops := k.loops + {env.free});
      }
      if !env.imageOk {
        ret := BAD_FSIMG;
      } else {
        k := WithLayers(k, id, [env.free] + Layers(k, id));
        var illegal := IllegalName(env, id);
        if illegal {
          ret := ILL_DIRNAME;
        } else if !env.unionOk {
          k := UmountImage(k, id, env.umountOk).1;
          ret := UNION_FAILED;
        } else {
          k := k.(unions := k.unions + {id});
          return env.free, k;
        }
      }
    }
    k := ResetLoop(k, env.free, env.resetOk).1;
  }

  /** The three tests of three names each. */
  method IllegalName(env: MountEnv, id: string) returns (illegal: bool)
    ensures illegal == !LegalNames(env, id)
  {
    var user, img, rodata := AppDir(env, env.config.data), ImageDir(env, id), AppDir(env, env.config.rodata);
    if ':' in user || ':' in img || ':' in rodata {
      return true;
    }
    if '=' in user || '=' in img || '=' in rodata {
      return true;
    }
    return ',' in user || ',' in img || ',' in rodata;
  }

  /** Exactly the parts that the directories are made of count: the place of the image only if it is
      longer than a slash, the user only where data is kept apart by user, the data's name only where
      it is kept apart by package. */
  lemma LegalNamesIff(env: MountEnv, id: string)
    ensures LegalNames(env, id)
            <==> && Legal(id) && Legal(env.config.imgMount) && Legal(env.config.data) && Legal(env.config.rodata)
                 && (|env.srcMount| > 1 ==> Legal(env.srcMount))
                 && (env.config.perUser ==> Legal(env.user))
                 && (env.config.perPackage ==> Legal(env.appdata))
  {
    LegalAppDirIff(env, env.config.data);
    LegalAppDirIff(env, env.config.rodata);
    LegalConcat(env.config.imgMount, "/");
    LegalConcat(env.config.imgMount + "/", id);
    assert Legal("/");
  }

  lemma LegalConcat(a: string, b: string)
    ensures Legal(a + b) <==> Legal(a) && Legal(b)
  {
    assert forall c :: c in a + b <==> c in a || c in b;
  }

  lemma LegalAppDirIff(env: MountEnv, base: string)
    ensures Legal(AppDir(env, base))
            <==> && Legal(base) && (|env.srcMount| > 1 ==> Legal(env.srcMount))
                 && (env.config.perUser ==> Legal(env.user)) && (env.config.perPackage ==> Legal(env.appdata))
  {
    var src := if |env.srcMount| > 1 then env.srcMount else "";
    var user := if env.config.perUser then "_" + env.user else "";
    var pkg := if env.config.perPackage then "/" + env.appdata else "";
    assert Legal("/") && Legal("_") && Legal("");
    LegalConcat("_", env.user);
    LegalConcat("/", env.appdata);
    LegalConcat(src, "/");
    LegalConcat(src + "/", base);
    LegalConcat(src + "/" + base, user);
    LegalConcat(src + "/" + base + user, pkg);
  }

  /** The directories themselves, where everything is kept apart and where nothing is. */
  lemma AppDirIs(env: MountEnv, base: string)
    requires |env.srcMount| > 1
    ensures env.config.perUser && env.config.perPackage ==>
              AppDir(env, base) == env.srcMount + "/" + base + "_" + env.user + "/" + env.appdata
    ensures !env.config.perUser && !env.config.perPackage ==> AppDir(env, base) == env.srcMount + "/" + base
  {
    if env.config.perUser && env.config.perPackage {
      Sequences.Assoc(env.srcMount + "/" + base, "_", env.user);
      Sequences.Assoc(env.srcMount + "/" + base + "_" + env.user, "/", env.appdata);
    }
  }

  /** Which error a call ends with, or the device number. */
  function MountResult(env: MountEnv, id: string): int {
    if |env.user| > USER_LIMIT then INTERNAL_MSG
    else if env.free < 0 then NO_LOOP
    else if env.setup == NoAccess then NO_PKG_ACCESS
    else if env.setup == SetFailed then SET_LOOP2
    else if !env.imageOk then BAD_FSIMG
    else if !LegalNames(env, id) then ILL_DIRNAME
    else if !env.unionOk then UNION_FAILED
    else env.free
  }

  /** What a call leaves in place: each of the three, if it was set up and not cleaned up. */
  function Mount(k: Kernel, id: string, env: MountEnv): (int, Kernel) {
    var ret := MountResult(env, id);
    if ret == INTERNAL_MSG || ret == NO_LOOP then (ret, k)
    else
      var attached := if env.setup == Attached then k.(loops := k.loops + {env.free}) else k;
      var image := if ret == NO_PKG_ACCESS || ret == SET_LOOP2 || ret == BAD_FSIMG then attached
                   else WithLayers(attached, id, [env.free] + Layers(attached, id));
      if ret >= 0 then (ret, image.(unions := image.unions + {id}))
      else
        var (_, unmounted) := if ret == UNION_FAILED then UmountImage(image, id, env.umountOk) else (false, image);
        (ret, ResetLoop(unmounted, env.free, env.resetOk).1)
  }

  /** The system's part of the contract: a device that is reported free is not attached, and an
      image is not mounted from a device that is not attached. */
  predicate Plausible(k: Kernel, env: MountEnv) {
    && (env.free >= 0 ==> env.free !in k.loops)
    && (env.setup == DeviceMissing ==> !env.imageOk)
  }

  /** Once a device has been attached, a failure is undone if the device can be released and, where
      the image got mounted, the directory names were not the reason and the image can be
      unmounted: the exit for an illegal name forgets the image. */
  predicate CleanFailure(env: MountEnv, id: string) {
    var attached := |env.user| <= USER_LIMIT && env.free >= 0 && env.setup == Attached;
    attached ==> env.resetOk && (env.imageOk ==> LegalNames(env, id) && env.umountOk)
  }

  ghost predicate SameMounts(k: Kernel, k': Kernel) {
    k'.unions == k.unions && k'.loops == k.loops && forall p :: Layers(k', p) == Layers(k, p)
  }

  /** Whatever happens, a call touches the package and the device that was free, and a failing call
      no union at all. */
  lemma MountTouchesOwn(k: Kernel, id: string, env: MountEnv)
    ensures var (ret, k') := Mount(k, id, env);
            && OthersUnchanged(k, k', id, env.free)
            && (ret < 0 ==> k'.unions == k.unions)
            && (ret >= 0 ==> ret == env.free)
  {
  }

  /** Mounting a package is all or nothing exactly when a failure is clean. */
  lemma MountAllOrNothingIff(k: Kernel, id: string, env: MountEnv)
    requires Plausible(k, env)
    ensures var (ret, k') := Mount(k, id, env);
            && (ret >= 0 ==>
                  && ret !in k.loops && Holding(k', id, ret, 1) && OthersUnchanged(k, k', id, ret)
                  && Layers(k', id) == [ret] + Layers(k, id))
            && (ret < 0 ==> (SameMounts(k, k') <==> CleanFailure(env, id)))
  {
    MountTouchesOwn(k, id, env);
    var (ret, k') := Mount(k, id, env);
    if ret == UNION_FAILED {
      assert ([env.free] + Layers(k, id))[1..] == Layers(k, id);
    }
    assert |[env.free] + Layers(k, id)| == 1 + |Layers(k, id)|;
  }
}
