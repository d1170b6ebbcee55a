/** The handshake between the three threads of dbpd/mountwatch.c. The watcher polls the inotify
    descriptor, the poller watches /proc/mounts, and the main thread takes snapshots and drains
    the descriptor. They share a mutex, two semaphores and two flags. */
module Handshake {

  /** mountwatch_dirchange: polling; an event seen; the mutex held; the flag set; the main thread
      notified; waiting for dir_watch_continue; gone. */
  datatype Watcher = Polling | SawEvent | Holding | FlagSet | Notified | Blocked | WatcherGone

  /** mountwatch_loop: about to test should_die; past the test, watching the mounts; about to wake
      the watcher for the last time; gone. */
  datatype Poller = Testing | Watching | Leaving | PollerGone

  /** mountwatch_diff: not in the call; waiting for `changed`; past the wait; the mutex held; the
      flag taken over; draining the descriptor. `news` says that the diff found something. */
  datatype Main = Outside | AtWait | PastWait | Locked | FlagTaken(flag: bool, news: bool) | Draining

  datatype Owner = Nobody | ByWatcher | ByMain

  datatype State = State(watcher: Watcher, poller: Poller, main: Main, mutex: Owner,
                         dirChange: bool, changed: nat, continue_: nat, shouldDie: bool)

  /** After mountwatch_init. */
  const INIT := State(Polling, Testing, Outside, Nobody, false, 1, 0, false)

  datatype Step =
    | WatcherSelects(event: bool) | WatcherLocks | WatcherSetsFlag | WatcherPosts | WatcherUnlocks | WatcherResumes
    | PollerTests | PollerSelects(event: bool) | PollerPosts
    | MainCalls | MainWaits(timeout: bool) | MainLocks | MainDiffs(readable: bool, news: bool)
    | MainUnlocks | MainDrains
    | Kill

  predicate Enabled(s: State, step: Step) {
    match step
    case WatcherSelects(_) => s.watcher == Polling
    case WatcherLocks => s.watcher == SawEvent && s.mutex == Nobody
    case WatcherSetsFlag => s.watcher == Holding
    case WatcherPosts => s.watcher == FlagSet
    case WatcherUnlocks => s.watcher == Notified
    case WatcherResumes => s.watcher == Blocked && s.continue_ > 0
    case PollerTests => s.poller == Testing
    case PollerSelects(_) => s.poller == Watching
    case PollerPosts => s.poller == Leaving
    case MainCalls => s.main == Outside
    case MainWaits(timeout) => s.main == AtWait && (timeout || s.changed > 0)
    case MainLocks => s.main == PastWait && s.mutex == Nobody
    case MainDiffs(_, _) => s.main == Locked
    case MainUnlocks => s.main.FlagTaken?
    case MainDrains => s.main == Draining
    case Kill => true
  }

  function Apply(s: State, step: Step): State
    requires Enabled(s, step)
  {
    match step
    case WatcherSelects(event) =>
      if s.shouldDie then s.(watcher := WatcherGone) else if event then s.(watcher := SawEvent) else s
    case WatcherLocks => s.(watcher := Holding, mutex := ByWatcher)
    case WatcherSetsFlag => s.(watcher := FlagSet, dirChange := true)
    case WatcherPosts => s.(watcher := Notified, changed := s.changed + 1)
    case WatcherUnlocks => s.(watcher := Blocked, mutex := Nobody)
    case WatcherResumes => s.(watcher := Polling, continue_ := s.continue_ - 1)
    case PollerTests => s.(poller := if s.shouldDie then Leaving else Watching)
    case PollerSelects(event) => s.(poller := Testing, changed := if event then s.changed + 1 else s.changed)
    case PollerPosts => s.(poller := PollerGone, continue_ := s.continue_ + 1)
    case MainCalls => s.(main := AtWait)
    case MainWaits(timeout) => if timeout then s.(main := Outside) else s.(main := PastWait, changed := s.changed - 1)
    case MainLocks => s.(main := Locked, mutex := ByMain)
    case MainDiffs(readable, news) =>
      if !readable then s.(main := Outside, mutex := Nobody)
      else s.(main := FlagTaken(s.dirChange, news), dirChange := false)
    case MainUnlocks =>
      s.(mutex := Nobody, main := if s.main.flag then Draining else if s.main.news then Outside else AtWait)
    case MainDrains => s.(main := Outside, continue_ := s.continue_ + 1)
    case Kill => s.(shouldDie := true)
  }

  ghost predicate Possible(s: State, steps: seq<Step>)
    decreases |steps|
  {
    steps == [] || (Enabled(s, steps[0]) && Possible(Apply(s, steps[0]), steps[1..]))
  }

  ghost function Exec(s: State, steps: seq<Step>): State
    requires Possible(s, steps)
    decreases |steps|
  {
    if steps == [] then s else Exec(Apply(s, steps[0]), steps[1..])
  }

  // ---- The permission to use the descriptor is a token ----

  function Count(b: bool): nat { if b then 1 else 0 }

  /** The watcher has not yet handed over. */
  predicate WatcherHolds(s: State) { s.watcher == Polling || s.watcher == SawEvent || s.watcher == Holding }

  /** The main thread has taken the flag over and not yet given the permission back. */
  predicate MainHolds(s: State) { s.main == Draining || (s.main.FlagTaken? && s.main.flag) }

  function Tokens(s: State): nat {
    Count(WatcherHolds(s)) + Count(s.dirChange) + Count(MainHolds(s)) + s.continue_
  }

  /** The mutex is held by whoever is in a critical section, and one token goes round. A watcher
      that leaves takes it along; a poller that leaves puts in one too many. As long as the watcher
      holds the mutex, the flag it has raised is up, and its notification is pending or the main
      thread waits for the mutex. */
  predicate Inv(s: State) {
    && (s.mutex == ByWatcher <==> s.watcher == Holding || s.watcher == FlagSet || s.watcher == Notified)
    && (s.mutex == ByMain <==> s.main == Locked || s.main.FlagTaken?)
    && (s.main.FlagTaken? ==> !s.dirChange)
    && (s.poller != PollerGone ==> Tokens(s) + Count(s.watcher == WatcherGone) == 1)
    && (s.poller == Leaving || s.poller == PollerGone || s.watcher == WatcherGone ==> s.shouldDie)
    && (s.watcher == FlagSet || s.watcher == Notified ==> s.dirChange)
    && (s.watcher == Notified ==> s.changed > 0 || s.main == PastWait)
  }

  lemma StepKeeps(s: State, step: Step)
    requires Inv(s) && Enabled(s, step)
    ensures Inv(Apply(s, step))
  {
  }

  lemma {:induction false} ExecKeeps(s: State, steps: seq<Step>)
    requires Inv(s) && Possible(s, steps)
    ensures Inv(Exec(s, steps))
    decreases |steps|
  {
    if steps != [] {
      StepKeeps(s, steps[0]);
      ExecKeeps(Apply(s, steps[0]), steps[1..]);
    }
  }

  /** In every interleaving, until the daemon is told to die, exactly one of four things is the case:
      the watcher has the descriptor, the flag is up, the main thread has taken it over, or the
      watcher has been told to go on. And until the poller has left, the descriptor is never polled
      while it is drained. */
  lemma OneTokenInEveryRun(steps: seq<Step>)
    requires Possible(INIT, steps)
    ensures var s := Exec(INIT, steps);
            && (!s.shouldDie ==> Tokens(s) == 1)
            && (s.poller != PollerGone ==> !(s.watcher == Polling && s.main == Draining))
            && !(s.mutex == ByMain && (s.watcher == Holding || s.watcher == FlagSet || s.watcher == Notified))
  {
    ExecKeeps(INIT, steps);
  }

  // ---- A raised flag does not go unnoticed ----

  /** Somebody will look at the flag: the notification is about to be posted, pending or consumed. */
  predicate Noticed(s: State) {
    s.dirChange ==> s.watcher == FlagSet || s.changed > 0 || s.main == PastWait || s.main == Locked
  }

  /** The main thread fails to read /proc/mounts when a raised flag has no other notification. */
  predicate Strands(s: State, step: Step) {
    step.MainDiffs? && !step.readable && s.dirChange && s.changed == 0
  }

  /** One step leaves the flag unnoticed exactly when it strands it. */
  lemma StepStrandsIff(s: State, step: Step)
    requires Inv(s) && Noticed(s) && Enabled(s, step)
    ensures Noticed(Apply(s, step)) <==> !Strands(s, step)
  {
  }

  /** The flag is noticed in every state of the run. */
  ghost predicate AlwaysNoticed(s: State, steps: seq<Step>)
    requires Possible(s, steps)
    decreases |steps|
  {
    Noticed(s) && (steps != [] ==> AlwaysNoticed(Apply(s, steps[0]), steps[1..]))
  }

  /** No step of the run strands the flag. */
  ghost predicate NeverStrands(s: State, steps: seq<Step>)
    requires Possible(s, steps)
    decreases |steps|
  {
    steps == [] || (!Strands(s, steps[0]) && NeverStrands(Apply(s, steps[0]), steps[1..]))
  }

  lemma {:induction false} NoticedIff(s: State, steps: seq<Step>)
    requires Inv(s) && Noticed(s) && Possible(s, steps)
    ensures AlwaysNoticed(s, steps) <==> NeverStrands(s, steps)
    decreases |steps|
  {
    if steps != [] {
      StepKeeps(s, steps[0]);
      StepStrandsIff(s, steps[0]);
      if !Strands(s, steps[0]) {
        NoticedIff(Apply(s, steps[0]), steps[1..]);
      } else {
        assert !Noticed(Apply(s, steps[0]));
      }
    }
  }

  /** In every interleaving the flag is noticed all along exactly when no failing read of
      /proc/mounts uses up the last notification of a raised flag. */
  lemma FlagIsNoticedIff(steps: seq<Step>)
    requires Possible(INIT, steps)
    ensures AlwaysNoticed(INIT, steps) <==> NeverStrands(INIT, steps)
  {
    NoticedIff(INIT, steps);
  }

  /** In particular, if /proc/mounts can always be read. */
  lemma FlagIsNoticedInEveryRun(steps: seq<Step>)
    requires Possible(INIT, steps) && forall step | step in steps :: step.MainDiffs? ==> step.readable
    ensures Noticed(Exec(INIT, steps))
  {
    OpenedNeverStrands(INIT, steps);
    FlagIsNoticedIff(steps);
    NoticedInTheEnd(INIT, steps);
  }

  lemma {:induction false} OpenedNeverStrands(s: State, steps: seq<Step>)
    requires Possible(s, steps) && forall step | step in steps :: step.MainDiffs? ==> step.readable
    ensures NeverStrands(s, steps)
    decreases |steps|
  {
    if steps != [] {
      assert steps[0] in steps;
      OpenedNeverStrands(Apply(s, steps[0]), steps[1..]);
    }
  }

  lemma {:induction false} NoticedInTheEnd(s: State, steps: seq<Step>)
    requires Possible(s, steps) && AlwaysNoticed(s, steps)
    ensures Noticed(Exec(s, steps))
    decreases |steps|
  {
    if steps != [] {
      NoticedInTheEnd(Apply(s, steps[0]), steps[1..]);
    }
  }

  lemma Then(s: State, step: Step, rest: seq<Step>)
    requires Enabled(s, step) && Possible(Apply(s, step), rest)
    ensures Possible(s, [step] + rest) && Exec(s, [step] + rest) == Exec(Apply(s, step), rest)
  {
    assert ([step] + rest)[1..] == rest;
  }

  lemma {:induction false} Concat(s: State, a: seq<Step>, b: seq<Step>)
    requires Possible(s, a) && Possible(Exec(s, a), b)
    ensures Possible(s, a + b) && Exec(s, a + b) == Exec(Exec(s, a), b)
    decreases |a|
  {
    if a == [] {
      assert a + b == b;
    } else {
      var t := Apply(s, a[0]);
      Concat(t, a[1..], b);
      Then(s, a[0], a[1..] + b);
      assert a + b == [a[0]] + (a[1..] + b);
    }
  }

  // ---- The watcher always gets back to polling ----

  /** What a scheduler should let happen next to get the watcher polling again. */
  function Next(s: State): Step {
    match s.watcher
    case Holding => WatcherSetsFlag
    case FlagSet => WatcherPosts
    case Notified => WatcherUnlocks
    case SawEvent => if s.mutex == Nobody then WatcherLocks else MainNext(s.main)
    case Blocked => if s.continue_ > 0 then WatcherResumes else MainNext(s.main)
    case Polling => Kill
    case WatcherGone => Kill
  }

  function MainNext(m: Main): Step {
    match m
    case Outside => MainCalls
    case AtWait => MainWaits(false)
    case PastWait => MainLocks
    case Locked => MainDiffs(true, false)
    case FlagTaken(_, _) => MainUnlocks
    case Draining => MainDrains
  }

  /** How many such steps are needed at most. */
  function Distance(s: State): nat {
    match s.watcher
    case Polling => 0
    case WatcherGone => 0
    case Blocked => if s.continue_ > 0 then 1 else 2 + MainDistance(s.main)
    case Notified => 10
    case FlagSet => 11
    case Holding => 12
    case SawEvent => 13 + (if s.main == Locked then 2 else if s.main.FlagTaken? then 1 else 0)
  }

  function MainDistance(m: Main): nat {
    match m
    case Draining => 0
    case FlagTaken(_, _) => 1
    case Locked => 2
    case PastWait => 3
    case AtWait => 4
    case Outside => 5
  }

  /** Neither the shutdown nor the poller helps. */
  predicate Unaided(steps: seq<Step>) {
    forall step | step in steps :: !step.PollerSelects? && !step.PollerTests? && !step.PollerPosts? && !step.Kill?
  }

  lemma NextIsCloser(s: State)
    requires Inv(s) && Noticed(s) && !s.shouldDie && s.watcher != Polling
    ensures Enabled(s, Next(s)) && Distance(Apply(s, Next(s))) < Distance(s)
    ensures var t := Apply(s, Next(s)); Inv(t) && Noticed(t) && !t.shouldDie
    ensures Unaided([Next(s)])
  {
    StepKeeps(s, Next(s));
  }

  lemma {:induction false} BackToPolling(s: State) returns (more: seq<Step>)
    requires Inv(s) && Noticed(s) && !s.shouldDie
    ensures Possible(s, more) && Unaided(more)
    ensures Exec(s, more).watcher == Polling
    ensures |more| <= Distance(s)
    decreases Distance(s)
  {
    if s.watcher == Polling {
      more := [];
    } else {
      NextIsCloser(s);
      var rest := BackToPolling(Apply(s, Next(s)));
      Then(s, Next(s), rest);
      more := [Next(s)] + rest;
    }
  }

  /** A flag that nobody notices stays so, and keeps the watcher blocked, until the poller posts. */
  lemma {:induction false} StrandedStays(s: State, more: seq<Step>)
    requires Inv(s) && !Noticed(s) && s.poller != PollerGone && Possible(s, more) && Unaided(more)
    ensures !Noticed(Exec(s, more)) && Exec(s, more).watcher == Blocked
    decreases |more|
  {
    if more != [] {
      assert more[0] in more;
      StepKeeps(s, more[0]);
      StrandedStays(Apply(s, more[0]), more[1..]);
    }
  }

  ghost predicate LeadsToPolling(s: State, more: seq<Step>) {
    Possible(s, more) && Unaided(more) && Exec(s, more).watcher == Polling
  }

  /** From every state that any interleaving can reach before the shutdown, the watcher and the main
      thread can get the watcher back to polling by themselves exactly when the flag is noticed,
      and then 15 steps are enough. */
  lemma NeverStuckIff(steps: seq<Step>)
    requires Possible(INIT, steps) && !Exec(INIT, steps).shouldDie
    ensures var s := Exec(INIT, steps);
            && (Noticed(s) <==> exists more :: LeadsToPolling(s, more))
            && (Noticed(s) ==> exists more :: LeadsToPolling(s, more) && |more| <= 15)
  {
    ExecKeeps(INIT, steps);
    var s := Exec(INIT, steps);
    if Noticed(s) {
      var more := BackToPolling(s);
      assert LeadsToPolling(s, more);
    } else {
      forall more | LeadsToPolling(s, more)
        ensures false
      {
        StrandedStays(s, more);
      }
    }
  }

  /** The watcher raises the flag and notifies the main thread. */
  lemma WatcherHandsOver(s: State) returns (steps: seq<Step>)
    requires s.watcher == Polling && s.mutex == Nobody && !s.shouldDie
    ensures Possible(s, steps)
    ensures Exec(s, steps) == s.(watcher := Blocked, dirChange := true, changed := s.changed + 1)
  {
    var s1 := Apply(s, WatcherSelects(true));
    var s2 := Apply(s1, WatcherLocks);
    var s3 := Apply(s2, WatcherSetsFlag);
    var s4 := Apply(s3, WatcherPosts);
    Then(s4, WatcherUnlocks, []);
    Then(s3, WatcherPosts, [WatcherUnlocks]);
    steps := [WatcherPosts] + [WatcherUnlocks];
    Then(s2, WatcherSetsFlag, steps);
    steps := [WatcherSetsFlag] + steps;
    Then(s1, WatcherLocks, steps);
    steps := [WatcherLocks] + steps;
    Then(s, WatcherSelects(true), steps);
    steps := [WatcherSelects(true)] + steps;
  }

  /** A call of the main thread that cannot read /proc/mounts uses up a notification. */
  lemma MainFails(s: State) returns (steps: seq<Step>)
    requires s.main == Outside && s.mutex == Nobody && s.changed > 0
    ensures Possible(s, steps) && Exec(s, steps) == s.(changed := s.changed - 1)
  {
    var s1 := Apply(s, MainCalls);
    var s2 := Apply(s1, MainWaits(false));
    var s3 := Apply(s2, MainLocks);
    Then(s3, MainDiffs(false, false), []);
    Then(s2, MainLocks, [MainDiffs(false, false)]);
    steps := [MainLocks] + [MainDiffs(false, false)];
    Then(s1, MainWaits(false), steps);
    steps := [MainWaits(false)] + steps;
    Then(s, MainCalls, steps);
    steps := [MainCalls] + steps;
  }

  /** Without that, the flag can be stranded: the notifications are used up, and until the poller
      sees the mounts change again the watcher stays blocked. */
  lemma FailedReadsStrandFlag() returns (steps: seq<Step>)
    ensures Possible(INIT, steps)
    ensures var s := Exec(INIT, steps);
            && !Noticed(s) && s.watcher == Blocked && s.continue_ == 0 && s.main == Outside
            && s.poller == Testing && !s.shouldDie
  {
    steps := WatcherHandsOver(INIT);
    var s1 := Exec(INIT, steps);
    var fail1 := MainFails(s1);
    Concat(INIT, steps, fail1);
    var s2 := Exec(s1, fail1);
    var fail2 := MainFails(s2);
    Concat(INIT, steps + fail1, fail2);
    steps := steps + fail1 + fail2;
  }

  /** Even then the poller can help: once it sees the mounts change, the watcher and the main thread
      get the watcher back to polling by themselves. */
  lemma PollerRescues(s: State) returns (more: seq<Step>)
    requires Inv(s) && !s.shouldDie && s.poller == Watching
    ensures var t := [PollerSelects(true)] + more;
            Unaided(more) && |more| <= 15 && Possible(s, t) && Exec(s, t).watcher == Polling
  {
    var t := Apply(s, PollerSelects(true));
    StepKeeps(s, PollerSelects(true));
    more := BackToPolling(t);
    Then(s, PollerSelects(true), more);
  }

  /** A main thread that runs alone from a pending notification gives the descriptor back to the
      watcher. */
  lemma MainHandsBack(s: State, news: bool) returns (steps: seq<Step>)
    requires Inv(s) && !s.shouldDie && s.dirChange && s.watcher == Blocked && s.main == AtWait && s.changed > 0
    ensures Possible(s, steps)
    ensures Exec(s, steps) == s.(watcher := Polling, main := Outside, dirChange := false, changed := s.changed - 1)
  {
    var s1 := Apply(s, MainWaits(false));
    var s2 := Apply(s1, MainLocks);
    var s3 := Apply(s2, MainDiffs(true, news));
    var s4 := Apply(s3, MainUnlocks);
    var s5 := Apply(s4, MainDrains);
    Then(s5, WatcherResumes, []);
    Then(s4, MainDrains, [WatcherResumes]);
    steps := [MainDrains] + [WatcherResumes];
    Then(s3, MainUnlocks, steps);
    steps := [MainUnlocks] + steps;
    Then(s2, MainDiffs(true, news), steps);
    steps := [MainDiffs(true, news)] + steps;
    Then(s1, MainLocks, steps);
    steps := [MainLocks] + steps;
    Then(s, MainWaits(false), steps);
    steps := [MainWaits(false)] + steps;
  }

  // ---- The poller's parting post ----

  /** The watcher polls the descriptor while the main thread drains it. */
  predicate BothIn(s: State) { s.watcher == Polling && s.main == Draining }

  /** The watcher is on its way to raising the flag or has raised it, and the main thread has taken
      it over or will notice it. */
  predicate CanMeet(s: State) {
    || s.watcher == SawEvent || s.watcher == Holding || s.watcher == FlagSet || s.watcher == Notified
    || (s.watcher == Blocked && (MainHolds(s) || (s.dirChange && Noticed(s))))
  }

  lemma MeetIsCloser(s: State)
    requires Inv(s) && s.poller == Leaving && CanMeet(s) && !(s.watcher == Blocked && s.main == Draining)
    ensures Enabled(s, Next(s)) && Distance(Apply(s, Next(s))) < Distance(s)
    ensures var t := Apply(s, Next(s)); Inv(t) && CanMeet(t) && t.poller == Leaving
  {
    StepKeeps(s, Next(s));
  }

  lemma {:induction false} LeadsToMeeting(s: State) returns (steps: seq<Step>)
    requires Inv(s) && s.poller == Leaving && CanMeet(s)
    ensures Possible(s, steps) && BothIn(Exec(s, steps))
    decreases Distance(s)
  {
    if s.watcher == Blocked && s.main == Draining {
      var t := Apply(s, PollerPosts);
      Then(t, WatcherResumes, []);
      Then(s, PollerPosts, [WatcherResumes]);
      steps := [PollerPosts] + [WatcherResumes];
    } else {
      MeetIsCloser(s);
      var rest := LeadsToMeeting(Apply(s, Next(s)));
      Then(s, Next(s), rest);
      steps := [Next(s)] + rest;
    }
  }

  /** After the shutdown has begun, the main thread neither holds the flag nor ever will. */
  predicate NeverMeets(s: State) {
    && s.shouldDie && (s.poller == Leaving || s.poller == PollerGone)
    && (s.watcher == Polling || s.watcher == WatcherGone || s.watcher == Blocked)
    && !MainHolds(s) && (s.dirChange ==> s.changed == 0 && s.main != PastWait && s.main != Locked)
  }

  lemma {:induction false} NeverMeetsStays(s: State, steps: seq<Step>)
    requires NeverMeets(s) && Possible(s, steps)
    ensures NeverMeets(Exec(s, steps))
    decreases |steps|
  {
    if steps != [] {
      NeverMeetsStays(Apply(s, steps[0]), steps[1..]);
    }
  }

  ghost predicate Meets(s: State, steps: seq<Step>) {
    Possible(s, steps) && BothIn(Exec(s, steps))
  }

  /** From a state of any interleaving in which the poller is about to post for the last time, some
      continuation has the watcher poll while the main thread drains exactly when the watcher is
      on its way to raising the flag, or has raised it and the main thread has it or will notice
      it. */
  lemma PartingPostLetsBothInIff(before: seq<Step>)
    requires Possible(INIT, before) && Exec(INIT, before).poller == Leaving
    ensures var s := Exec(INIT, before); CanMeet(s) <==> exists steps :: Meets(s, steps)
  {
    ExecKeeps(INIT, before);
    var s := Exec(INIT, before);
    if CanMeet(s) {
      var steps := LeadsToMeeting(s);
      assert Meets(s, steps);
    } else {
      assert NeverMeets(s);
      forall steps | Meets(s, steps)
        ensures false
      {
        NeverMeetsStays(s, steps);
      }
    }
  }

  /** That the watcher is blocked and has not been told to go on is not enough: a stranded flag keeps
      the two apart. */
  lemma StrandedFlagKeepsApart() returns (before: seq<Step>)
    ensures Possible(INIT, before)
    ensures var s := Exec(INIT, before);
            && s.poller == Leaving && s.watcher == Blocked && s.continue_ == 0
            && !exists steps :: Meets(s, steps)
  {
    before := FailedReadsStrandFlag();
    var s := Exec(INIT, before);
    var t := Apply(s, Kill);
    Then(t, PollerTests, []);
    Then(s, Kill, [PollerTests]);
    var last := [Kill] + [PollerTests];
    Concat(INIT, before, last);
    before := before + last;
    PartingPostLetsBothInIff(before);
  }

  /** It does happen: the parting post does let the watcher poll while the main thread drains. */
  lemma PartingPostLetsBothIn() returns (steps: seq<Step>)
    ensures Possible(INIT, steps)
    ensures var s := Exec(INIT, steps); s.poller == PollerGone && s.watcher == Polling && s.main == Draining
  {
    var first := WatcherHandsOver(INIT);
    var s1 := Exec(INIT, first);
    var second := MainTakesOver(s1);
    Concat(INIT, first, second);
    var s2 := Exec(s1, second);
    var third := PollerLeaves(s2);
    Concat(INIT, first + second, third);
    steps := first + second + third;
  }

  lemma MainTakesOver(s: State) returns (steps: seq<Step>)
    requires s.main == Outside && s.mutex == Nobody && s.changed > 0 && s.dirChange
    ensures Possible(s, steps)
    ensures Exec(s, steps) == s.(main := Draining, dirChange := false, changed := s.changed - 1)
  {
    var s1 := Apply(s, MainCalls);
    var s2 := Apply(s1, MainWaits(false));
    var s3 := Apply(s2, MainLocks);
    var s4 := Apply(s3, MainDiffs(true, false));
    Then(s4, MainUnlocks, []);
    Then(s3, MainDiffs(true, false), [MainUnlocks]);
    steps := [MainDiffs(true, false)] + [MainUnlocks];
    Then(s2, MainLocks, steps);
    steps := [MainLocks] + steps;
    Then(s1, MainWaits(false), steps);
    steps := [MainWaits(false)] + steps;
    Then(s, MainCalls, steps);
    steps := [MainCalls] + steps;
  }

  lemma PollerLeaves(s: State) returns (steps: seq<Step>)
    requires s.poller == Testing && s.watcher == Blocked
    ensures Possible(s, steps)
    ensures Exec(s, steps) == s.(shouldDie := true, poller := PollerGone, watcher := Polling)
  {
    var s1 := Apply(s, Kill);
    var s2 := Apply(s1, PollerTests);
    var s3 := Apply(s2, PollerPosts);
    Then(s3, WatcherResumes, []);
    Then(s2, PollerPosts, [WatcherResumes]);
    steps := [PollerPosts] + [WatcherResumes];
    Then(s1, PollerTests, steps);
    steps := [PollerTests] + steps;
    Then(s, Kill, steps);
    steps := [Kill] + steps;
  }

  // ---- What is posted and what is consumed ----

  /** How often a step occurs in a run. */
  function Times(steps: seq<Step>, step: Step): nat {
    if steps == [] then 0 else Count(steps[0] == step) + Times(steps[1..], step)
  }

  /** In every interleaving each notification comes from the watcher's flag or from a change of the
      mounts, and each permission to go on from a drained descriptor or from the poller's parting. */
  lemma {:induction false} NothingIsPostedTwice(s: State, steps: seq<Step>)
    requires Possible(s, steps)
    ensures var t := Exec(s, steps);
            && t.changed + Times(steps, MainWaits(false))
                 == s.changed + Times(steps, WatcherPosts) + Times(steps, PollerSelects(true))
            && t.continue_ + Times(steps, WatcherResumes)
                 == s.continue_ + Times(steps, MainDrains) + Times(steps, PollerPosts)
    decreases |steps|
  {
    if steps != [] {
      OneStepPosts(s, steps[0]);
      NothingIsPostedTwice(Apply(s, steps[0]), steps[1..]);
    }
  }

  lemma OneStepPosts(s: State, step: Step)
    requires Enabled(s, step)
    ensures var t := Apply(s, step);
            && t.changed + Count(step == MainWaits(false))
                 == s.changed + Count(step == WatcherPosts) + Count(step == PollerSelects(true))
            && t.continue_ + Count(step == WatcherResumes)
                 == s.continue_ + Count(step == MainDrains) + Count(step == PollerPosts)
  {
  }

  /** The watcher has seen an event that it has not yet notified the main thread of. */
  predicate HasSeen(w: Watcher) { w == SawEvent || w == Holding || w == FlagSet }

  /** The watcher notifies the main thread of events only, and of each once. */
  lemma {:induction false} NoEventNoNotice(s: State, steps: seq<Step>)
    requires Possible(s, steps)
    ensures Count(HasSeen(Exec(s, steps).watcher)) + Times(steps, WatcherPosts)
            <= Count(HasSeen(s.watcher)) + Times(steps, WatcherSelects(true))
    decreases |steps|
  {
    if steps != [] {
      NoEventNoNotice(Apply(s, steps[0]), steps[1..]);
    }
  }

  /** After the daemon has been told to die the poller leaves in three steps of its own at most, and a
      polling watcher in one. */
  lemma ThreadsLeave(s: State, event: bool)
    requires s.shouldDie && s.poller != PollerGone
    ensures var steps := if s.poller == Watching then [PollerSelects(event), PollerTests, PollerPosts]
                         else if s.poller == Testing then [PollerTests, PollerPosts]
                         else [PollerPosts];
            Possible(s, steps) && Exec(s, steps).poller == PollerGone
    ensures s.watcher == Polling ==>
              Possible(s, [WatcherSelects(event)]) && Exec(s, [WatcherSelects(event)]).watcher == WatcherGone
  {
    if s.poller == Watching {
      var t := Apply(s, PollerSelects(event));
      Then(t, PollerTests, [PollerPosts]);
      Then(s, PollerSelects(event), [PollerTests] + [PollerPosts]);
      assert [PollerSelects(event)] + ([PollerTests] + [PollerPosts])
          == [PollerSelects(event), PollerTests, PollerPosts];
    } else if s.poller == Testing {
      Then(s, PollerTests, [PollerPosts]);
      assert [PollerTests] + [PollerPosts] == [PollerTests, PollerPosts];
    }
  }

  // ---- A call of the main thread ----

  /** The call has news to give to its caller, or has drained the descriptor, and is on its way out. */
  predicate Returning(m: Main) { m == Draining || m == Outside || (m.FlagTaken? && (m.news || m.flag)) }

  /** What a diff has found is returned before the main thread waits again, however the threads are
      interleaved: it waits only in a new call. */
  lemma {:induction false} NewsIsReturned(s: State, steps: seq<Step>)
    requires Possible(s, steps) && Returning(s.main) && MainCalls !in steps
    ensures Returning(Exec(s, steps).main)
    decreases |steps|
  {
    if steps != [] {
      assert steps[0] in steps;
      NewsIsReturned(Apply(s, steps[0]), steps[1..]);
    }
  }

  /** A diff without news and without a flag to see to goes on waiting within the call: the call
      returns nothing before it has waited again. */
  lemma {:induction false} NoNewsWaitsAgain(s: State, steps: seq<Step>)
    requires Possible(s, steps) && (s.main == FlagTaken(false, false) || s.main == AtWait)
    requires forall step | step in steps :: !step.MainWaits?
    ensures Exec(s, steps).main == FlagTaken(false, false) || Exec(s, steps).main == AtWait
    decreases |steps|
  {
    if steps != [] {
      assert steps[0] in steps;
      NoNewsWaitsAgain(Apply(s, steps[0]), steps[1..]);
    }
  }

  /** Until it has got the mutex a call can give up: a timeout ends it without a trace. */
  lemma TimeoutLeavesNoTrace(s: State)
    requires s.main == Outside
    ensures Possible(s, [MainCalls, MainWaits(true)]) && Exec(s, [MainCalls, MainWaits(true)]) == s
  {
    Then(Apply(s, MainCalls), MainWaits(true), []);
    Then(s, MainCalls, [MainWaits(true)]);
    assert [MainCalls] + [MainWaits(true)] == [MainCalls, MainWaits(true)];
  }
}
