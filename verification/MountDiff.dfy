/** The mount table differ of dbpd/mountwatch.c: one call compares the tracked mounts with a
    snapshot of /proc/mounts, reports the differences and brings the table and the directory
    watches up to date. */
module MountDiff {

  /** A line of /proc/mounts. */
  datatype Line = Line(device: string, mount: string, fstype: string)

  /** A tracked mount. The tag says whether the current snapshot has it. */
  datatype Tracked = Tracked(mount: string, device: string, tag: bool)

  /** A directory watch that belongs to a mount. */
  datatype Watch = Watch(mount: string, path: string, device: string)

  datatype Tag = Removed | Added | Changed

  datatype Change = Change(mount: string, device: string, path: string, tag: Tag)

  /** The lines that are looked at: block devices other than loops, on real file systems. */
  predicate Interesting(l: Line) {
    && "/" <= l.device && !("/dev/loop" <= l.device)
    && l.fstype != "proc" && l.fstype != "devtmpfs" && l.fstype != "devpts" && l.fstype != "tmpfs"
  }

  /** Everything one call works on. */
  datatype State = State(entries: seq<Tracked>, watches: seq<Watch>, changes: seq<Change>)

  /** The watches without those of a mount. */
  function Unwatched(watches: seq<Watch>, mount: string): seq<Watch> {
    if watches == [] then []
    else (if watches[0].mount == mount then [] else [watches[0]]) + Unwatched(watches[1..], mount)
  }

  /** One watch for each search directory of a mount. */
  function WatchesFor(mount: string, device: string, dirs: seq<string>): seq<Watch> {
    if dirs == [] then []
    else WatchesFor(mount, device, dirs[..|dirs| - 1]) + [Watch(mount, mount + "/" + dirs[|dirs| - 1], device)]
  }

  /** What both CHANGED branches do. */
  function Repaired(s: State, i: nat, l: Line, dirs: seq<string>): State
    requires i < |s.entries|
  {
    State(s.entries[i := s.entries[i].(tag := true)],
          Unwatched(s.watches, s.entries[i].mount) + WatchesFor(l.mount, l.device, dirs),
          s.changes + [Change(l.mount, l.device, "", Changed)])
  }

  /** The loop over the tracked mounts for one line, from entry i on. Only an exact match ends it;
      a match in one of the two columns is reported as a change and the loop goes on. The second
      result says whether it ended early. */
  function Scan(s: State, l: Line, i: nat, dirs: seq<string>): (State, bool)
    requires i <= |s.entries|
    decreases |s.entries| - i
  {
    if i == |s.entries| then (s, false)
    else if s.entries[i].mount == l.mount && s.entries[i].device == l.device then
      (s.(entries := s.entries[i := s.entries[i].(tag := true)]), true)
    else if s.entries[i].mount == l.mount || s.entries[i].device == l.device then
      Scan(Repaired(s, i, l, dirs), l, i + 1, dirs)
    else Scan(s, l, i + 1, dirs)
  }

  function Track(s: State, l: Line, dirs: seq<string>): State {
    State(s.entries + [Tracked(l.mount, l.device, true)],
          s.watches + WatchesFor(l.mount, l.device, dirs),
          s.changes + [Change(l.mount, l.device, "", Added)])
  }

  /** One line of the snapshot. */
  function Take(s: State, l: Line, dirs: seq<string>): State {
    if !Interesting(l) then s
    else
      var (t, found) := Scan(s, l, 0, dirs);
      if found then t else Track(t, l, dirs)
  }

  function TakeAll(s: State, lines: seq<Line>, dirs: seq<string>): State {
    if lines == [] then s else Take(TakeAll(s, lines[..|lines| - 1], dirs), lines[|lines| - 1], dirs)
  }

  /** The loop that drops the untagged mounts in place, from entry i on. The report of a removal
      carries the device in both columns. */
  function Sweep(s: State, i: nat): State
    requires i <= |s.entries|
    decreases |s.entries| - i
  {
    if i == |s.entries| then s
    else
      var e := s.entries[i];
      if e.tag then Sweep(s.(entries := s.entries[i := e.(tag := false)]), i + 1)
      else
        Sweep(State(s.entries[..i] + s.entries[i + 1..], Unwatched(s.watches, e.mount),
                    s.changes + [Change(e.device, e.device, "", Removed)]), i)
  }

  /** mountwatch_diff on the entries and watches of the table. */
  function Diff(entries: seq<Tracked>, watches: seq<Watch>, lines: seq<Line>, dirs: seq<string>): State {
    Sweep(TakeAll(State(entries, watches, []), lines, dirs), 0)
  }

  /** struct mountwatch_s, as far as the differ is concerned. */
  class MountTable {
    const dirs: seq<string>   // the configured search directories
    var entries: seq<Tracked>
    var watches: seq<Watch>

    constructor (dirs: seq<string>)
      ensures this.dirs == dirs && entries == [] && watches == []
    {
      this.dirs := dirs;
      entries, watches := [], [];
    }

    /** mountwatch_inotify_remove: removes the first watch of the mount and starts over. */
    method InotifyRemove(mount: string)
      modifies this`watches
      ensures watches == Unwatched(old(watches), mount)
      decreases |watches|
    {
      var i := 0;
      while i < |watches|
        invariant 0 <= i <= |watches| && watches == old(watches)
        invariant Unwatched(watches, mount) == watches[..i] + Unwatched(watches[i..], mount)
      {
        assert watches[i..][1..] == watches[i + 1..];
        if watches[i].mount == mount {
          UnwatchedSplit(watches, i, mount);
          watches := watches[..i] + watches[i + 1..];
          InotifyRemove(mount);
          return;
        }
        i := i + 1;
      }
    }

    /** mountwatch_inotify_add */
    method InotifyAdd(mount: string, device: string)
      modifies this`watches
      ensures watches == old(watches) + WatchesFor(mount, device, dirs)
    {
      for i := 0 to |dirs|
        invariant watches == old(watches) + WatchesFor(mount, device, dirs[..i])
      {
        assert dirs[..i + 1][..i] == dirs[..i];
        watches := watches + [Watch(mount, mount + "/" + dirs[i], device)];
      }
      assert dirs[..|dirs|] == dirs;
    }

    /** mountwatch_diff once there is something to look at. */
    method TakeSnapshot(lines: seq<Line>) returns (changes: seq<Change>)
      modifies this
      ensures State(entries, watches, changes) == Diff(old(entries), old(watches), lines, dirs)
    {
      changes := [];
      ghost var s := State(entries, watches, changes);
      for k := 0 to |lines|
        invariant State(entries, watches, changes) == TakeAll(s, lines[..k], dirs)
      {
        assert lines[..k + 1][..k] == lines[..k];
        changes := TakeLine(lines[k], changes);
      }
      assert lines[..|lines|] == lines;
      changes := SweepAll(changes);
    }

    method TakeLine(l: Line, changes0: seq<Change>) returns (changes: seq<Change>)
      modifies this
      ensures State(entries, watches, changes) == Take(State(old(entries), old(watches), changes0), l, dirs)
    {
      changes := changes0;
      if !Interesting(l) {
        return;
      }
      ghost var result := Scan(State(entries, watches, changes), l, 0, dirs);
      var i := 0;
      while i < |entries|
        invariant 0 <= i <= |entries| && |entries| == |old(entries)|
        invariant result == Scan(State(entries, watches, changes), l, i, dirs)
      {
        var e := entries[i];
        ghost var before := entries;
        if e.mount == l.mount {
          entries := entries[i := e.(tag := true)];
          if e.device == l.device {
            break;
          }
          InotifyRemove(e.mount);
          InotifyAdd(l.mount, l.device);
          changes := changes + [Change(l.mount, l.device, "", Changed)];
          entries := entries[i := Tracked(l.mount, e.device, true)];
          assert entries == before[i := e.(tag := true)];
        } else if e.device == l.device {
          InotifyRemove(e.mount);
          InotifyAdd(l.mount, l.device);
          changes := changes + [Change(l.mount, l.device, "", Changed)];
          entries := entries[i := Tracked(e.mount, l.device, true)];
        }
        i := i + 1;
      }
      if i == |entries| {
        changes := changes + [Change(l.mount, l.device, "", Added)];
        InotifyAdd(l.mount, l.device);
        entries := entries + [Tracked(l.mount, l.device, true)];
      }
    }

    method SweepAll(changes0: seq<Change>) returns (changes: seq<Change>)
      modifies this
      ensures State(entries, watches, changes) == Sweep(State(old(entries), old(watches), changes0), 0)
    {
      changes := changes0;
      ghost var s := State(entries, watches, changes);
      ghost var result := Sweep(s, 0);
      var i := 0;
      while i < |entries|
        invariant s == State(entries, watches, changes) && 0 <= i <= |s.entries|
        invariant result == Sweep(s, i)
        decreases |s.entries| - i
      {
        var e := entries[i];
        if !e.tag {
          changes := changes + [Change(e.device, e.device, "", Removed)];
          InotifyRemove(e.mount);
          entries := entries[..i] + entries[i + 1..];
          i := i - 1;
        } else {
          entries := entries[i := e.(tag := false)];
        }
        s := State(entries, watches, changes);
        i := i + 1;
      }
    }
  }

  /** Removing one watch of a mount beforehand makes no difference. */
  lemma {:induction false} UnwatchedSplit(watches: seq<Watch>, i: nat, mount: string)
    requires i < |watches| && watches[i].mount == mount
    ensures Unwatched(watches[..i] + watches[i + 1..], mount) == Unwatched(watches, mount)
  {
    if i > 0 {
      var rest := watches[1..];
      assert watches[..i] + watches[i + 1..] == [watches[0]] + (rest[..i - 1] + rest[i..]);
      UnwatchedSplit(rest, i - 1, mount);
    } else {
      assert watches[..0] + watches[1..] == watches[1..];
    }
  }
}
