/** When the mount table differ reports exactly what has changed. */
module MountDiffExact {
  import opened MountDiff
  import Sequences

  datatype Pair = Pair(mount: string, device: string)

  function PairOf(e: Tracked): Pair { Pair(e.mount, e.device) }

  function LinePair(l: Line): Pair { Pair(l.mount, l.device) }

  ghost function Known(entries: seq<Tracked>): set<Pair> {
    set e | e in entries :: PairOf(e)
  }

  /** The pairs of a snapshot. */
  ghost function Seen(lines: seq<Line>): set<Pair> {
    set l | l in lines && Interesting(l) :: LinePair(l)
  }

  /** Mount point and device determine each other. */
  ghost predicate OneToOne(pairs: set<Pair>) {
    forall p, q | p in pairs && q in pairs :: p.mount == q.mount <==> p.device == q.device
  }

  ghost predicate DistinctMounts(entries: seq<Tracked>) {
    forall i, j :: 0 <= i < j < |entries| ==> entries[i].mount != entries[j].mount
  }

  /** The watches of all tracked mounts, mount by mount. */
  function WatchesOf(entries: seq<Tracked>, dirs: seq<string>): seq<Watch> {
    if entries == [] then []
    else WatchesOf(entries[..|entries| - 1], dirs)
         + WatchesFor(entries[|entries| - 1].mount, entries[|entries| - 1].device, dirs)
  }

  /** The table between two calls. */
  ghost predicate TableOk(entries: seq<Tracked>, watches: seq<Watch>, dirs: seq<string>) {
    && (forall e | e in entries :: !e.tag)
    && DistinctMounts(entries) && OneToOne(Known(entries))
    && watches == WatchesOf(entries, dirs)
  }

  // ---- What an exact answer is ----

  /** The pairs of the snapshot that are not known, in the order of their first line. */
  ghost function New(known: set<Pair>, lines: seq<Line>): seq<Pair> {
    if lines == [] then []
    else
      var before, l := New(known, lines[..|lines| - 1]), lines[|lines| - 1];
      if Interesting(l) && LinePair(l) !in known && LinePair(l) !in before then before + [LinePair(l)] else before
  }

  function Entries(pairs: seq<Pair>, tag: bool): (r: seq<Tracked>)
    ensures |r| == |pairs| && forall i :: 0 <= i < |r| ==> r[i] == Tracked(pairs[i].mount, pairs[i].device, tag)
  {
    seq(|pairs|, i requires 0 <= i < |pairs| => Tracked(pairs[i].mount, pairs[i].device, tag))
  }

  function AddedOnes(pairs: seq<Pair>): (r: seq<Change>)
    ensures |r| == |pairs| && forall i :: 0 <= i < |r| ==> r[i] == Change(pairs[i].mount, pairs[i].device, "", Added)
  {
    seq(|pairs|, i requires 0 <= i < |pairs| => Change(pairs[i].mount, pairs[i].device, "", Added))
  }

  /** The tracked mounts that are still there. */
  ghost function Staying(entries: seq<Tracked>, seen: set<Pair>): seq<Tracked> {
    if entries == [] then []
    else (if PairOf(entries[0]) in seen then [entries[0].(tag := false)] else []) + Staying(entries[1..], seen)
  }

  /** One report for each tracked mount that has gone; it names the device twice. */
  ghost function RemovedOnes(entries: seq<Tracked>, seen: set<Pair>): seq<Change> {
    if entries == [] then []
    else
      var e := entries[0];
      (if PairOf(e) in seen then [] else [Change(e.device, e.device, "", Removed)]) + RemovedOnes(entries[1..], seen)
  }

  // ---- One line ----

  /** No entry from i on has the mount point or the device of the line. */
  lemma {:induction false} ScanSkips(s: State, l: Line, i: nat, dirs: seq<string>)
    requires i <= |s.entries|
    requires forall j :: i <= j < |s.entries| ==> s.entries[j].mount != l.mount && s.entries[j].device != l.device
    ensures Scan(s, l, i, dirs) == (s, false)
    decreases |s.entries| - i
  {
    if i < |s.entries| {
      ScanSkips(s, l, i + 1, dirs);
    }
  }

  lemma {:induction false} ScanFinds(s: State, l: Line, i: nat, k: nat, dirs: seq<string>)
    requires i <= k < |s.entries| && PairOf(s.entries[k]) == LinePair(l)
    requires forall j :: i <= j < k ==> s.entries[j].mount != l.mount && s.entries[j].device != l.device
    ensures Scan(s, l, i, dirs) == (s.(entries := s.entries[k := s.entries[k].(tag := true)]), true)
    decreases k - i
  {
    if i < k {
      ScanFinds(s, l, i + 1, k, dirs);
    }
  }

  ghost predicate ReportsChange(changes: seq<Change>) {
    exists c :: c in changes && c.tag == Changed
  }

  lemma {:induction false} ScanGrows(s: State, l: Line, i: nat, dirs: seq<string>)
    requires i <= |s.entries|
    ensures s.changes <= Scan(s, l, i, dirs).0.changes
    decreases |s.entries| - i
  {
    if i < |s.entries| && PairOf(s.entries[i]) != LinePair(l) {
      if s.entries[i].mount == l.mount || s.entries[i].device == l.device {
        ScanGrows(Repaired(s, i, l, dirs), l, i + 1, dirs);
      } else {
        ScanGrows(s, l, i + 1, dirs);
      }
    }
  }

  /** Entry k shares one column with the line, and no entry both: the scan reports a change. */
  lemma {:induction false} ScanConflict(s: State, l: Line, i: nat, k: nat, dirs: seq<string>)
    requires i <= k < |s.entries|
    requires s.entries[k].mount == l.mount || s.entries[k].device == l.device
    requires forall j :: i <= j <= k ==> PairOf(s.entries[j]) != LinePair(l)
    ensures ReportsChange(Scan(s, l, i, dirs).0.changes)
    decreases k - i
  {
    if s.entries[i].mount == l.mount || s.entries[i].device == l.device {
      var t := Repaired(s, i, l, dirs);
      ScanGrows(t, l, i + 1, dirs);
      assert t.changes[|s.changes|].tag == Changed;
      assert Scan(t, l, i + 1, dirs).0.changes[|s.changes|] == t.changes[|s.changes|];
    } else {
      ScanConflict(s, l, i + 1, k, dirs);
    }
  }

  lemma ChangesStay(before: seq<Change>, after: seq<Change>)
    requires before <= after && ReportsChange(before)
    ensures ReportsChange(after)
  {
    var c :| c in before && c.tag == Changed;
    assert c in after;
  }

  lemma TakeGrows(s: State, l: Line, dirs: seq<string>)
    ensures s.changes <= Take(s, l, dirs).changes
  {
    ScanGrows(s, l, 0, dirs);
  }

  // ---- The lines of a snapshot ----

  /** The entries after some lines: the old ones tagged if seen, then the new ones. */
  ghost function Tagged(old_: seq<Tracked>, seen: set<Pair>): (r: seq<Tracked>)
    ensures |r| == |old_| && forall i :: 0 <= i < |r| ==> r[i] == old_[i].(tag := PairOf(old_[i]) in seen)
  {
    seq(|old_|, i requires 0 <= i < |old_| => old_[i].(tag := PairOf(old_[i]) in seen))
  }

  ghost function Halfway(old_: seq<Tracked>, lines: seq<Line>): seq<Tracked> {
    Tagged(old_, Seen(lines)) + Entries(New(Known(old_), lines), true)
  }

  lemma {:induction false} NewPairs(known: set<Pair>, lines: seq<Line>)
    ensures forall p :: p in New(known, lines) <==> p in Seen(lines) && p !in known
    ensures forall i, j :: 0 <= i < j < |New(known, lines)| ==> New(known, lines)[i] != New(known, lines)[j]
  {
    if lines != [] {
      var front, l := lines[..|lines| - 1], lines[|lines| - 1];
      NewPairs(known, front);
      assert lines == front + [l];
      SeenSnoc(front, l);
    }
  }

  lemma SeenSnoc(front: seq<Line>, l: Line)
    ensures Seen(front + [l]) == Seen(front) + if Interesting(l) then {LinePair(l)} else {}
  {
    assert forall x :: x in front + [l] <==> x in front || x == l;
  }

  lemma KnownConcat(a: seq<Tracked>, b: seq<Tracked>)
    ensures Known(a + b) == Known(a) + Known(b)
  {
    assert forall e :: e in a + b <==> e in a || e in b;
  }

  lemma SamePairs(a: seq<Tracked>, b: seq<Tracked>)
    requires |a| == |b| && forall i :: 0 <= i < |a| ==> PairOf(a[i]) == PairOf(b[i])
    ensures Known(a) == Known(b)
  {
    forall e | e in a
      ensures PairOf(e) in Known(b)
    {
      var i :| 0 <= i < |a| && a[i] == e;
      assert b[i] in b;
    }
    forall e | e in b
      ensures PairOf(e) in Known(a)
    {
      var i :| 0 <= i < |b| && b[i] == e;
      assert a[i] in a;
    }
  }

  lemma EntriesKnown(pairs: seq<Pair>)
    ensures forall p :: p in Known(Entries(pairs, true)) <==> p in pairs
  {
    var es := Entries(pairs, true);
    forall p | p in pairs
      ensures p in Known(es)
    {
      var i :| 0 <= i < |pairs| && pairs[i] == p;
      assert es[i] in es && PairOf(es[i]) == p;
    }
  }

  lemma HalfwayKnown(old_: seq<Tracked>, lines: seq<Line>)
    ensures Known(Halfway(old_, lines)) == Known(old_) + Seen(lines)
  {
    var t, n := Tagged(old_, Seen(lines)), Entries(New(Known(old_), lines), true);
    NewPairs(Known(old_), lines);
    KnownConcat(t, n);
    SamePairs(t, old_);
    EntriesKnown(New(Known(old_), lines));
  }

  lemma HalfwayPairsDiffer(old_: seq<Tracked>, lines: seq<Line>, i: nat, j: nat)
    requires DistinctMounts(old_) && i < j < |Halfway(old_, lines)|
    ensures PairOf(Halfway(old_, lines)[i]) != PairOf(Halfway(old_, lines)[j])
  {
    var n, news := |old_|, New(Known(old_), lines);
    NewPairs(Known(old_), lines);
    if j < n {
      assert old_[i].mount != old_[j].mount;
    } else {
      assert news[j - n] in news;
      if i < n {
        assert old_[i] in old_ && PairOf(old_[i]) in Known(old_);
      } else {
        assert news[i - n] != news[j - n];
      }
    }
  }

  lemma HalfwayDistinct(old_: seq<Tracked>, lines: seq<Line>)
    requires DistinctMounts(old_) && OneToOne(Known(old_) + Seen(lines))
    ensures DistinctMounts(Halfway(old_, lines))
  {
    var h := Halfway(old_, lines);
    HalfwayKnown(old_, lines);
    forall i, j | 0 <= i < j < |h|
      ensures h[i].mount != h[j].mount
    {
      HalfwayPairsDiffer(old_, lines, i, j);
      assert h[i] in h && h[j] in h && PairOf(h[i]) in Known(h) && PairOf(h[j]) in Known(h);
    }
  }

  /** Tags do not matter for the watches. */
  lemma {:induction false} WatchesIgnoreTags(a: seq<Tracked>, b: seq<Tracked>, dirs: seq<string>)
    requires |a| == |b| && forall i :: 0 <= i < |a| ==> PairOf(a[i]) == PairOf(b[i])
    ensures WatchesOf(a, dirs) == WatchesOf(b, dirs)
  {
    if a != [] {
      var n := |a| - 1;
      assert PairOf(a[n]) == PairOf(b[n]);
      assert forall i :: 0 <= i < n ==> a[..n][i] == a[i] && b[..n][i] == b[i];
      WatchesIgnoreTags(a[..n], b[..n], dirs);
    }
  }

  lemma NewSnoc(known: set<Pair>, front: seq<Line>, l: Line)
    ensures New(known, front + [l]) ==
              New(known, front)
              + if Interesting(l) && LinePair(l) !in known && LinePair(l) !in New(known, front) then [LinePair(l)]
                else []
  {
    assert (front + [l])[..|front|] == front;
  }

  lemma TaggedKnown(old_: seq<Tracked>, seen: set<Pair>, k: nat)
    requires k < |old_| && DistinctMounts(old_)
    ensures Tagged(old_, seen + {PairOf(old_[k])}) == Tagged(old_, seen)[k := old_[k].(tag := true)]
  {
    forall i | 0 <= i < |old_| && i != k
      ensures PairOf(old_[i]) != PairOf(old_[k])
    {
      assert old_[i].mount != old_[k].mount;
    }
  }

  lemma TaggedUnknown(old_: seq<Tracked>, seen: set<Pair>, p: Pair)
    requires p !in Known(old_)
    ensures Tagged(old_, seen + {p}) == Tagged(old_, seen)
  {
    assert forall i :: 0 <= i < |old_| ==> old_[i] in old_ && PairOf(old_[i]) in Known(old_);
  }

  lemma NothingNew(old_: seq<Tracked>, front: seq<Line>, l: Line)
    requires Interesting(l) && (LinePair(l) in Known(old_) || LinePair(l) in New(Known(old_), front))
    ensures New(Known(old_), front + [l]) == New(Known(old_), front)
  {
    NewSnoc(Known(old_), front, l);
    Sequences.Units(New(Known(old_), front));
  }

  lemma OldLine(old_: seq<Tracked>, front: seq<Line>, l: Line, k: nat)
    requires Interesting(l) && k < |old_| && PairOf(old_[k]) == LinePair(l) && DistinctMounts(old_)
    ensures Halfway(old_, front + [l]) == Halfway(old_, front)[k := Halfway(old_, front)[k].(tag := true)]
  {
    assert old_[k] in old_ && PairOf(old_[k]) in Known(old_);
    SeenSnoc(front, l);
    NothingNew(old_, front, l);
    TaggedKnown(old_, Seen(front), k);
    Sequences.UpdateLeft(Tagged(old_, Seen(front)), Entries(New(Known(old_), front), true), k, old_[k].(tag := true));
  }

  lemma RepeatedLine(old_: seq<Tracked>, front: seq<Line>, l: Line, k: nat)
    requires Interesting(l) && k < |New(Known(old_), front)| && New(Known(old_), front)[k] == LinePair(l)
    ensures Halfway(old_, front + [l]) == Halfway(old_, front)
    ensures Halfway(old_, front)[|old_| + k].tag
  {
    NewPairs(Known(old_), front);
    assert LinePair(l) in New(Known(old_), front);
    SeenSnoc(front, l);
    NothingNew(old_, front, l);
    TaggedUnknown(old_, Seen(front), LinePair(l));
  }

  /** A line whose pair is known only sets the tag of its entry. */
  lemma HalfwayKnownLine(old_: seq<Tracked>, front: seq<Line>, l: Line, k: nat)
    requires Interesting(l) && k < |Halfway(old_, front)| && PairOf(Halfway(old_, front)[k]) == LinePair(l)
    requires DistinctMounts(old_)
    ensures Halfway(old_, front + [l]) == Halfway(old_, front)[k := Halfway(old_, front)[k].(tag := true)]
    ensures New(Known(old_), front + [l]) == New(Known(old_), front)
  {
    var n, news := |old_|, New(Known(old_), front);
    if k < n {
      assert old_[k] in old_ && PairOf(old_[k]) == LinePair(l);
      OldLine(old_, front, l, k);
    } else {
      assert news[k - n] == LinePair(l) && LinePair(l) in news;
      RepeatedLine(old_, front, l, k - n);
      Sequences.UpdateSame(Halfway(old_, front), k);
    }
    NothingNew(old_, front, l);
  }

  lemma HalfwayNewLine(old_: seq<Tracked>, front: seq<Line>, l: Line)
    requires Interesting(l) && LinePair(l) !in Known(Halfway(old_, front))
    ensures Halfway(old_, front + [l]) == Halfway(old_, front) + [Tracked(l.mount, l.device, true)]
    ensures New(Known(old_), front + [l]) == New(Known(old_), front) + [LinePair(l)]
  {
    HalfwayKnown(old_, front);
    SeenSnoc(front, l);
    NewSnoc(Known(old_), front, l);
    NewPairs(Known(old_), front);
    TaggedUnknown(old_, Seen(front), LinePair(l));
    assert Entries(New(Known(old_), front) + [LinePair(l)], true)
        == Entries(New(Known(old_), front), true) + [Tracked(l.mount, l.device, true)];
  }

  /** The state that an exact answer is in after some lines. */
  ghost function Exactly(old_: seq<Tracked>, lines: seq<Line>, dirs: seq<string>): State {
    State(Halfway(old_, lines), WatchesOf(Halfway(old_, lines), dirs), AddedOnes(New(Known(old_), lines)))
  }

  /** The entry shares neither column with the line. */
  predicate Unrelated(e: Tracked, l: Line) { e.mount != l.mount && e.device != l.device }

  lemma OthersUnrelated(old_: seq<Tracked>, front: seq<Line>, l: Line)
    requires Interesting(l) && OneToOne(Known(old_) + Seen(front + [l]))
    ensures forall e | e in Halfway(old_, front) && PairOf(e) != LinePair(l) :: Unrelated(e, l)
  {
    HalfwayKnown(old_, front);
    SeenSnoc(front, l);
    forall e | e in Halfway(old_, front) && PairOf(e) != LinePair(l)
      ensures Unrelated(e, l)
    {
      assert PairOf(e) in Known(Halfway(old_, front));
      assert PairOf(e) in Known(old_) + Seen(front + [l]) && LinePair(l) in Known(old_) + Seen(front + [l]);
    }
  }

  lemma TakeExact(old_: seq<Tracked>, front: seq<Line>, l: Line, dirs: seq<string>)
    requires DistinctMounts(old_) && OneToOne(Known(old_) + Seen(front + [l]))
    ensures Take(Exactly(old_, front, dirs), l, dirs) == Exactly(old_, front + [l], dirs)
  {
    var h := Halfway(old_, front);
    SeenSnoc(front, l);
    if !Interesting(l) {
      NewSnoc(Known(old_), front, l);
      assert Seen(front + [l]) == Seen(front);
    } else {
      OneToOneSubset(Known(old_) + Seen(front), Known(old_) + Seen(front + [l]));
      HalfwayDistinct(old_, front);
      OthersUnrelated(old_, front, l);
      if LinePair(l) in Known(h) {
        var e :| e in h && PairOf(e) == LinePair(l);
        var k :| 0 <= k < |h| && h[k] == e;
        TakeKnown(old_, front, l, k, dirs);
      } else {
        TakeNew(old_, front, l, dirs);
      }
    }
  }

  lemma TakeKnown(old_: seq<Tracked>, front: seq<Line>, l: Line, k: nat, dirs: seq<string>)
    requires Interesting(l) && DistinctMounts(old_) && DistinctMounts(Halfway(old_, front))
    requires k < |Halfway(old_, front)| && PairOf(Halfway(old_, front)[k]) == LinePair(l)
    requires forall e | e in Halfway(old_, front) && PairOf(e) != LinePair(l) :: Unrelated(e, l)
    ensures Take(Exactly(old_, front, dirs), l, dirs) == Exactly(old_, front + [l], dirs)
  {
    var s := Exactly(old_, front, dirs);
    var h := s.entries;
    forall j | 0 <= j < k
      ensures h[j].mount != l.mount && h[j].device != l.device
    {
      assert h[j].mount != h[k].mount;
      assert h[j] in h && Unrelated(h[j], l);
    }
    ScanFinds(s, l, 0, k, dirs);
    HalfwayKnownLine(old_, front, l, k);
    WatchesIgnoreTags(h, Halfway(old_, front + [l]), dirs);
  }

  lemma TakeNew(old_: seq<Tracked>, front: seq<Line>, l: Line, dirs: seq<string>)
    requires Interesting(l) && LinePair(l) !in Known(Halfway(old_, front))
    requires forall e | e in Halfway(old_, front) && PairOf(e) != LinePair(l) :: Unrelated(e, l)
    ensures Take(Exactly(old_, front, dirs), l, dirs) == Exactly(old_, front + [l], dirs)
  {
    var h := Halfway(old_, front);
    assert forall j | 0 <= j < |h| :: h[j] in h && PairOf(h[j]) in Known(h);
    HalfwayNewLine(old_, front, l);
    TakeUnrelated(h, New(Known(old_), front), l, dirs);
  }

  lemma TakeUnrelated(h: seq<Tracked>, pairs: seq<Pair>, l: Line, dirs: seq<string>)
    requires Interesting(l) && forall j :: 0 <= j < |h| ==> Unrelated(h[j], l)
    ensures var grown := h + [Tracked(l.mount, l.device, true)];
            Take(State(h, WatchesOf(h, dirs), AddedOnes(pairs)), l, dirs)
              == State(grown, WatchesOf(grown, dirs), AddedOnes(pairs + [LinePair(l)]))
  {
    var e := Tracked(l.mount, l.device, true);
    ScanSkips(State(h, WatchesOf(h, dirs), AddedOnes(pairs)), l, 0, dirs);
    assert (h + [e])[..|h|] == h;
    assert AddedOnes(pairs + [LinePair(l)]) == AddedOnes(pairs) + [Change(l.mount, l.device, "", Added)];
  }

  lemma OneToOneSubset(a: set<Pair>, b: set<Pair>)
    requires OneToOne(b) && a <= b
    ensures OneToOne(a)
  {
  }

  /** While no line re-pairs a mount point or a device, the answer stays exact. */
  lemma {:induction false} TakeAllExact(old_: seq<Tracked>, watches: seq<Watch>, lines: seq<Line>, dirs: seq<string>)
    requires TableOk(old_, watches, dirs) && OneToOne(Known(old_) + Seen(lines))
    ensures TakeAll(State(old_, watches, []), lines, dirs) == Exactly(old_, lines, dirs)
  {
    if lines == [] {
      assert forall i :: 0 <= i < |old_| ==> old_[i] in old_;
      assert Seen([]) == {};
      assert Halfway(old_, []) == old_;
    } else {
      var front, l := lines[..|lines| - 1], lines[|lines| - 1];
      assert lines == front + [l];
      SeenSnoc(front, l);
      OneToOneSubset(Known(old_) + Seen(front), Known(old_) + Seen(lines));
      TakeAllExact(old_, watches, front, dirs);
      TakeExact(old_, front, l, dirs);
    }
  }

  /** The first line that re-pairs something is reported as a change. */
  lemma {:induction false} TakeAllConflict(old_: seq<Tracked>, watches: seq<Watch>, lines: seq<Line>,
                                           dirs: seq<string>)
    requires TableOk(old_, watches, dirs)
    ensures !OneToOne(Known(old_) + Seen(lines)) ==>
              ReportsChange(TakeAll(State(old_, watches, []), lines, dirs).changes)
  {
    if lines == [] {
      assert Known(old_) + Seen([]) == Known(old_);
    } else if !OneToOne(Known(old_) + Seen(lines)) {
      var front, l := lines[..|lines| - 1], lines[|lines| - 1];
      assert lines == front + [l];
      SeenSnoc(front, l);
      var s := TakeAll(State(old_, watches, []), front, dirs);
      if OneToOne(Known(old_) + Seen(front)) {
        TakeAllExact(old_, watches, front, dirs);
        TakeConflict(old_, front, l, dirs);
      } else {
        TakeAllConflict(old_, watches, front, dirs);
        TakeGrows(s, l, dirs);
        ChangesStay(s.changes, Take(s, l, dirs).changes);
      }
    }
  }

  /** A pair that cannot be added shares one column with a pair that is there. */
  lemma Breaks(known: set<Pair>, q: Pair) returns (p: Pair)
    requires OneToOne(known) && !OneToOne(known + {q})
    ensures p in known && (p.mount == q.mount) != (p.device == q.device)
  {
    p :| p in known && (p.mount == q.mount) != (p.device == q.device);
  }

  lemma TakeConflict(old_: seq<Tracked>, front: seq<Line>, l: Line, dirs: seq<string>)
    requires OneToOne(Known(old_) + Seen(front)) && !OneToOne(Known(old_) + Seen(front + [l]))
    ensures ReportsChange(Take(Exactly(old_, front, dirs), l, dirs).changes)
  {
    var s := Exactly(old_, front, dirs);
    var h := s.entries;
    SeenSnoc(front, l);
    HalfwayKnown(old_, front);
    var known := Known(h);
    assert Known(old_) + Seen(front + [l]) == known + {LinePair(l)};
    var p := Breaks(known, LinePair(l));
    var e :| e in h && PairOf(e) == p;
    var k :| 0 <= k < |h| && h[k] == e;
    forall j | 0 <= j <= k
      ensures PairOf(h[j]) != LinePair(l)
    {
      assert h[j] in h && PairOf(h[j]) in known;
    }
    ScanConflict(s, l, 0, k, dirs);
    var (t, found) := Scan(s, l, 0, dirs);
    ChangesStay(t.changes, Take(s, l, dirs).changes);
  }

  // ---- The sweep ----

  lemma {:induction false} UnwatchedConcat(a: seq<Watch>, b: seq<Watch>, mount: string)
    ensures Unwatched(a + b, mount) == Unwatched(a, mount) + Unwatched(b, mount)
  {
    if a == [] {
      assert a + b == b;
    } else {
      assert (a + b)[1..] == a[1..] + b;
      UnwatchedConcat(a[1..], b, mount);
    }
  }

  lemma {:induction false} UnwatchedFor(m: string, device: string, dirs: seq<string>, mount: string)
    ensures Unwatched(WatchesFor(m, device, dirs), mount) == if m == mount then [] else WatchesFor(m, device, dirs)
  {
    if dirs != [] {
      var n := |dirs| - 1;
      var w := Watch(m, m + "/" + dirs[n], device);
      UnwatchedFor(m, device, dirs[..n], mount);
      UnwatchedConcat(WatchesFor(m, device, dirs[..n]), [w], mount);
      assert Unwatched([w], mount) == if m == mount then [] else [w];
    }
  }

  lemma {:induction false} UnwatchedNone(entries: seq<Tracked>, dirs: seq<string>, mount: string)
    requires forall e | e in entries :: e.mount != mount
    ensures Unwatched(WatchesOf(entries, dirs), mount) == WatchesOf(entries, dirs)
  {
    if entries != [] {
      var n := |entries| - 1;
      UnwatchedNone(entries[..n], dirs, mount);
      UnwatchedConcat(WatchesOf(entries[..n], dirs), WatchesFor(entries[n].mount, entries[n].device, dirs), mount);
      UnwatchedFor(entries[n].mount, entries[n].device, dirs, mount);
    }
  }

  /** Dropping the watches of one tracked mount leaves the watches of the others. */
  lemma {:induction false} UnwatchedOne(entries: seq<Tracked>, i: nat, dirs: seq<string>)
    requires i < |entries| && DistinctMounts(entries)
    ensures Unwatched(WatchesOf(entries, dirs), entries[i].mount) == WatchesOf(entries[..i] + entries[i + 1..], dirs)
  {
    var n := |entries| - 1;
    var front, last, mount := entries[..n], entries[n], entries[i].mount;
    UnwatchedConcat(WatchesOf(front, dirs), WatchesFor(last.mount, last.device, dirs), mount);
    UnwatchedFor(last.mount, last.device, dirs, mount);
    assert forall j :: 0 <= j < n ==> front[j] == entries[j];
    if i == n {
      forall e | e in front
        ensures e.mount != mount
      {
        var j :| 0 <= j < n && front[j] == e;
        assert entries[j].mount != entries[n].mount;
      }
      UnwatchedNone(front, dirs, mount);
      Sequences.Units(front);
      Sequences.Units(WatchesOf(front, dirs));
    } else {
      UnwatchedOne(front, i, dirs);
      Sequences.DropBeforeLast(entries, i);
    }
  }

  function KeepOne(e: Tracked): seq<Tracked> {
    if e.tag then [e.(tag := false)] else []
  }

  function DropOne(e: Tracked): seq<Change> {
    if e.tag then [] else [Change(e.device, e.device, "", Removed)]
  }

  function Kept(entries: seq<Tracked>): seq<Tracked> {
    if entries == [] then [] else KeepOne(entries[0]) + Kept(entries[1..])
  }

  function Dropped(entries: seq<Tracked>): seq<Change> {
    if entries == [] then [] else DropOne(entries[0]) + Dropped(entries[1..])
  }

  lemma SweepUnfolds(s: State, i: nat)
    requires i < |s.entries|
    ensures var e := s.entries[i];
            Sweep(s, i) ==
              if e.tag then Sweep(s.(entries := s.entries[i := e.(tag := false)]), i + 1)
              else
                var less := s.entries[..i] + s.entries[i + 1..];
                Sweep(State(less, Unwatched(s.watches, e.mount), s.changes + DropOne(e)), i)
  {
  }

  lemma SweepKeepsOne(done: seq<Tracked>, e: Tracked, more: seq<Tracked>, watches: seq<Watch>, changes: seq<Change>,
                      dirs: seq<string>)
    requires e.tag && DistinctMounts(done + [e] + more) && watches == WatchesOf(done + [e] + more, dirs)
    ensures var next := done + [e.(tag := false)];
            && DistinctMounts(next + more) && watches == WatchesOf(next + more, dirs)
            && Sweep(State(done + [e] + more, watches, changes), |done|)
                 == Sweep(State(next + more, watches, changes), |next|)
  {
    var all, e' := done + [e] + more, e.(tag := false);
    var next := done + [e'] + more;
    SweepUnfolds(State(all, watches, changes), |done|);
    Sequences.Middle(done, e, more, e');
    Sequences.Middle(done, e', more, e');
    SamePairsSameTable(all, next, |done|, dirs);
  }

  lemma SamePairsSameTable(a: seq<Tracked>, b: seq<Tracked>, k: nat, dirs: seq<string>)
    requires k < |a| == |b| && PairOf(a[k]) == PairOf(b[k]) && forall j :: 0 <= j < |a| && j != k ==> b[j] == a[j]
    requires DistinctMounts(a)
    ensures DistinctMounts(b) && WatchesOf(a, dirs) == WatchesOf(b, dirs)
  {
    assert forall j :: 0 <= j < |a| ==> PairOf(a[j]) == PairOf(b[j]);
    assert forall j :: 0 <= j < |a| ==> a[j].mount == b[j].mount;
    WatchesIgnoreTags(a, b, dirs);
  }

  lemma SweepDropsOne(done: seq<Tracked>, e: Tracked, more: seq<Tracked>, watches: seq<Watch>, changes: seq<Change>,
                      dirs: seq<string>)
    requires !e.tag && DistinctMounts(done + [e] + more) && watches == WatchesOf(done + [e] + more, dirs)
    ensures var watches' := WatchesOf(done + more, dirs);
            && DistinctMounts(done + more)
            && Sweep(State(done + [e] + more, watches, changes), |done|)
                 == Sweep(State(done + more, watches', changes + DropOne(e)), |done|)
  {
    var all := done + [e] + more;
    StillDistinct(done, e, more);
    SweepUnfolds(State(all, watches, changes), |done|);
    assert all[|done|] == e && all[..|done|] + all[|done| + 1..] == done + more;
    UnwatchedOne(all, |done|, dirs);
  }

  lemma StillDistinct(done: seq<Tracked>, e: Tracked, more: seq<Tracked>)
    requires DistinctMounts(done + [e] + more)
    ensures DistinctMounts(done + more)
  {
    Sequences.Middle(done, e, more, e);
  }

  /** The result of sweeping `rest` after `done`. */
  ghost function Swept(done: seq<Tracked>, rest: seq<Tracked>, changes: seq<Change>, dirs: seq<string>): State {
    State(done + Kept(rest), WatchesOf(done + Kept(rest), dirs), changes + Dropped(rest))
  }

  lemma SweptOne(done: seq<Tracked>, e: Tracked, more: seq<Tracked>, changes: seq<Change>, dirs: seq<string>)
    ensures e.tag ==> Swept(done, [e] + more, changes, dirs) == Swept(done + [e.(tag := false)], more, changes, dirs)
    ensures !e.tag ==> Swept(done, [e] + more, changes, dirs) == Swept(done, more, changes + DropOne(e), dirs)
  {
    Sequences.Uncons([e], more);
    assert [e][1..] + more == more;
    Sequences.Assoc(done, KeepOne(e), Kept(more));
    Sequences.Assoc(changes, DropOne(e), Dropped(more));
    Sequences.Units(Kept(more));
    Sequences.Units(Dropped(more));
  }

  lemma {:induction false} SweepKeeps(done: seq<Tracked>, rest: seq<Tracked>, watches: seq<Watch>, changes: seq<Change>,
                                      dirs: seq<string>)
    requires DistinctMounts(done + rest) && watches == WatchesOf(done + rest, dirs)
    ensures Sweep(State(done + rest, watches, changes), |done|) == Swept(done, rest, changes, dirs)
    decreases |rest|
  {
    if rest == [] {
      assert done + rest == done && done + Kept([]) == done && changes + [] == changes;
    } else {
      var e, more := rest[0], rest[1..];
      assert rest == [e] + more && done + rest == done + [e] + more;
      SweptOne(done, e, more, changes, dirs);
      if e.tag {
        SweepKeepsOne(done, e, more, watches, changes, dirs);
        SweepKeeps(done + [e.(tag := false)], more, watches, changes, dirs);
      } else {
        SweepDropsOne(done, e, more, watches, changes, dirs);
        SweepKeeps(done, more, WatchesOf(done + more, dirs), changes + DropOne(e), dirs);
      }
    }
  }

  lemma {:induction false} KeptConcat(a: seq<Tracked>, b: seq<Tracked>)
    ensures Kept(a + b) == Kept(a) + Kept(b)
  {
    if a == [] {
      Sequences.Units(b);
      Sequences.Units(Kept(b));
    } else {
      KeptConcat(a[1..], b);
      Sequences.Uncons(a, b);
      Sequences.Assoc(KeepOne(a[0]), Kept(a[1..]), Kept(b));
    }
  }

  lemma {:induction false} DroppedConcat(a: seq<Tracked>, b: seq<Tracked>)
    ensures Dropped(a + b) == Dropped(a) + Dropped(b)
  {
    if a == [] {
      Sequences.Units(b);
      Sequences.Units(Dropped(b));
    } else {
      DroppedConcat(a[1..], b);
      Sequences.Uncons(a, b);
      Sequences.Assoc(DropOne(a[0]), Dropped(a[1..]), Dropped(b));
    }
  }

  lemma {:induction false} KeptOfTagged(old_: seq<Tracked>, seen: set<Pair>)
    ensures Kept(Tagged(old_, seen)) == Staying(old_, seen) && Dropped(Tagged(old_, seen)) == RemovedOnes(old_, seen)
  {
    if old_ != [] {
      assert Tagged(old_, seen)[1..] == Tagged(old_[1..], seen);
      KeptOfTagged(old_[1..], seen);
    }
  }

  lemma {:induction false} KeptOfNew(pairs: seq<Pair>)
    ensures Kept(Entries(pairs, true)) == Entries(pairs, false) && Dropped(Entries(pairs, true)) == []
  {
    if pairs != [] {
      assert Entries(pairs, true)[1..] == Entries(pairs[1..], true);
      KeptOfNew(pairs[1..]);
      assert Entries(pairs, false) == [Entries(pairs, false)[0]] + Entries(pairs[1..], false);
    }
  }

  // ---- The result ----

  /** The table after an exact answer. */
  ghost function NewTable(old_: seq<Tracked>, lines: seq<Line>): seq<Tracked> {
    Staying(old_, Seen(lines)) + Entries(New(Known(old_), lines), false)
  }

  lemma DiffWhenOneToOne(old_: seq<Tracked>, watches: seq<Watch>, lines: seq<Line>, dirs: seq<string>)
    requires TableOk(old_, watches, dirs) && OneToOne(Known(old_) + Seen(lines))
    ensures var table := NewTable(old_, lines);
            Diff(old_, watches, lines, dirs) ==
              State(table, WatchesOf(table, dirs),
                    AddedOnes(New(Known(old_), lines)) + RemovedOnes(old_, Seen(lines)))
  {
    var s := Exactly(old_, lines, dirs);
    TakeAllExact(old_, watches, lines, dirs);
    HalfwayDistinct(old_, lines);
    Sequences.Units(s.entries);
    SweepKeeps([], s.entries, s.watches, s.changes, dirs);
    SweptHalfway(old_, lines);
    Sequences.Units(Kept(s.entries));
  }

  /** What the sweep keeps and what it reports. */
  lemma SweptHalfway(old_: seq<Tracked>, lines: seq<Line>)
    ensures Kept(Halfway(old_, lines)) == NewTable(old_, lines)
    ensures Dropped(Halfway(old_, lines)) == RemovedOnes(old_, Seen(lines))
  {
    KeptConcat(Tagged(old_, Seen(lines)), Entries(New(Known(old_), lines), true));
    DroppedConcat(Tagged(old_, Seen(lines)), Entries(New(Known(old_), lines), true));
    KeptOfTagged(old_, Seen(lines));
    KeptOfNew(New(Known(old_), lines));
  }

  lemma {:induction false} SweepGrows(s: State, i: nat)
    requires i <= |s.entries|
    ensures s.changes <= Sweep(s, i).changes
    decreases |s.entries| - i
  {
    if i < |s.entries| {
      var e := s.entries[i];
      if e.tag {
        SweepGrows(s.(entries := s.entries[i := e.(tag := false)]), i + 1);
      } else {
        SweepGrows(State(s.entries[..i] + s.entries[i + 1..], Unwatched(s.watches, e.mount),
                         s.changes + [Change(e.device, e.device, "", Removed)]), i);
      }
    }
  }

  lemma {:induction false} RemovedOnesAreRemoved(entries: seq<Tracked>, seen: set<Pair>)
    ensures forall c | c in RemovedOnes(entries, seen) :: c.tag == Removed
  {
    if entries != [] {
      RemovedOnesAreRemoved(entries[1..], seen);
    }
  }

  /** A call reports a change, which its caller ignores, exactly when mount points and devices do
      not determine each other across the table and the snapshot. */
  lemma ChangeReportedIff(old_: seq<Tracked>, watches: seq<Watch>, lines: seq<Line>, dirs: seq<string>)
    requires TableOk(old_, watches, dirs)
    ensures ReportsChange(Diff(old_, watches, lines, dirs).changes) <==> !OneToOne(Known(old_) + Seen(lines))
  {
    if OneToOne(Known(old_) + Seen(lines)) {
      DiffWhenOneToOne(old_, watches, lines, dirs);
      RemovedOnesAreRemoved(old_, Seen(lines));
    } else {
      var s := TakeAll(State(old_, watches, []), lines, dirs);
      TakeAllConflict(old_, watches, lines, dirs);
      SweepGrows(s, 0);
      ChangesStay(s.changes, Sweep(s, 0).changes);
    }
  }

  /** The pairs of the tagged entries. */
  ghost function TaggedPairs(entries: seq<Tracked>): set<Pair> {
    set e | e in entries && e.tag :: PairOf(e)
  }

  lemma {:induction false} KeptShape(entries: seq<Tracked>)
    requires DistinctMounts(entries)
    ensures Known(Kept(entries)) == TaggedPairs(entries)
    ensures DistinctMounts(Kept(entries)) && forall e | e in Kept(entries) :: !e.tag
  {
    if entries != [] {
      var e, rest := entries[0], entries[1..];
      assert entries == [e] + rest;
      assert forall j :: 0 <= j < |rest| ==> rest[j] == entries[j + 1];
      KeptShape(rest);
      KeptCons(e, rest);
    }
  }

  lemma KeptCons(e: Tracked, rest: seq<Tracked>)
    requires DistinctMounts([e] + rest) && DistinctMounts(Kept(rest)) && Known(Kept(rest)) == TaggedPairs(rest)
    requires forall x | x in Kept(rest) :: !x.tag
    ensures var t := (if e.tag then [e.(tag := false)] else []) + Kept(rest);
            && Known(t) == TaggedPairs([e] + rest) && DistinctMounts(t) && forall x | x in t :: !x.tag
  {
    var k, e' := Kept(rest), e.(tag := false);
    var t := (if e.tag then [e'] else []) + k;
    assert forall x :: x in t <==> (e.tag && x == e') || x in k;
    TaggedPairsCons(e, rest);
    assert Known(t) == (if e.tag then {PairOf(e)} else {}) + Known(k) by {
      assert PairOf(e') == PairOf(e);
    }
    forall x | x in k
      ensures x.mount != e.mount
    {
      assert PairOf(x) in TaggedPairs(rest);
      var y :| y in rest && PairOf(y) == PairOf(x);
      var j :| 0 <= j < |rest| && rest[j] == y;
      var all := [e] + rest;
      assert all[0] == e && all[j + 1] == y;
      assert PairOf(y).mount == y.mount && PairOf(x).mount == x.mount;
    }
  }

  lemma TaggedPairsCons(e: Tracked, rest: seq<Tracked>)
    ensures TaggedPairs([e] + rest) == (if e.tag then {PairOf(e)} else {}) + TaggedPairs(rest)
  {
    assert forall x :: x in [e] + rest <==> x == e || x in rest;
  }

  lemma HalfwayTagged(old_: seq<Tracked>, lines: seq<Line>)
    ensures TaggedPairs(Halfway(old_, lines)) == Seen(lines)
  {
    var h, news := Halfway(old_, lines), New(Known(old_), lines);
    HalfwayKnown(old_, lines);
    NewPairs(Known(old_), lines);
    forall p | p in TaggedPairs(h)
      ensures p in Seen(lines)
    {
      var e :| e in h && e.tag && PairOf(e) == p;
      var i :| 0 <= i < |h| && h[i] == e;
      assert i >= |old_| ==> news[i - |old_|] == p;
    }
    forall p | p in Seen(lines)
      ensures p in TaggedPairs(h)
    {
      assert p in Known(h);
      var e :| e in h && PairOf(e) == p;
      var i :| 0 <= i < |h| && h[i] == e;
      assert h[i].tag;
    }
  }

  /** The exact answer: the table becomes the snapshot, one ADDED is reported for each new pair and
      one REMOVED for each vanished one and nothing else, and every search directory of every
      tracked mount is watched again. */
  lemma DiffIsExact(old_: seq<Tracked>, watches: seq<Watch>, lines: seq<Line>, dirs: seq<string>)
    requires TableOk(old_, watches, dirs) && OneToOne(Known(old_) + Seen(lines))
    ensures var r := Diff(old_, watches, lines, dirs);
            && Known(r.entries) == Seen(lines) && TableOk(r.entries, r.watches, dirs)
            && r.changes == AddedOnes(New(Known(old_), lines)) + RemovedOnes(old_, Seen(lines))
  {
    var h := Halfway(old_, lines);
    DiffWhenOneToOne(old_, watches, lines, dirs);
    HalfwayDistinct(old_, lines);
    HalfwayTagged(old_, lines);
    KeptConcat(Tagged(old_, Seen(lines)), Entries(New(Known(old_), lines), true));
    KeptOfTagged(old_, Seen(lines));
    KeptOfNew(New(Known(old_), lines));
    KeptShape(h);
    assert NewTable(old_, lines) == Kept(h);
    OneToOneSubset(Seen(lines), Known(old_) + Seen(lines));
  }

  /** Only then is the answer exact. */
  lemma DiffIsExactIff(old_: seq<Tracked>, watches: seq<Watch>, lines: seq<Line>, dirs: seq<string>)
    requires TableOk(old_, watches, dirs)
    ensures var exact := AddedOnes(New(Known(old_), lines)) + RemovedOnes(old_, Seen(lines));
            (Diff(old_, watches, lines, dirs).changes == exact) <==> OneToOne(Known(old_) + Seen(lines))
  {
    ChangeReportedIff(old_, watches, lines, dirs);
    RemovedOnesAreRemoved(old_, Seen(lines));
    if OneToOne(Known(old_) + Seen(lines)) {
      DiffIsExact(old_, watches, lines, dirs);
    }
  }

  // ---- A sequence of calls ----

  ghost function Calls(entries: seq<Tracked>, watches: seq<Watch>, snapshots: seq<seq<Line>>, dirs: seq<string>): State
    decreases |snapshots|
  {
    if snapshots == [] then State(entries, watches, [])
    else
      var r := Diff(entries, watches, snapshots[0], dirs);
      Calls(r.entries, r.watches, snapshots[1..], dirs)
  }

  /** No snapshot re-pairs a mount point or a device of the one before it. */
  ghost predicate NeverRepaired(known: set<Pair>, snapshots: seq<seq<Line>>)
    decreases |snapshots|
  {
    snapshots == [] || (OneToOne(known + Seen(snapshots[0])) && NeverRepaired(Seen(snapshots[0]), snapshots[1..]))
  }

  /** Then after any number of calls the table is the last snapshot, completely watched. */
  lemma {:induction false} TableFollowsSnapshots(entries: seq<Tracked>, watches: seq<Watch>, snapshots: seq<seq<Line>>,
                                                 dirs: seq<string>)
    requires TableOk(entries, watches, dirs) && NeverRepaired(Known(entries), snapshots)
    ensures var r := Calls(entries, watches, snapshots, dirs);
            && TableOk(r.entries, r.watches, dirs)
            && (snapshots != [] ==> Known(r.entries) == Seen(snapshots[|snapshots| - 1]))
    decreases |snapshots|
  {
    if snapshots != [] {
      DiffIsExact(entries, watches, snapshots[0], dirs);
      var r := Diff(entries, watches, snapshots[0], dirs);
      TableFollowsSnapshots(r.entries, r.watches, snapshots[1..], dirs);
    }
  }

  // ---- Which lines are looked at ----

  /** What a line shows in its three columns: no device file, a loop device, or a file system that the
      kernel makes up. */
  predicate PassedOver(l: Line) {
    || l.device == "" || l.device[0] != '/'
    || (|l.device| >= 9 && l.device[..9] == "/dev/loop")
    || l.fstype in {"proc", "devtmpfs", "devpts", "tmpfs"}
  }

  lemma PassedOverIff(l: Line)
    ensures PassedOver(l) <==> !Interesting(l)
  {
    assert |"/dev/loop"| == 9;
    assert "/" <= l.device <==> l.device != "" && l.device[0] == '/';
    assert "/dev/loop" <= l.device <==> |l.device| >= 9 && l.device[..9] == "/dev/loop";
  }

  /** Wherever the line is among others, the call goes as if it were not there. */
  ghost predicate NeverMatters(l: Line) {
    forall entries, watches, before, after, dirs ::
      Diff(entries, watches, before + [l] + after, dirs) == Diff(entries, watches, before + after, dirs)
  }

  lemma {:induction false} TakeAllWithout(s: State, before: seq<Line>, l: Line, after: seq<Line>, dirs: seq<string>)
    requires PassedOver(l)
    ensures TakeAll(s, before + [l] + after, dirs) == TakeAll(s, before + after, dirs)
    decreases |after|
  {
    PassedOverIff(l);
    if after == [] {
      assert (before + [l] + after)[..|before|] == before && before + after == before;
    } else {
      var n := |after| - 1;
      assert (before + [l] + after)[..|before| + 1 + n] == before + [l] + after[..n];
      assert (before + after)[..|before| + n] == before + after[..n];
      TakeAllWithout(s, before, l, after[..n], dirs);
    }
  }

  /** Each pair of the table stays where it is, with its tag or a better one. */
  ghost predicate KeepsPairs(a: seq<Tracked>, b: seq<Tracked>) {
    |a| <= |b| && forall i :: 0 <= i < |a| ==> PairOf(b[i]) == PairOf(a[i]) && (a[i].tag ==> b[i].tag)
  }

  lemma {:induction false} ScanKeepsPairs(s: State, l: Line, i: nat, dirs: seq<string>)
    requires i <= |s.entries|
    ensures var (t, found) := Scan(s, l, i, dirs);
            && KeepsPairs(s.entries, t.entries) && |t.entries| == |s.entries|
            && (found ==> exists k :: 0 <= k < |t.entries| && t.entries[k].tag && PairOf(t.entries[k]) == LinePair(l))
    decreases |s.entries| - i
  {
    if i < |s.entries| {
      if PairOf(s.entries[i]) == LinePair(l) {
        assert Scan(s, l, i, dirs).0.entries[i].tag;
      } else if s.entries[i].mount == l.mount || s.entries[i].device == l.device {
        ScanKeepsPairs(Repaired(s, i, l, dirs), l, i + 1, dirs);
      } else {
        ScanKeepsPairs(s, l, i + 1, dirs);
      }
    }
  }

  /** The pair of the line is in the table and tagged. */
  ghost predicate Present(entries: seq<Tracked>, p: Pair) {
    exists k :: 0 <= k < |entries| && entries[k].tag && PairOf(entries[k]) == p
  }

  lemma TakeKeepsPairs(s: State, l: Line, dirs: seq<string>)
    ensures KeepsPairs(s.entries, Take(s, l, dirs).entries)
    ensures !PassedOver(l) ==> Present(Take(s, l, dirs).entries, LinePair(l))
  {
    PassedOverIff(l);
    if Interesting(l) {
      ScanKeepsPairs(s, l, 0, dirs);
      var (t, found) := Scan(s, l, 0, dirs);
      if !found {
        assert PairOf(Track(t, l, dirs).entries[|t.entries|]) == LinePair(l);
      }
    }
  }

  lemma StillPresent(a: seq<Tracked>, b: seq<Tracked>, p: Pair)
    requires KeepsPairs(a, b) && Present(a, p)
    ensures Present(b, p)
  {
    var k :| 0 <= k < |a| && a[k].tag && PairOf(a[k]) == p;
    assert b[k].tag && PairOf(b[k]) == p;
  }

  lemma {:induction false} AllPresent(s: State, lines: seq<Line>, l: Line, dirs: seq<string>)
    requires l in lines && !PassedOver(l)
    ensures Present(TakeAll(s, lines, dirs).entries, LinePair(l))
  {
    var n := |lines| - 1;
    var front := TakeAll(s, lines[..n], dirs);
    TakeKeepsPairs(front, lines[n], dirs);
    if lines[n] != l {
      assert lines == lines[..n] + [lines[n]];
      AllPresent(s, lines[..n], l, dirs);
      StillPresent(front.entries, TakeAll(s, lines, dirs).entries, LinePair(l));
    }
  }

  /** What is tagged from i on, or has been passed, is in the table after the sweep. */
  lemma {:induction false} SweepKeepsPresent(s: State, i: nat, k: nat)
    requires i <= |s.entries| && k < |s.entries| && (k < i || s.entries[k].tag)
    ensures PairOf(s.entries[k]) in Known(Sweep(s, i).entries)
    decreases |s.entries| - i
  {
    if i == |s.entries| {
      assert s.entries[k] in s.entries;
    } else if s.entries[i].tag {
      var t := s.(entries := s.entries[i := s.entries[i].(tag := false)]);
      SweepKeepsPresent(t, i + 1, k);
    } else {
      var e := s.entries[i];
      var t := State(s.entries[..i] + s.entries[i + 1..], Unwatched(s.watches, e.mount),
                     s.changes + [Change(e.device, e.device, "", Removed)]);
      SweepKeepsPresent(t, i, if k < i then k else k - 1);
    }
  }

  /** Whatever the table was, every line that is not passed over is in it after the call. */
  lemma OtherLinesAreTracked(entries: seq<Tracked>, watches: seq<Watch>, lines: seq<Line>, l: Line, dirs: seq<string>)
    requires l in lines && !PassedOver(l)
    ensures LinePair(l) in Known(Diff(entries, watches, lines, dirs).entries)
  {
    var t := TakeAll(State(entries, watches, []), lines, dirs);
    AllPresent(State(entries, watches, []), lines, l, dirs);
    var k :| 0 <= k < |t.entries| && t.entries[k].tag && PairOf(t.entries[k]) == LinePair(l);
    SweepKeepsPresent(t, 0, k);
  }

  /** Exactly the lines whose device is no file or a loop device, or whose file system is one of four
      that the kernel makes up, never make a difference. */
  lemma LineNeverMattersIff(l: Line)
    ensures NeverMatters(l) <==> PassedOver(l)
  {
    if PassedOver(l) {
      forall entries, watches, before, after, dirs
        ensures Diff(entries, watches, before + [l] + after, dirs) == Diff(entries, watches, before + after, dirs)
      {
        TakeAllWithout(State(entries, watches, []), before, l, after, dirs);
      }
    } else {
      var none: seq<Line> := [];
      OtherLinesAreTracked([], [], none + [l] + none, l, []);
      assert Diff([], [], none + none, []).entries == [];
      assert Diff([], [], none + [l] + none, []) != Diff([], [], none + none, []);
    }
  }
}
