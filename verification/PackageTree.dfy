/** The index of libdbpmgr/dependencies.c as a value: the same tree without its links. What an
    insertion does to it is a function, so that the order in which a walk finds packages is a
    function of the order in which they were inserted. */
module PackageTree {
  import opened DPackages

  /** A missing node, or one with the packages whose name ends there, the list, and the sub-nodes
      if it has been split. */
  datatype Tree = Empty | Branch(matching: seq<DPackage>, list: seq<DPackage>, lookup: seq<Tree>)

  predicate IsSplit(t: Tree) { t.Branch? && |t.lookup| == SLOTS }

  ghost function NoNodes(n: nat): (r: seq<Tree>)
    ensures |r| == n && forall k :: 0 <= k < n ==> r[k] == Empty
  {
    if n == 0 then [] else NoNodes(n - 1) + [Empty]
  }

  function Matching(t: Tree): seq<DPackage> { if t.Empty? then [] else t.matching }

  function List(t: Tree): seq<DPackage> { if t.Empty? then [] else t.list }

  function Nodes(t: Tree): seq<Tree> { if t.Empty? then [] else t.lookup }

  /** package_tree_populate. `bound` is any bound on the lengths of the names in play. */
  ghost function Grow(t: Tree, entry: DPackage, d: nat, bound: nat): Tree
    requires d <= |entry.name| <= bound
    decreases bound - d, 3
  {
    if d == |entry.name| then Branch([entry] + Matching(t), List(t), Nodes(t))
    else if IsSplit(t) then Branch(t.matching, t.list, GrowSlot(t.lookup, entry, d, bound))
    else GrowList(t, entry, d, bound)
  }

  /** The package joins the list, which is split if it has become too long. */
  ghost function GrowList(t: Tree, entry: DPackage, d: nat, bound: nat): Tree
    requires d < |entry.name| <= bound
    decreases bound - d, 2
  {
    var list := [entry] + List(t);
    if |list| > LIST_LIMIT then Branch(Matching(t), [], Distribute(list, NoNodes(SLOTS), d, bound))
    else Branch(Matching(t), list, Nodes(t))
  }

  /** The node for the next character of the name takes the package. */
  ghost function GrowSlot(table: seq<Tree>, entry: DPackage, d: nat, bound: nat): (r: seq<Tree>)
    requires |table| == SLOTS && d < |entry.name| <= bound
    ensures |r| == SLOTS
    decreases bound - d, 0
  {
    table[Slot(entry.name[d]) := Grow(table[Slot(entry.name[d])], entry, d + 1, bound)]
  }

  /** The loop over an overflown list, from the front. All names on it are longer than d. */
  ghost function Distribute(list: seq<DPackage>, table: seq<Tree>, d: nat, bound: nat): (r: seq<Tree>)
    requires |table| == SLOTS
    ensures |r| == SLOTS
    decreases bound - d, 1, |list|
  {
    if list == [] || !(d < |list[0].name| <= bound) then table
    else Distribute(list[1..], GrowSlot(table, list[0], d, bound), d, bound)
  }

  lemma DistributeStep(list: seq<DPackage>, table: seq<Tree>, d: nat, bound: nat)
    requires |table| == SLOTS && list != [] && d < |list[0].name| <= bound
    ensures Distribute(list, table, d, bound) == Distribute(list[1..], GrowSlot(table, list[0], d, bound), d, bound)
  {
  }

  /** The list that find_list gives for a name. */
  ghost function ListIn(t: Tree, name: string, d: nat): seq<DPackage>
    requires d <= |name|
    decreases |name| - d
  {
    if t.Empty? then []
    else if d == |name| then t.matching
    else if |t.lookup| == SLOTS then ListIn(t.lookup[Slot(name[d])], name, d + 1)
    else t.list
  }

  /** The tree after the packages have been inserted one after the other. */
  ghost function BuildTree(entries: seq<DPackage>, bound: nat): Tree
    requires forall p | p in entries :: |p.name| <= bound
  {
    if entries == [] then Empty
    else
      var n := |entries| - 1;
      assert entries[n] in entries;
      Grow(BuildTree(entries[..n], bound), entries[n], 0, bound)
  }

  lemma BuildTreeNext(entries: seq<DPackage>, i: nat, bound: nat)
    requires i < |entries| && forall p | p in entries :: |p.name| <= bound
    ensures BuildTree(entries[..i + 1], bound) == Grow(BuildTree(entries[..i], bound), entries[i], 0, bound)
  {
    assert entries[..i + 1][..i] == entries[..i];
  }

  ghost function LongestName(entries: seq<DPackage>): (n: nat)
    ensures forall p | p in entries :: |p.name| <= n
  {
    if entries == [] then 0
    else
      var n := LongestName(entries[1..]);
      assert entries == [entries[0]] + entries[1..];
      if |entries[0].name| > n then |entries[0].name| else n
  }

  ghost function Inserted(entries: seq<DPackage>): Tree { BuildTree(entries, LongestName(entries)) }

  // ---- The tree holds what has been inserted ----

  ghost function InSlot(pkgs: set<DPackage>, d: nat, k: nat): set<DPackage> {
    set p | p in pkgs && |p.name| > d && Slot(p.name[d]) == k
  }

  /** A tree at depth d that holds exactly these packages, each where a search looks for it. */
  ghost predicate Stores(t: Tree, d: nat, pkgs: set<DPackage>)
    decreases t
  {
    if t.Empty? then pkgs == {}
    else
      && Distinct(t.matching) && Distinct(t.list)
      && (forall p | p in pkgs :: |p.name| >= d)
      && Elements(t.matching) == (set p | p in pkgs && |p.name| == d)
      && (|t.lookup| != SLOTS ==> t.lookup == [] && Elements(t.list) == (set p | p in pkgs && |p.name| > d))
      && (|t.lookup| == SLOTS ==>
            t.list == [] && forall k: nat | k < SLOTS :: Stores(t.lookup[k], d + 1, InSlot(pkgs, d, k)))
  }

  ghost predicate TableStores(table: seq<Tree>, d: nat, pkgs: set<DPackage>) {
    |table| == SLOTS && forall k: nat | k < SLOTS :: Stores(table[k], d + 1, InSlot(pkgs, d, k))
  }

  lemma DistinctCons(p: DPackage, s: seq<DPackage>)
    requires Distinct(s) && p !in Elements(s)
    ensures Distinct([p] + s) && Elements([p] + s) == {p} + Elements(s)
  {
  }

  lemma OneSlotGrows(table: seq<Tree>, d: nat, pkgs: set<DPackage>, p: DPackage, grown: Tree)
    requires TableStores(table, d, pkgs) && |p.name| > d
    requires Stores(grown, d + 1, InSlot(pkgs, d, Slot(p.name[d])) + {p})
    ensures TableStores(table[Slot(p.name[d]) := grown], d, pkgs + {p})
  {
    var k := Slot(p.name[d]);
    forall j: nat | j < SLOTS
      ensures Stores(table[k := grown][j], d + 1, InSlot(pkgs + {p}, d, j))
    {
      if j == k {
        assert InSlot(pkgs + {p}, d, j) == InSlot(pkgs, d, j) + {p};
      } else {
        assert InSlot(pkgs + {p}, d, j) == InSlot(pkgs, d, j);
      }
    }
  }

  lemma {:induction false} GrowStores(t: Tree, entry: DPackage, d: nat, bound: nat, pkgs: set<DPackage>)
    requires d <= |entry.name| <= bound && Stores(t, d, pkgs) && entry !in pkgs
    requires forall p | p in pkgs :: |p.name| <= bound
    ensures Stores(Grow(t, entry, d, bound), d, pkgs + {entry})
    decreases bound - d, 3
  {
    if t.Empty? {
      FirstStores(entry, d, bound);
    } else if d == |entry.name| {
      MatchStores(t, entry, d, pkgs);
    } else if IsSplit(t) {
      SlotStores(t.lookup, entry, d, bound, pkgs);
      LongerOnly(entry, d, pkgs);
    } else if |t.list| + 1 > LIST_LIMIT {
      OverflowStores(t, entry, d, bound, pkgs);
    } else {
      LongerOnly(entry, d, pkgs);
      DistinctCons(entry, t.list);
      assert Grow(t, entry, d, bound) == Branch(t.matching, [entry] + t.list, t.lookup);
    }
  }

  /** A longer name changes nothing in the set of names that end at d. */
  lemma LongerOnly(entry: DPackage, d: nat, pkgs: set<DPackage>)
    requires d < |entry.name|
    ensures (set p | p in pkgs + {entry} && |p.name| == d) == set p | p in pkgs && |p.name| == d
    ensures (set p | p in pkgs + {entry} && |p.name| > d) == (set p | p in pkgs && |p.name| > d) + {entry}
  {
  }

  lemma {:induction false} OverflowStores(t: Tree, entry: DPackage, d: nat, bound: nat, pkgs: set<DPackage>)
    requires t.Branch? && d < |entry.name| <= bound && Stores(t, d, pkgs) && entry !in pkgs
    requires !IsSplit(t) && |t.list| + 1 > LIST_LIMIT
    requires forall p | p in pkgs :: |p.name| <= bound
    ensures Stores(GrowList(t, entry, d, bound), d, pkgs + {entry})
    decreases bound - d, 2
  {
    var list := [entry] + t.list;
    var longer := set p | p in pkgs && |p.name| > d;
    LongerOnly(entry, d, pkgs);
    DistinctCons(entry, t.list);
    NothingStored(d);
    assert forall p | p in list :: p in longer + {entry} by {
      assert forall p | p in list :: p in Elements(list);
    }
    DistributeStores(list, NoNodes(SLOTS), d, bound, {});
    assert {} + Elements(list) == longer + {entry};
    SlotsOfLonger(Distribute(list, NoNodes(SLOTS), d, bound), d, pkgs + {entry}, {} + Elements(list));
  }

  /** A table only looks at the names that are longer than d. */
  lemma SlotsOfLonger(table: seq<Tree>, d: nat, pkgs: set<DPackage>, longer: set<DPackage>)
    requires longer == (set p | p in pkgs && |p.name| > d) && TableStores(table, d, longer)
    ensures TableStores(table, d, pkgs)
  {
    forall k: nat | k < SLOTS
      ensures Stores(table[k], d + 1, InSlot(pkgs, d, k))
    {
      assert InSlot(longer, d, k) == InSlot(pkgs, d, k);
    }
  }

  lemma {:induction false} SlotStores(table: seq<Tree>, entry: DPackage, d: nat, bound: nat, pkgs: set<DPackage>)
    requires d < |entry.name| <= bound && TableStores(table, d, pkgs) && entry !in pkgs
    requires forall p | p in pkgs :: |p.name| <= bound
    ensures TableStores(GrowSlot(table, entry, d, bound), d, pkgs + {entry})
    decreases bound - d, 0
  {
    var k := Slot(entry.name[d]);
    GrowStores(table[k], entry, d + 1, bound, InSlot(pkgs, d, k));
    OneSlotGrows(table, d, pkgs, entry, Grow(table[k], entry, d + 1, bound));
  }

  lemma NothingStored(d: nat)
    ensures TableStores(NoNodes(SLOTS), d, {})
  {
  }

  lemma FirstStores(entry: DPackage, d: nat, bound: nat)
    requires d <= |entry.name| <= bound
    ensures Stores(Grow(Empty, entry, d, bound), d, {entry})
  {
    assert [entry] + [] == [entry];
    assert d < |entry.name| ==> Grow(Empty, entry, d, bound) == Branch([], [entry], []);
  }

  lemma MatchStores(t: Tree, entry: DPackage, d: nat, pkgs: set<DPackage>)
    requires t.Branch? && Stores(t, d, pkgs) && entry !in pkgs && |entry.name| == d
    ensures Stores(Branch([entry] + t.matching, t.list, t.lookup), d, pkgs + {entry})
  {
    DistinctCons(entry, t.matching);
    assert (set p | p in pkgs + {entry} && |p.name| == d) == (set p | p in pkgs && |p.name| == d) + {entry};
    assert (set p | p in pkgs + {entry} && |p.name| > d) == set p | p in pkgs && |p.name| > d;
    forall k: nat | k < SLOTS
      ensures InSlot(pkgs + {entry}, d, k) == InSlot(pkgs, d, k)
    {
    }
  }

  lemma {:induction false} DistributeStores(list: seq<DPackage>, table: seq<Tree>, d: nat, bound: nat,
                                            pkgs: set<DPackage>)
    requires TableStores(table, d, pkgs) && Distinct(list)
    requires forall p | p in list :: d < |p.name| <= bound && p !in pkgs
    requires forall p | p in pkgs :: |p.name| <= bound
    ensures TableStores(Distribute(list, table, d, bound), d, pkgs + Elements(list))
    decreases bound - d, 1, |list|
  {
    if list == [] {
      assert pkgs + Elements([]) == pkgs;
    } else {
      var p, rest := list[0], list[1..];
      assert list == [p] + rest && p in list;
      SlotStores(table, p, d, bound, pkgs);
      assert forall q | q in rest :: q in list && q != p;
      DistributeStores(rest, GrowSlot(table, p, d, bound), d, bound, pkgs + {p});
      assert pkgs + {p} + Elements(rest) == pkgs + Elements(list);
    }
  }

  lemma {:induction false} ListCovers(t: Tree, name: string, d: nat, pkgs: set<DPackage>)
    requires d <= |name| && Stores(t, d, pkgs)
    ensures Covers(ListIn(t, name, d), pkgs, name)
    decreases |name| - d
  {
    if t.Branch? {
      if d == |name| {
        assert forall p :: p in t.matching <==> p in Elements(t.matching);
      } else if |t.lookup| == SLOTS {
        var k := Slot(name[d]);
        ListCovers(t.lookup[k], name, d + 1, InSlot(pkgs, d, k));
      } else {
        assert forall p :: p in t.list <==> p in Elements(t.list);
      }
    }
  }

  lemma {:induction false} BuildStores(entries: seq<DPackage>, bound: nat)
    requires Distinct(entries) && forall p | p in entries :: |p.name| <= bound
    ensures Stores(BuildTree(entries, bound), 0, Elements(entries))
  {
    if entries != [] {
      var n := |entries| - 1;
      var front, p := entries[..n], entries[n];
      assert entries == front + [p] && p in entries;
      BuildStores(front, bound);
      GrowStores(BuildTree(front, bound), p, 0, bound, Elements(front));
      assert Elements(front) + {p} == Elements(entries);
    }
  }

  /** The list for a name has the inserted packages with that name on it. */
  lemma InsertedCovers(entries: seq<DPackage>, name: string)
    requires Distinct(entries)
    ensures Covers(ListIn(Inserted(entries), name, 0), Elements(entries), name)
  {
    BuildStores(entries, LongestName(entries));
    ListCovers(Inserted(entries), name, 0, Elements(entries));
  }

  // ---- When the table of character classes is needed ----

  ghost function Nameful(entries: seq<DPackage>): nat {
    if entries == [] then 0
    else
      var n := |entries| - 1;
      Nameful(entries[..n]) + if entries[n].name == "" then 0 else 1
  }

  /** An index is split, which takes the table of character classes, exactly if it gets more packages
      than fit on the first list; those without a name do not count. */
  lemma {:induction false} SplitIff(entries: seq<DPackage>, bound: nat)
    requires forall p | p in entries :: |p.name| <= bound
    ensures var t := BuildTree(entries, bound);
            && (IsSplit(t) <==> Nameful(entries) > 25)
            && (!IsSplit(t) ==> Nodes(t) == [] && |List(t)| == Nameful(entries))
  {
    if entries != [] {
      var n := |entries| - 1;
      assert entries[n] in entries;
      SplitIff(entries[..n], bound);
      GrowSplits(BuildTree(entries[..n], bound), entries[n], bound);
    }
  }

  lemma GrowSplits(t: Tree, entry: DPackage, bound: nat)
    requires |entry.name| <= bound && (!IsSplit(t) ==> Nodes(t) == [])
    ensures var grown := Grow(t, entry, 0, bound);
            var size := |List(t)| + if entry.name == "" then 0 else 1;
            && (IsSplit(t) ==> IsSplit(grown))
            && (!IsSplit(t) && |List(t)| <= LIST_LIMIT ==>
                  && (IsSplit(grown) <==> size > LIST_LIMIT)
                  && (!IsSplit(grown) ==> Nodes(grown) == [] && |List(grown)| == size))
  {
  }

  // ---- Exchanging two packages of the same name ----

  ghost function Swap(p: DPackage, q: DPackage, x: DPackage): DPackage {
    if x == p then q else if x == q then p else x
  }

  ghost function SwapAll(p: DPackage, q: DPackage, s: seq<DPackage>): (r: seq<DPackage>)
    ensures |r| == |s| && forall i :: 0 <= i < |r| ==> r[i] == Swap(p, q, s[i])
  {
    seq(|s|, i requires 0 <= i < |s| => Swap(p, q, s[i]))
  }

  ghost function SwapTree(p: DPackage, q: DPackage, t: Tree): Tree {
    if t.Empty? then Empty else Branch(SwapAll(p, q, t.matching), SwapAll(p, q, t.list), SwapTrees(p, q, t.lookup))
  }

  ghost function SwapTrees(p: DPackage, q: DPackage, ts: seq<Tree>): (r: seq<Tree>)
    ensures |r| == |ts| && forall i :: 0 <= i < |r| ==> r[i] == SwapTree(p, q, ts[i])
  {
    seq(|ts|, i requires 0 <= i < |ts| => SwapTree(p, q, ts[i]))
  }

  lemma SwapKeeps(p: DPackage, q: DPackage, s: seq<DPackage>)
    requires Distinct(s) && p in s && q in s
    ensures Distinct(SwapAll(p, q, s)) && Elements(SwapAll(p, q, s)) == Elements(s)
  {
    var r := SwapAll(p, q, s);
    forall x | x in s
      ensures x in r
    {
      var i :| 0 <= i < |s| && s[i] == Swap(p, q, x);
      assert r[i] == x;
    }
  }

  lemma SwapCons(p: DPackage, q: DPackage, x: DPackage, s: seq<DPackage>)
    ensures SwapAll(p, q, [x] + s) == [Swap(p, q, x)] + SwapAll(p, q, s)
  {
  }

  lemma SwapNoNodes(p: DPackage, q: DPackage)
    ensures SwapTrees(p, q, NoNodes(SLOTS)) == NoNodes(SLOTS)
  {
  }

  lemma SwapUpdate(p: DPackage, q: DPackage, ts: seq<Tree>, k: nat, t: Tree)
    requires k < |ts|
    ensures SwapTrees(p, q, ts[k := t]) == SwapTrees(p, q, ts)[k := SwapTree(p, q, t)]
  {
  }

  lemma {:induction false} GrowSwaps(p: DPackage, q: DPackage, t: Tree, entry: DPackage, d: nat, bound: nat)
    requires p.name == q.name && d <= |entry.name| <= bound
    ensures |Swap(p, q, entry).name| == |entry.name|
    ensures SwapTree(p, q, Grow(t, entry, d, bound)) == Grow(SwapTree(p, q, t), Swap(p, q, entry), d, bound)
    decreases bound - d, 2
  {
    SwapCons(p, q, entry, Matching(t));
    SwapCons(p, q, entry, List(t));
    if d < |entry.name| {
      if IsSplit(t) {
        SlotSwaps(p, q, t.lookup, entry, d, bound);
      } else if |List(t)| + 1 > LIST_LIMIT {
        SwapNoNodes(p, q);
        DistributeSwaps(p, q, [entry] + List(t), NoNodes(SLOTS), d, bound);
      }
    }
  }

  lemma {:induction false} SlotSwaps(p: DPackage, q: DPackage, table: seq<Tree>, entry: DPackage, d: nat, bound: nat)
    requires p.name == q.name && |table| == SLOTS && d < |entry.name| <= bound
    ensures SwapTrees(p, q, GrowSlot(table, entry, d, bound))
            == GrowSlot(SwapTrees(p, q, table), Swap(p, q, entry), d, bound)
    decreases bound - d, 0
  {
    var k := Slot(entry.name[d]);
    GrowSwaps(p, q, table[k], entry, d + 1, bound);
    SwapUpdate(p, q, table, k, Grow(table[k], entry, d + 1, bound));
  }

  lemma {:induction false} DistributeSwaps(p: DPackage, q: DPackage, list: seq<DPackage>, table: seq<Tree>, d: nat,
                                           bound: nat)
    requires p.name == q.name && |table| == SLOTS
    ensures SwapTrees(p, q, Distribute(list, table, d, bound))
            == Distribute(SwapAll(p, q, list), SwapTrees(p, q, table), d, bound)
    decreases bound - d, 1, |list|
  {
    if list != [] && d < |list[0].name| <= bound {
      var x, rest := list[0], list[1..];
      assert list == [x] + rest;
      SwapCons(p, q, x, rest);
      SlotSwaps(p, q, table, x, d, bound);
      DistributeSwaps(p, q, rest, GrowSlot(table, x, d, bound), d, bound);
    }
  }

  lemma {:induction false} ListSwaps(p: DPackage, q: DPackage, t: Tree, name: string, d: nat)
    requires d <= |name|
    ensures ListIn(SwapTree(p, q, t), name, d) == SwapAll(p, q, ListIn(t, name, d))
    decreases |name| - d
  {
    if t.Branch? && d < |name| && |t.lookup| == SLOTS {
      ListSwaps(p, q, t.lookup[Slot(name[d])], name, d + 1);
    }
  }

  lemma {:induction false} LongestNameSwaps(p: DPackage, q: DPackage, entries: seq<DPackage>)
    requires p.name == q.name
    ensures LongestName(SwapAll(p, q, entries)) == LongestName(entries)
  {
    if entries != [] {
      assert SwapAll(p, q, entries)[1..] == SwapAll(p, q, entries[1..]);
      LongestNameSwaps(p, q, entries[1..]);
    }
  }

  lemma {:induction false} BuildSwaps(p: DPackage, q: DPackage, entries: seq<DPackage>, bound: nat)
    requires p.name == q.name
    requires forall x | x in entries :: |x.name| <= bound
    requires forall x | x in SwapAll(p, q, entries) :: |x.name| <= bound
    ensures BuildTree(SwapAll(p, q, entries), bound) == SwapTree(p, q, BuildTree(entries, bound))
  {
    if entries != [] {
      var n := |entries| - 1;
      assert entries[n] in entries;
      assert SwapAll(p, q, entries)[..n] == SwapAll(p, q, entries[..n]);
      BuildSwaps(p, q, entries[..n], bound);
      GrowSwaps(p, q, BuildTree(entries[..n], bound), entries[n], 0, bound);
    }
  }

  /** Exchanging two packages of the same name in the order of insertion exchanges them on every
      list. */
  lemma InsertionSwaps(p: DPackage, q: DPackage, entries: seq<DPackage>, name: string)
    requires p.name == q.name
    ensures ListIn(Inserted(SwapAll(p, q, entries)), name, 0) == SwapAll(p, q, ListIn(Inserted(entries), name, 0))
  {
    LongestNameSwaps(p, q, entries);
    BuildSwaps(p, q, entries, LongestName(entries));
    ListSwaps(p, q, Inserted(entries), name, 0);
  }
}
