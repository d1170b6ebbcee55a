/** The package index of libdbpmgr/dependencies.c: a tree of nodes that are split lazily, linked
    through the packages themselves. Every node keeps the packages whose name ends there
    (`matching`), a short unsorted list of longer names (`list`), and, once that list has
    overflowed, a table of sub-nodes indexed by the class of the next character. */
module PackageIndex {
  import opened DPackages
  import opened PackageTree

  /** The packages of `s`, in that order, are linked from `head` to null. */
  ghost predicate Chain(head: DPackage?, s: seq<DPackage>)
    reads s
  {
    && head == (if s == [] then null else s[0])
    && forall i :: 0 <= i < |s| ==> s[i].next == After(s, i)
  }

  ghost function After(s: seq<DPackage>, i: nat): DPackage?
    requires i < |s|
  {
    if i + 1 < |s| then s[i + 1] else null
  }

  lemma ChainPush(entry: DPackage, s: seq<DPackage>)
    requires Chain(entry.next, s) && Distinct(s) && entry !in s
    ensures Chain(entry, [entry] + s) && Distinct([entry] + s)
    ensures Elements([entry] + s) == {entry} + Elements(s)
  {
    var t := [entry] + s;
    forall i | 0 <= i < |t|
      ensures t[i].next == After(t, i)
    {
      if 0 < i {
        assert t[i] == s[i - 1];
      }
    }
  }

  lemma ChainPop(head: DPackage, s: seq<DPackage>)
    requires Chain(head, s) && Distinct(s)
    ensures s != [] && s[0] == head && head !in s[1..]
    ensures Chain(head.next, s[1..]) && Distinct(s[1..])
    ensures Elements(s) == {head} + Elements(s[1..])
  {
    assert s == [head] + s[1..];
    var t := s[1..];
    forall i | 0 <= i < |t|
      ensures t[i].next == After(t, i)
    {
      assert t[i] == s[i + 1];
    }
    assert s[0].next == After(s, 0);
  }

  class Node {
    var matching: DPackage?
    var list: DPackage?
    var listSize: nat
    var lookup: Table?

    ghost var matchSeq: seq<DPackage>   // the packages linked from `matching`
    ghost var listSeq: seq<DPackage>    // the packages linked from `list`
    ghost var pkgs: set<DPackage>       // every package of the subtree
    ghost var tree: Tree                // the subtree as a value
    ghost var Repr: set<object>

    /** `tree` is the node as a value. */
    ghost predicate Mirrored()
      reads this, lookup
    {
      tree == Branch(matchSeq, listSeq, if lookup == null then [] else lookup.trees)
    }

    /** The node sits at depth d: names end here or go on, a split node has an empty list,
        an unsplit one a short list, and nothing is held twice. */
    ghost predicate Valid(d: nat)
      reads this, Repr
      decreases Repr, 1
    {
      && this in Repr && (lookup != null ==> lookup in Repr) && Mirrored()
      && (forall p | p in matchSeq :: p in Repr && |p.name| == d)
      && (forall p | p in listSeq :: p in Repr && |p.name| > d)
      && Distinct(matchSeq) && Distinct(listSeq)
      && Chain(matching, matchSeq) && Chain(list, listSeq)
      && listSize == |listSeq| <= LIST_LIMIT
      && (lookup == null ==> pkgs == Elements(matchSeq) + Elements(listSeq))
      && (lookup != null ==>
            && listSeq == []
            && lookup.Repr <= Repr && this !in lookup.Repr
            && lookup.Valid(d)
            && (forall p | p in matchSeq :: p !in lookup.Repr)
            && pkgs == Elements(matchSeq) + lookup.pkgs)
    }

    lemma OwnsPackages(d: nat)
      requires Valid(d)
      ensures forall p | p in pkgs :: p in Repr
    {
      if lookup != null {
        assert lookup.Valid(d);
        forall p | p in lookup.pkgs
          ensures p in lookup.Repr
        {
          assert lookup.SlotValid(d, Slot(p.name[d]));
        }
      }
    }

    /** An unsplit node whose list may have overflowed. */
    ghost predicate Overflowing(d: nat)
      reads this, Repr
    {
      && this in Repr && lookup == null
      && (forall p | p in matchSeq :: p in Repr && |p.name| == d)
      && (forall p | p in listSeq :: p in Repr && |p.name| > d)
      && Distinct(matchSeq) && Distinct(listSeq)
      && Chain(matching, matchSeq) && Chain(list, listSeq)
      && pkgs == Elements(matchSeq) + Elements(listSeq)
    }

    constructor ()
      ensures pkgs == {} && fresh(Repr) && Repr == {this}
      ensures forall d: nat :: Valid(d)
      ensures lookup == null && tree == Branch([], [], [])
    {
      matching, list, listSize, lookup := null, null, 0, null;
      matchSeq, listSeq, pkgs, tree := [], [], {}, Branch([], [], []);
      Repr := {this};
    }

    method PushMatching(entry: DPackage, d: nat)
      requires Valid(d) && entry !in Repr && |entry.name| == d
      modifies this, entry
      ensures Valid(d) && pkgs == old(pkgs) + {entry} && Repr == old(Repr) + {entry}
      ensures tree == Branch([entry] + Matching(old(tree)), List(old(tree)), Nodes(old(tree)))
    {
      ghost var before := pkgs;
      LinkMatching(entry, d);
      if lookup == null {
        Count(d);
      } else {
        Absorb(d);
      }
      assert pkgs == before + {entry};
    }

    method LinkMatching(entry: DPackage, d: nat)
      requires Valid(d) && entry !in Repr && |entry.name| == d
      modifies this`matching, this`matchSeq, this`Repr, entry
      ensures Repr == old(Repr) + {entry}
      ensures matchSeq == [entry] + Matching(tree) && listSeq == List(tree)
      ensures Named(d)
      ensures Elements(matchSeq) == {entry} + Elements(Matching(tree))
      ensures lookup == null ==> pkgs == Elements(Matching(tree)) + Elements(listSeq)
      ensures lookup != null ==>
                && lookup in Repr && lookup.Repr <= Repr && this !in lookup.Repr && lookup.Valid(d)
                && (forall p | p in matchSeq :: p !in lookup.Repr)
                && listSeq == [] && lookup.trees == Nodes(tree) && pkgs == Elements(Matching(tree)) + lookup.pkgs
    {
      entry.next := matching;
      ChainPush(entry, matchSeq);
      matching := entry;
      matchSeq := [entry] + matchSeq;
      Repr := Repr + {entry};
    }

    /** The two lists of the node, whatever its table. */
    ghost predicate Named(d: nat)
      reads this, matchSeq, listSeq
    {
      && this in Repr
      && (forall p | p in matchSeq :: p in Repr && |p.name| == d)
      && (forall p | p in listSeq :: p in Repr && |p.name| > d)
      && Distinct(matchSeq) && Distinct(listSeq)
      && Chain(matching, matchSeq) && Chain(list, listSeq)
      && listSize == |listSeq| <= LIST_LIMIT
    }

    /** Brings what is known about an unsplit node up to date with its lists. */
    ghost method Count(d: nat)
      requires Named(d) && lookup == null
      modifies this`pkgs, this`tree
      ensures Valid(d) && pkgs == Elements(matchSeq) + Elements(listSeq) && tree == Branch(matchSeq, listSeq, [])
    {
      pkgs, tree := Elements(matchSeq) + Elements(listSeq), Branch(matchSeq, listSeq, []);
    }

    /** root->lookup takes over what was in root->list. */
    method Adopt(table: Table, d: nat)
      requires this in Repr && Distinct(matchSeq) && Chain(matching, matchSeq)
      requires forall p | p in matchSeq :: p in Repr && |p.name| == d && p !in table.Repr
      requires table.Valid(d) && this !in table.Repr && pkgs == Elements(matchSeq) + table.pkgs
      modifies this
      ensures Valid(d) && pkgs == old(pkgs) && Repr == old(Repr) + table.Repr
      ensures tree == Branch(old(matchSeq), [], table.trees)
    {
      list, listSize, lookup := null, 0, table;
      Absorb(d);
    }

    /** Brings what is known about the node up to date with its table. */
    ghost method Absorb(d: nat)
      requires this in Repr && Distinct(matchSeq) && Chain(matching, matchSeq)
      requires list == null && listSize == 0 && lookup != null && lookup.Valid(d) && this !in lookup.Repr
      requires forall p | p in matchSeq :: p in Repr && |p.name| == d && p !in lookup.Repr
      modifies this`listSeq, this`pkgs, this`tree, this`Repr
      ensures Valid(d) && pkgs == Elements(matchSeq) + lookup.pkgs && Repr == old(Repr) + lookup.Repr
      ensures tree == Branch(matchSeq, [], lookup.trees)
    {
      listSeq, tree := [], Branch(matchSeq, [], lookup.trees);
      pkgs, Repr := Elements(matchSeq) + lookup.pkgs, Repr + lookup.Repr;
    }

    method PushList(entry: DPackage, d: nat)
      requires Valid(d) && lookup == null && entry !in Repr && |entry.name| > d
      modifies this, entry
      ensures Overflowing(d) && pkgs == old(pkgs) + {entry} && Repr == old(Repr) + {entry}
      ensures listSize == |listSeq| == old(listSize) + 1
      ensures matchSeq == Matching(old(tree)) && listSeq == [entry] + List(old(tree))
      ensures tree == Branch(matchSeq, listSeq, [])
    {
      entry.next := list;
      ChainPush(entry, listSeq);
      list := entry;
      listSize := listSize + 1;
      listSeq := [entry] + listSeq;
      tree := Branch(matchSeq, listSeq, []);
      pkgs := pkgs + {entry};
      Repr := Repr + {entry};
    }
  }

  /** The calloc'ed `lookup` array of a split node. */
  class Table {
    var slots: seq<Node?>
    ghost var trees: seq<Tree>   // the nodes as values
    ghost var pkgs: set<DPackage>
    ghost var Repr: set<object>

    ghost predicate SlotValid(d: nat, k: nat)
      requires k < |slots|
      reads this, Repr
      decreases Repr, 0, 0
    {
      && this in Repr && (slots[k] != null ==> slots[k] in Repr)
      && k < |trees| && trees[k] == TreeOf(slots[k])
      && (slots[k] != null ==>
            && slots[k].Repr <= Repr && this !in slots[k].Repr
            && slots[k].Valid(d + 1)
            && (forall p | p in slots[k].pkgs :: |p.name| > d && Slot(p.name[d]) == k && p in pkgs && p in Repr))
    }

    /** Every node of the table is valid one level down and holds the packages of its slot, and the
        nodes share nothing. */
    ghost predicate Valid(d: nat)
      reads this, Repr
      decreases Repr, 0, 1
    {
      && this in Repr && |slots| == SLOTS == |trees|
      && (forall k: nat | k < SLOTS :: SlotValid(d, k))
      && (forall j, k | 0 <= j < k < SLOTS && slots[j] != null && slots[k] != null ::
            slots[j] in Repr && slots[k] in Repr && slots[j].Repr !! slots[k].Repr)
      && (forall p | p in pkgs ::
            && |p.name| > d
            && slots[Slot(p.name[d])] != null
            && slots[Slot(p.name[d])] in Repr
            && p in slots[Slot(p.name[d])].pkgs)
    }

    constructor ()
      ensures pkgs == {} && Repr == {this} && trees == NoNodes(SLOTS)
      ensures forall d: nat :: Valid(d)
    {
      slots := seq(SLOTS, _ => null);
      trees, pkgs := NoNodes(SLOTS), {};
      Repr := {this};
    }

    /** Valid, except for slot k, whose node is being rebuilt. */
    ghost predicate ValidBut(d: nat, k: nat)
      requires k < SLOTS
      reads this, Repr
    {
      && this in Repr && |slots| == SLOTS == |trees|
      && (forall j: nat | j < SLOTS && j != k :: SlotValid(d, j))
      && (forall i, j | 0 <= i < j < SLOTS && i != k && j != k && slots[i] != null && slots[j] != null ::
            slots[i] in Repr && slots[j] in Repr && slots[i].Repr !! slots[j].Repr)
      && (forall p | p in pkgs ::
            && |p.name| > d
            && (Slot(p.name[d]) != k ==>
                  && slots[Slot(p.name[d])] != null
                  && slots[Slot(p.name[d])] in Repr
                  && p in slots[Slot(p.name[d])].pkgs))
    }

    /** The node can go into slot k: it shares nothing with the others and holds the packages of
        the slot and the entry. */
    ghost predicate Fits(d: nat, k: nat, grown: Node, entry: DPackage)
      requires k < SLOTS && |slots| == SLOTS
      reads this, slots, grown, grown.Repr
    {
      && grown in grown.Repr && grown.Valid(d + 1) && this !in grown.Repr
      && (forall j | 0 <= j < SLOTS && j != k && slots[j] != null :: slots[j] != grown && slots[j].Repr !! grown.Repr)
      && entry in grown.pkgs && |entry.name| > d && Slot(entry.name[d]) == k
      && (forall p | p in grown.pkgs ::
            |p.name| > d && Slot(p.name[d]) == k && p in pkgs + {entry} && p in grown.Repr)
      && (forall p | p in pkgs :: |p.name| > d && (Slot(p.name[d]) == k ==> p in grown.pkgs))
    }

    method Put(k: nat, grown: Node, entry: DPackage, d: nat)
      requires k < SLOTS && ValidBut(d, k) && Fits(d, k, grown, entry)
      modifies this
      ensures Valid(d) && pkgs == old(pkgs) + {entry} && Repr == old(Repr) + grown.Repr
      ensures trees == old(trees)[k := grown.tree]
    {
      slots, trees := slots[k := grown], trees[k := grown.tree];
      Repr := Repr + grown.Repr;
      pkgs := pkgs + {entry};
      forall j: nat | j < SLOTS && j != k
        ensures SlotValid(d, j)
        ensures slots[j] != null ==> slots[j].Repr !! grown.Repr
      {
        assert old(SlotValid(d, j));
      }
      assert SlotValid(d, k);
      forall p | p in pkgs
        ensures |p.name| > d && slots[Slot(p.name[d])] != null
        ensures slots[Slot(p.name[d])] in Repr && p in slots[Slot(p.name[d])].pkgs
      {
        if Slot(p.name[d]) == k {
          assert p in grown.pkgs;
        }
      }
    }

    method Rebuild(k: nat, entry: DPackage, d: nat, ghost bound: nat) returns (grown: Node)
      requires Valid(d) && entry !in Repr
      requires d < |entry.name| <= bound && k == Slot(entry.name[d])
      requires forall p | p in pkgs :: |p.name| <= bound
      modifies Repr, entry
      ensures unchanged(this)
      ensures ValidBut(d, k) && Fits(d, k, grown, entry)
      ensures grown.tree == Grow(trees[k], entry, d + 1, bound)
      ensures entry in grown.Repr && fresh(grown.Repr - old(Repr) - {entry})
      decreases bound - d, 0
    {
      assert SlotValid(d, k);
      grown := Populate(slots[k], entry, d + 1, bound);
      grown.OwnsPackages(d + 1);
      forall j: nat | j < SLOTS && j != k
        ensures SlotValid(d, j)
        ensures slots[j] != null ==> slots[j].Repr !! grown.Repr
        ensures slots[j] != null ==> slots[j].Repr == old(slots[j].Repr) && slots[j].pkgs == old(slots[j].pkgs)
      {
        assert old(SlotValid(d, j));
      }
    }

    /** Puts the package into the sub-node for its next character, which is made if need be. */
    method Insert(entry: DPackage, d: nat, ghost bound: nat)
      requires Valid(d) && entry !in Repr
      requires d < |entry.name| <= bound
      requires forall p | p in pkgs :: |p.name| <= bound
      modifies Repr, entry
      ensures Valid(d) && pkgs == old(pkgs) + {entry}
      ensures trees == GrowSlot(old(trees), entry, d, bound)
      ensures entry in Repr && fresh(Repr - old(Repr) - {entry})
      decreases bound - d, 1, 0
    {
      var k := Slot(entry.name[d]);
      var grown := Rebuild(k, entry, d, bound);
      Put(k, grown, entry, d);
    }
  }

  /** package_tree_populate. `bound` is any bound on the lengths of the names in play; it only
      serves the termination proof. */
  method Populate(root: Node?, entry: DPackage, d: nat, ghost bound: nat) returns (r: Node)
    requires root != null ==> root.Valid(d) && entry !in root.Repr
    requires root != null ==> forall p | p in root.pkgs :: |p.name| <= bound
    requires d <= |entry.name| <= bound
    modifies (if root != null then root.Repr else {}), entry
    ensures r.Valid(d)
    ensures r.pkgs == (if root == null then {} else old(root.pkgs)) + {entry}
    ensures r.tree == Grow(old(TreeOf(root)), entry, d, bound)
    ensures entry in r.Repr && fresh(r.Repr - (if root == null then {} else old(root.Repr)) - {entry})
    ensures root != null ==> r == root
    decreases bound - d, 7
  {
    if root == null {
      r := new Node();
    } else {
      r := root;
    }
    Add(r, entry, d, bound);
  }

  /** package_tree_populate once there is a node. */
  method Add(r: Node, entry: DPackage, d: nat, ghost bound: nat)
    requires r.Valid(d) && entry !in r.Repr
    requires forall p | p in r.pkgs :: |p.name| <= bound
    requires d <= |entry.name| <= bound
    modifies r.Repr, entry
    ensures r.Valid(d) && r.pkgs == old(r.pkgs) + {entry}
    ensures r.tree == Grow(old(r.tree), entry, d, bound)
    ensures entry in r.Repr && fresh(r.Repr - old(r.Repr) - {entry})
    decreases bound - d, 6
  {
    if d == |entry.name| {
      r.PushMatching(entry, d);
    } else if r.lookup != null {
      AddBelow(r, entry, d, bound);
    } else {
      AddListed(r, entry, d, bound);
    }
  }

  method AddBelow(r: Node, entry: DPackage, d: nat, ghost bound: nat)
    requires r.Valid(d) && entry !in r.Repr && r.lookup != null
    requires forall p | p in r.pkgs :: |p.name| <= bound
    requires d < |entry.name| <= bound
    modifies r.Repr, entry
    ensures r.Valid(d) && r.pkgs == old(r.pkgs) + {entry}
    ensures r.tree == Grow(old(r.tree), entry, d, bound)
    ensures entry in r.Repr && fresh(r.Repr - old(r.Repr) - {entry})
    decreases bound - d, 4
  {
    r.lookup.Insert(entry, d, bound);
    r.Absorb(d);
  }

  method AddListed(r: Node, entry: DPackage, d: nat, ghost bound: nat)
    requires r.Valid(d) && entry !in r.Repr && r.lookup == null
    requires forall p | p in r.pkgs :: |p.name| <= bound
    requires d < |entry.name| <= bound
    modifies r.Repr, entry
    ensures r.Valid(d) && r.pkgs == old(r.pkgs) + {entry}
    ensures r.tree == GrowList(old(r.tree), entry, d, bound)
    ensures entry in r.Repr && fresh(r.Repr - old(r.Repr) - {entry})
    decreases bound - d, 5
  {
    r.PushList(entry, d);
    if r.listSize > LIST_LIMIT {
      Split(r, d, bound);
    }
  }

  /** The overflow branch of package_tree_populate: a fresh table takes over the whole list. */
  method Split(r: Node, d: nat, ghost bound: nat)
    requires r.Overflowing(d)
    requires forall p | p in r.pkgs :: |p.name| <= bound
    modifies r.Repr
    ensures r.Valid(d) && r.pkgs == old(r.pkgs)
    ensures r.tree == Branch(old(r.matchSeq), [], Distribute(old(r.listSeq), NoNodes(SLOTS), d, bound))
    ensures old(r.Repr) <= r.Repr && fresh(r.Repr - old(r.Repr))
    decreases bound - d, 4
  {
    ghost var matching, chain := r.matchSeq, r.listSeq;
    var table := TableOf(r.list, chain, d, bound);
    assert Chain(r.matching, matching) by {
      forall i | 0 <= i < |matching|
        ensures matching[i].next == After(matching, i)
      {
        assert |matching[i].name| == d && matching[i] !in chain;
      }
    }
    r.Adopt(table, d);
  }

  method TableOf(head: DPackage?, ghost chain: seq<DPackage>, d: nat, ghost bound: nat) returns (table: Table)
    requires Chain(head, chain) && Distinct(chain)
    requires forall p | p in chain :: d < |p.name| <= bound
    modifies chain
    ensures table.Valid(d) && table.pkgs == Elements(chain)
    ensures table.trees == Distribute(chain, NoNodes(SLOTS), d, bound)
    ensures forall o | o in table.Repr && !fresh(o) :: o in chain
    decreases bound - d, 3
  {
    table := new Table();
    Spill(head, chain, table, d, bound);
  }

  /** The loop over the overflown list: each package goes into the table, one at a time, which
      overwrites its `next` link; the link is therefore read first. */
  method Spill(head: DPackage?, ghost chain: seq<DPackage>, table: Table, d: nat, ghost bound: nat)
    requires Chain(head, chain) && Distinct(chain)
    requires table.Valid(d) && table.pkgs == {}
    requires forall p | p in chain :: p !in table.Repr && d < |p.name| <= bound
    modifies table.Repr, chain
    ensures table.Valid(d) && table.pkgs == Elements(chain)
    ensures table.trees == Distribute(chain, old(table.trees), d, bound)
    ensures fresh(table.Repr - old(table.Repr) - Elements(chain))
    decreases bound - d, 2
  {
    var here := head;
    ghost var rest, target := chain, Distribute(chain, table.trees, d, bound);
    while here != null
      invariant Pending(here, rest, chain, table, d, bound)
      invariant Distribute(rest, table.trees, d, bound) == target
      invariant forall o | o in table.Repr && !fresh(o) :: o in old(table.Repr) || o in chain
      decreases |rest|
    {
      DistributeStep(rest, table.trees, d, bound);
      assert rest[0] in Elements(rest);
      here := SpillOne(here, rest, chain, table, d, bound);
      rest := rest[1..];
    }
  }

  /** What is on the rest of the chain is not in the table yet. */
  ghost predicate Pending(here: DPackage?, rest: seq<DPackage>, chain: seq<DPackage>, table: Table, d: nat, bound: nat)
    reads rest, table, table.Repr
  {
    && Chain(here, rest) && Distinct(rest)
    && table.Valid(d) && table.pkgs + Elements(rest) == Elements(chain)
    && (forall p | p in rest :: p !in table.Repr && d < |p.name| <= bound)
    && (forall p | p in table.pkgs :: |p.name| <= bound)
  }

  method SpillOne(here: DPackage, ghost rest: seq<DPackage>, ghost chain: seq<DPackage>, table: Table, d: nat,
                  ghost bound: nat)
    returns (next: DPackage?)
    requires rest != [] && Pending(here, rest, chain, table, d, bound)
    modifies table.Repr, here
    ensures here == rest[0] && Pending(next, rest[1..], chain, table, d, bound)
    ensures table.trees == GrowSlot(old(table.trees), here, d, bound)
    ensures fresh(table.Repr - old(table.Repr) - {here})
    decreases bound - d, 1, 1
  {
    next := here.next;
    ChainPop(here, rest);
    table.Insert(here, d, bound);
  }

  ghost function TreeOf(root: Node?): Tree
    reads if root == null then {} else {root}
  {
    if root == null then Empty else root.tree
  }

  /** The packages of an index that may still be empty. */
  ghost function Packages(root: Node?): set<DPackage>
    reads if root == null then {} else {root}
  {
    if root == null then {} else root.pkgs
  }

  /** The packages on the one list that can hold packages called `name`. */
  ghost function ListFor(name: string, node: Node?, d: nat): (chain: seq<DPackage>)
    requires node != null ==> node.Valid(d)
    requires d <= |name|
    reads if node == null then {} else {node} + node.Repr
    ensures Covers(chain, Packages(node), name)
    ensures node != null ==> forall p | p in chain :: p in node.Repr
    decreases |name| - d
  {
    if node == null then []
    else if d == |name| then
      assert node.lookup != null ==> node.lookup.Valid(d);
      node.matchSeq
    else if node.lookup == null then node.listSeq
    else
      assert node.lookup.Valid(d) && node.lookup.SlotValid(d, Slot(name[d]));
      ListFor(name, node.lookup.slots[Slot(name[d])], d + 1)
  }

  lemma {:induction false} ListForIsListIn(name: string, node: Node?, d: nat)
    requires node != null ==> node.Valid(d)
    requires d <= |name|
    ensures ListFor(name, node, d) == ListIn(TreeOf(node), name, d)
    decreases |name| - d
  {
    if node != null && d < |name| && node.lookup != null {
      assert node.lookup.Valid(d) && node.lookup.SlotValid(d, Slot(name[d]));
      ListForIsListIn(name, node.lookup.slots[Slot(name[d])], d + 1);
    }
  }

  /** find_list */
  function FindList(name: string, node: Node?, d: nat): (head: DPackage?)
    requires node != null ==> node.Valid(d)
    requires d <= |name|
    reads if node == null then {} else {node} + node.Repr
    ensures Chain(head, ListFor(name, node, d))
    decreases |name| - d
  {
    if node == null then null
    else if d == |name| then node.matching
    else if node.lookup == null then node.list
    else
      assert node.lookup.Valid(d) && node.lookup.SlotValid(d, Slot(name[d]));
      FindList(name, node.lookup.slots[Slot(name[d])], d + 1)
  }

  /** An index that has been built, or none because nothing is installed. */
  ghost predicate Usable(root: Node?)
    reads if root == null then {} else {root} + root.Repr
  {
    root != null ==> root.Valid(0)
  }

  /** The list that a walk through the index for a name goes along, in its order. */
  ghost function ListOf(root: Node?, name: string): (chain: seq<DPackage>)
    requires Usable(root)
    reads if root == null then {} else {root} + root.Repr
    ensures Covers(chain, Packages(root), name)
  {
    ListFor(name, root, 0)
  }

  /** `here` is where a walk along `chain` stands after `at` steps. */
  ghost predicate At(here: DPackage?, chain: seq<DPackage>, at: int)
    reads chain
  {
    && Chain(if chain == [] then null else chain[0], chain)
    && 0 <= at <= |chain|
    && here == if at < |chain| then chain[at] else null
  }

  /** dbpmgr_depend_debian_next and dbpmgr_depend_dbp_next: the next package called `name`,
      from the start when `prev` is null and from chain[at] otherwise. */
  method Next(name: string, root: Node?, prev: DPackage?, ghost chain: seq<DPackage>, ghost at: int)
    returns (pkg: DPackage?, ghost chain': seq<DPackage>, ghost at': int)
    requires Usable(root)
    requires if prev == null then at == -1 else At(prev, chain, at)
    ensures Usable(root)
    ensures prev != null ==> chain' == chain
    ensures prev == null ==> chain' == ListOf(root, name)
    ensures At(pkg, chain', at') && at < at'
    ensures pkg != null ==> pkg.name == name
    ensures forall j :: at < j < at' ==> chain'[j].name != name
  {
    if prev == null {
      pkg, chain', at' := FindList(name, root, 0), ListOf(root, name), 0;
    } else {
      pkg, chain' := prev.next, chain;
      at' := at + 1;
      assert chain[at].next == After(chain, at);
    }
    while pkg != null
      invariant At(pkg, chain', at') && at < at'
      invariant forall j :: at < j < at' ==> chain'[j].name != name
      decreases |chain'| - at'
    {
      if pkg.name == name {
        return;
      }
      assert chain'[at'].next == After(chain', at');
      pkg := pkg.next;
      at' := at' + 1;
    }
  }

  /** What is ahead of a walk, if the stretch it has just passed holds none of it. */
  lemma StillAhead(chain: seq<DPackage>, from: nat, to: nat, wanted: set<DPackage>)
    requires from <= to <= |chain|
    requires forall p | p in wanted :: p in chain[from..]
    requires forall j :: from <= j < to ==> chain[j] !in wanted
    ensures forall p | p in wanted :: p in chain[to..]
  {
    forall p | p in wanted
      ensures p in chain[to..]
    {
      var j :| 0 <= j < |chain[from..]| && chain[from..][j] == p;
      assert chain[to..][from + j - to] == p;
    }
  }

  /** Iterating from null reaches exactly the packages of the index that carry the name, each
      of them once. */
  method FindAll(name: string, root: Node?) returns (found: seq<DPackage>)
    requires Usable(root)
    ensures Distinct(found)
    ensures Elements(found) == set p | p in Packages(root) && p.name == name
  {
    found := [];
    var pkg;
    ghost var chain, at;
    ghost var pkgs := Packages(root);
    pkg, chain, at := Next(name, root, null, [], -1);
    ProgressStart(chain, at, pkgs, name);
    while pkg != null
      invariant Usable(root) && At(pkg, chain, at)
      invariant pkg != null ==> pkg.name == name
      invariant Progress(found, chain, at, pkgs, name)
      decreases |chain| - at
    {
      ghost var from, before := at, found;
      var here: DPackage := pkg;
      found := found + [here];
      pkg, chain, at := Next(name, root, here, chain, at);
      ProgressStep(before, chain, from, at, pkgs, name);
    }
    assert chain[at..] == [];
  }

  /** What has been found, each once, and where the rest is. */
  ghost predicate Progress(found: seq<DPackage>, chain: seq<DPackage>, at: nat, pkgs: set<DPackage>, name: string)
    requires at <= |chain|
  {
    && Distinct(chain) && (forall p | p in chain :: p in pkgs)
    && Distinct(found) && (forall p | p in found :: p in pkgs && p.name == name && p !in chain[at..])
    && (forall p | p in pkgs && p.name == name :: p in found || p in chain[at..])
  }

  lemma ProgressStart(chain: seq<DPackage>, at: nat, pkgs: set<DPackage>, name: string)
    requires Covers(chain, pkgs, name) && at <= |chain|
    requires forall j :: 0 <= j < at ==> chain[j].name != name
    ensures Progress([], chain, at, pkgs, name)
  {
    assert chain[0..] == chain;
    StillAhead(chain, 0, at, set p | p in pkgs && p.name == name);
  }

  lemma ProgressStep(found: seq<DPackage>, chain: seq<DPackage>, from: nat, to: nat, pkgs: set<DPackage>,
                     name: string)
    requires from < to <= |chain| && Progress(found, chain, from, pkgs, name) && chain[from].name == name
    requires forall j :: from < j < to ==> chain[j].name != name
    ensures Progress(found + [chain[from]], chain, to, pkgs, name)
  {
    var here := chain[from];
    assert chain[from..][0] == here && here in chain;
    Beyond(chain, from, to);
    var after := found + [here];
    assert forall p :: p in after <==> p in found || p == here;
    StillAhead(chain, from, to, set p | p in pkgs && p.name == name && p !in after);
  }

  /** What is ahead after a step does not include the element stepped over. */
  lemma Beyond(chain: seq<DPackage>, from: nat, to: nat)
    requires Distinct(chain) && from < to <= |chain|
    ensures forall p | p in chain[to..] :: p in chain[from..] && p != chain[from]
  {
    forall p | p in chain[to..]
      ensures p in chain[from..] && p != chain[from]
    {
      var j :| 0 <= j < |chain[to..]| && chain[to..][j] == p;
      assert chain[from..][to + j - from] == p && chain[to + j] == p;
    }
  }

  /** The index holds the first n entries and none of the others is linked into it. */
  ghost predicate Holds(root: Node?, entries: seq<DPackage>, n: nat)
    requires n <= |entries|
    reads if root == null then {} else {root} + root.Repr
  {
    && (root == null <==> n == 0)
    && Usable(root)
    && (root != null ==> forall j :: n <= j < |entries| ==> entries[j] !in root.Repr)
    && Packages(root) == Elements(entries[..n])
  }

  /** The loop of build_database and build_dbp_database over the stanzas they keep. */
  method Build(entries: seq<DPackage>) returns (root: Node?)
    requires Distinct(entries)
    modifies entries
    ensures Holds(root, entries, |entries|) && Packages(root) == Elements(entries)
    ensures TreeOf(root) == Inserted(entries)
    ensures root != null ==> fresh(root.Repr - Elements(entries))
  {
    root := null;
    var i := 0;
    while i < |entries|
      invariant 0 <= i <= |entries| && Holds(root, entries, i)
      invariant TreeOf(root) == BuildTree(entries[..i], LongestName(entries))
      invariant root != null ==> forall o | o in root.Repr && !fresh(o) :: o in entries
    {
      BuildTreeNext(entries, i, LongestName(entries));
      root := BuildStep(root, entries, i);
      i := i + 1;
    }
    assert entries[..|entries|] == entries;
  }

  method BuildStep(root: Node?, entries: seq<DPackage>, i: nat) returns (r: Node?)
    requires i < |entries| && Distinct(entries) && Holds(root, entries, i)
    modifies (if root == null then {} else root.Repr), entries[i]
    ensures Holds(r, entries, i + 1) && r != null
    ensures r.tree == Grow(old(TreeOf(root)), entries[i], 0, LongestName(entries))
    ensures fresh(r.Repr - (if root == null then {} else old(root.Repr)) - {entries[i]})
  {
    assert entries[..i + 1] == entries[..i] + [entries[i]];
    r := Populate(root, entries[i], 0, LongestName(entries));
  }

  /** The answer of a linear scan over the inserted packages. */
  ghost function LinearScan(entries: seq<DPackage>, name: string): multiset<DPackage> {
    if entries == [] then multiset{}
    else (if entries[0].name == name then multiset{entries[0]} else multiset{}) + LinearScan(entries[1..], name)
  }

  /** For every sequence of insertions and every name, the index answers like the scan. */
  method IndexAnswersLikeScan(entries: seq<DPackage>, name: string) returns (found: seq<DPackage>)
    requires Distinct(entries)
    modifies entries
    ensures multiset(found) == LinearScan(entries, name)
  {
    var root := Build(entries);
    found := FindAll(name, root);
    ScanCounts(entries, name);
    DistinctCounts(found);
    forall p: DPackage
      ensures multiset(found)[p] == LinearScan(entries, name)[p]
    {
      assert p in Elements(found) <==> p in entries && p.name == name;
    }
  }

  lemma {:induction false} ScanCounts(entries: seq<DPackage>, name: string)
    requires Distinct(entries)
    ensures forall p: DPackage | p in LinearScan(entries, name) :: p in entries
    ensures forall p | p in entries ::
              LinearScan(entries, name)[p] == if p.name == name then 1 else 0
  {
    if entries != [] {
      ScanCounts(entries[1..], name);
      assert entries == [entries[0]] + entries[1..];
    }
  }

  lemma {:induction false} DistinctCounts(s: seq<DPackage>)
    requires Distinct(s)
    ensures forall p | p in s :: multiset(s)[p] == 1
  {
    if s != [] {
      DistinctCounts(s[1..]);
      assert s == [s[0]] + s[1..];
    }
  }
}
