/** The dependency check of libdbpmgr/dependencies.c, from the installed packages and the
    dependency strings of a package to the lists of what is missing. */
module Dependencies {
  import opened CStrings
  import opened DPackages
  import opened PackageIndex
  import PT = PackageTree
  import opened Versions
  import opened DependencyStrings
  import opened DesktopFile

  // ---- What a dependency asks for ----

  /** A way to compare versions. Everything below is about the one of module Versions; giving it a
      name keeps its definition out of the proofs that do not need it. */
  type Comparison = (string, string) -> int

  ghost predicate IsCompare(cmp: Comparison) {
    forall a, b {:trigger Compare(ScanInt, a, b)} :: cmp(a, b) == Compare(ScanInt, a, b)
  }

  const COMPARE: Comparison := (a, b) => Compare(ScanInt, a, b)

  /** The version meets the constraint for one comparison, if there is one. */
  predicate MeetsOne(cmp: Comparison, version: string, dep: Depend, c: Check) {
    c in dep.version ==> DependencyStrings.Holds(cmp(version, dep.version[c]), c)
  }

  /** The version meets every constraint. */
  ghost predicate Satisfies(cmp: Comparison, version: string, dep: Depend) {
    forall c: Check :: MeetsOne(cmp, version, dep, c)
  }

  predicate ArchFits(pkgArch: string, depArch: string) {
    pkgArch == "any" || pkgArch == "all" || pkgArch == depArch || depArch == "any"
  }

  /** The installed Debian packages that the dependency can be about. */
  ghost function DebCandidates(pkgs: set<DPackage>, dep: Depend): set<DPackage> {
    set p | p in pkgs && p.name == dep.name && ArchFits(p.arch, dep.arch)
  }

  /** For DBP packages the architecture is not looked at. */
  ghost function DbpCandidates(pkgs: set<DPackage>, dep: Depend): set<DPackage> {
    set p | p in pkgs && p.name == dep.name
  }

  ghost predicate SomeSatisfies(cmp: Comparison, candidates: set<DPackage>, dep: Depend) {
    exists p :: p in candidates && Satisfies(cmp, p.version, dep)
  }

  /** All candidates meet the constraints or none does; so it is with one candidate, or none. */
  ghost predicate Agree(cmp: Comparison, candidates: set<DPackage>, dep: Depend) {
    forall p, q | p in candidates && q in candidates ::
      Satisfies(cmp, p.version, dep) == Satisfies(cmp, q.version, dep)
  }

  /** The position of the first candidate on a list, or the length of the list. */
  ghost function FirstIn(chain: seq<DPackage>, candidates: set<DPackage>): (i: nat)
    ensures i <= |chain|
    ensures i < |chain| ==> chain[i] in candidates
    ensures forall j :: 0 <= j < i ==> chain[j] !in candidates
  {
    if chain == [] || chain[0] in candidates then 0 else 1 + FirstIn(chain[1..], candidates)
  }

  lemma FirstIs(chain: seq<DPackage>, candidates: set<DPackage>, i: nat)
    requires i <= |chain| && (i < |chain| ==> chain[i] in candidates)
    requires forall j :: 0 <= j < i ==> chain[j] !in candidates
    ensures FirstIn(chain, candidates) == i
  {
  }

  /** The answer of a check: that of the first candidate on the list, and no without any. */
  ghost predicate FirstSatisfies(cmp: Comparison, chain: seq<DPackage>, candidates: set<DPackage>, dep: Depend) {
    var i := FirstIn(chain, candidates);
    i < |chain| && Satisfies(cmp, chain[i].version, dep)
  }

  lemma AgreedAnswerIsExact(cmp: Comparison, chain: seq<DPackage>, candidates: set<DPackage>, dep: Depend)
    requires Agree(cmp, candidates, dep) && forall p | p in candidates :: p in chain
    ensures FirstSatisfies(cmp, chain, candidates, dep) <==> SomeSatisfies(cmp, candidates, dep)
  {
    assert forall p | p in candidates :: p in chain && FirstIn(chain, candidates) < |chain|;
  }

  /** The list goes through the packages with the dependency's name in an order that is right. */
  ghost predicate RightOn(cmp: Comparison, chain: seq<DPackage>, candidates: set<DPackage>, dep: Depend) {
    FirstSatisfies(cmp, chain, candidates, dep) <==> SomeSatisfies(cmp, candidates, dep)
  }

  /** What is installed, in the order in which it was put into an index. */
  ghost predicate InsertionOf(entries: seq<DPackage>, pkgs: set<DPackage>) {
    Distinct(entries) && Elements(entries) == pkgs
  }

  /** The list that the index goes along for the name of the dependency. */
  ghost function Walk(entries: seq<DPackage>, dep: Depend): seq<DPackage> {
    PT.ListIn(PT.Inserted(entries), dep.name, 0)
  }

  /** The answer is right in whatever order the packages were put into the index exactly if the
      candidates agree. */
  lemma RightForEveryInsertionIff(cmp: Comparison, pkgs: set<DPackage>, candidates: set<DPackage>, dep: Depend)
    requires candidates <= pkgs && forall p | p in candidates :: p.name == dep.name
    ensures (forall entries | InsertionOf(entries, pkgs) :: RightOn(cmp, Walk(entries, dep), candidates, dep))
              <==> Agree(cmp, candidates, dep)
  {
    if Agree(cmp, candidates, dep) {
      forall entries | InsertionOf(entries, pkgs)
        ensures RightOn(cmp, Walk(entries, dep), candidates, dep)
      {
        PT.InsertedCovers(entries, dep.name);
        AgreedAnswerIsExact(cmp, Walk(entries, dep), candidates, dep);
      }
    } else {
      var entries := Listing(pkgs);
      if RightOn(cmp, Walk(entries, dep), candidates, dep) {
        var other := WrongInsertion(cmp, entries, candidates, dep);
        assert InsertionOf(other, pkgs) && !RightOn(cmp, Walk(other, dep), candidates, dep);
      }
    }
  }

  /** From an order that happens to be right to one that is wrong: the candidate that decides is
      exchanged with one that does not meet the constraints. */
  lemma WrongInsertion(cmp: Comparison, entries: seq<DPackage>, candidates: set<DPackage>, dep: Depend)
    returns (other: seq<DPackage>)
    requires Distinct(entries) && candidates <= Elements(entries) && forall p | p in candidates :: p.name == dep.name
    requires !Agree(cmp, candidates, dep) && RightOn(cmp, Walk(entries, dep), candidates, dep)
    ensures InsertionOf(other, Elements(entries)) && !RightOn(cmp, Walk(other, dep), candidates, dep)
  {
    var chain := Walk(entries, dep);
    PT.InsertedCovers(entries, dep.name);
    var i := FirstIn(chain, candidates);
    var p := chain[i];
    var q :| q in candidates && !Satisfies(cmp, q.version, dep);
    other := PT.SwapAll(p, q, entries);
    PT.InsertionSwaps(p, q, entries, dep.name);
    PT.SwapKeeps(p, q, entries);
    var chain' := Walk(other, dep);
    assert forall j :: 0 <= j < |chain| ==> chain'[j] == PT.Swap(p, q, chain[j]);
    FirstIs(chain', candidates, i);
  }

  lemma Listing(pkgs: set<DPackage>) returns (entries: seq<DPackage>)
    ensures InsertionOf(entries, pkgs)
  {
    entries := [];
    var rest := pkgs;
    while rest != {}
      invariant Distinct(entries) && rest <= pkgs && forall p :: p in entries <==> p in pkgs - rest
      decreases rest
    {
      var p :| p in rest;
      assert p !in entries;
      entries, rest := entries + [p], rest - {p};
    }
  }

  // ---- The checks ----

  /** The loop over the five comparisons. */
  method MeetsConstraints(version: string, dep: Depend, ghost cmp: Comparison) returns (ok: bool)
    requires IsCompare(cmp)
    ensures ok == Satisfies(cmp, version, dep)
  {
    for i := 0 to |CHECKS|
      invariant forall j :: 0 <= j < i ==> MeetsOne(cmp, version, dep, CHECKS[j])
    {
      var met := MeetsCheck(version, dep, CHECKS[i], cmp);
      if !met {
        return false;
      }
    }
    forall c: Check
      ensures MeetsOne(cmp, version, dep, c)
    {
      assert CHECKS[Index(c)] == c;
    }
    return true;
  }

  method MeetsCheck(version: string, dep: Depend, c: Check, ghost cmp: Comparison) returns (met: bool)
    requires IsCompare(cmp)
    ensures met == MeetsOne(cmp, version, dep, c)
  {
    if c !in dep.version {
      return true;
    }
    var r := CompareVersion(ScanInt, version, dep.version[c]);
    met := DependencyStrings.Holds(r, c);
  }

  /** The first package on the list for the name that the dependency can be about. */
  method FirstFitting(root: Node?, dep: Depend) returns (pkg: DPackage?)
    requires Usable(root)
    ensures Usable(root)
    ensures var order := ListOf(root, dep.name);
            var i := FirstIn(order, DebCandidates(Packages(root), dep));
            pkg == if i < |order| then order[i] else null
  {
    ghost var order;
    pkg, order := FirstFittingOn(root, dep);
  }

  method FirstFittingOn(root: Node?, dep: Depend) returns (pkg: DPackage?, ghost order: seq<DPackage>)
    requires Usable(root)
    ensures Usable(root) && order == ListOf(root, dep.name)
    ensures var i := FirstIn(order, DebCandidates(Packages(root), dep));
            pkg == if i < |order| then order[i] else null
  {
    ghost var at;
    pkg, order, at := Next(dep.name, root, null, [], -1);
    pkg, at := SkipUnfit(root, dep, pkg, order, at);
    FirstFound(order, at, Packages(root), dep);
  }

  /** The loop over the packages called like the dependency, up to one whose architecture fits. */
  method SkipUnfit(root: Node?, dep: Depend, first: DPackage?, ghost order: seq<DPackage>, ghost from: int)
    returns (pkg: DPackage?, ghost at: int)
    requires Usable(root) && At(first, order, from) && Passed(order, from, Packages(root), dep)
    requires order == ListOf(root, dep.name) && (first != null ==> first.name == dep.name)
    ensures order == ListOf(root, dep.name)
    ensures Usable(root) && At(pkg, order, at) && Passed(order, at, Packages(root), dep)
    ensures pkg != null ==> pkg.name == dep.name && ArchFits(pkg.arch, dep.arch)
  {
    pkg, at := first, from;
    ghost var pkgs := Packages(root);
    while pkg != null && !ArchFits(pkg.arch, dep.arch)
      invariant Usable(root) && At(pkg, order, at) && Passed(order, at, pkgs, dep)
      invariant order == ListOf(root, dep.name)
      invariant pkg != null ==> pkg.name == dep.name
      decreases |order| - at
    {
      ghost var here, chain := at, order;
      pkg, chain, at := Next(dep.name, root, pkg, chain, at);
      PassedOn(order, here, at, pkgs, dep);
    }
  }

  /** None of the first packages on the list is a candidate. */
  ghost predicate Passed(order: seq<DPackage>, at: int, pkgs: set<DPackage>, dep: Depend) {
    0 <= at <= |order| && forall j :: 0 <= j < at ==> order[j] !in DebCandidates(pkgs, dep)
  }

  lemma PassedOn(order: seq<DPackage>, from: nat, at: nat, pkgs: set<DPackage>, dep: Depend)
    requires from < at <= |order| && Passed(order, from, pkgs, dep) && !ArchFits(order[from].arch, dep.arch)
    requires forall j :: from < j < at ==> order[j].name != dep.name
    ensures Passed(order, at, pkgs, dep)
  {
  }

  lemma FirstFound(order: seq<DPackage>, at: nat, pkgs: set<DPackage>, dep: Depend)
    requires Passed(order, at, pkgs, dep) && forall p | p in order :: p in pkgs
    requires at < |order| ==> order[at].name == dep.name && ArchFits(order[at].arch, dep.arch)
    ensures FirstIn(order, DebCandidates(pkgs, dep)) == at
  {
    assert at < |order| ==> order[at] in order;
    FirstIs(order, DebCandidates(pkgs, dep), at);
  }

  /** dbpmgr_depend_debian_check once the string has been parsed: the first fitting package on the
      list for the name decides. */
  method DebianCheck(root: Node?, dep: Depend, ghost cmp: Comparison) returns (ok: bool)
    requires Usable(root) && IsCompare(cmp)
    ensures Usable(root)
    ensures ok == FirstSatisfies(cmp, ListOf(root, dep.name), DebCandidates(Packages(root), dep), dep)
  {
    var pkg := FirstFitting(root, dep);
    if pkg == null {
      return false;
    }
    ok := MeetsConstraints(pkg.version, dep, cmp);
  }

  /** dbpmgr_depend_debian_check: no string is no demand. */
  method DebianCheckText(text: Option<string>, root: Node?, arch: string, ghost cmp: Comparison) returns (ok: bool)
    requires Usable(root) && IsCompare(cmp)
    ensures Usable(root) && (text == None ==> ok)
    ensures text.Some? ==>
              var dep := Meaning(text.value, arch);
              ok == FirstSatisfies(cmp, ListOf(root, dep.name), DebCandidates(Packages(root), dep), dep)
  {
    if text == None {
      return true;
    }
    var dep := Parse(text.value, arch);
    ok := DebianCheck(root, dep, cmp);
  }

  /** dbpmgr_depend_dbp_check once the string has been parsed: the first package with the name
      decides, whatever its architecture. */
  method DbpCheck(root: Node?, dep: Depend, ghost cmp: Comparison) returns (ok: bool)
    requires Usable(root) && IsCompare(cmp)
    ensures Usable(root)
    ensures ok == FirstSatisfies(cmp, ListOf(root, dep.name), DbpCandidates(Packages(root), dep), dep)
  {
    var pkg := FirstNamed(root, dep);
    if pkg == null {
      return false;
    }
    ok := MeetsConstraints(pkg.version, dep, cmp);
  }

  method FirstNamed(root: Node?, dep: Depend) returns (pkg: DPackage?)
    requires Usable(root)
    ensures Usable(root)
    ensures var order := ListOf(root, dep.name);
            var i := FirstIn(order, DbpCandidates(Packages(root), dep));
            pkg == if i < |order| then order[i] else null
  {
    ghost var order, at;
    pkg, order, at := Next(dep.name, root, null, [], -1);
    assert at < |order| ==> order[at] in order;
    FirstIs(order, DbpCandidates(Packages(root), dep), at);
  }

  /** From the stanzas of the package database and a dependency string to the answer: that of the
      first fitting package on the list that this order of insertion leads to. With at most one
      fitting package, or several that agree, it is yes exactly when a fitting installed package
      satisfies every constraint of the string. */
  method CheckInstalled(entries: seq<DPackage>, defaultArch: string, text: string) returns (ok: bool)
    requires Distinct(entries)
    modifies entries
    ensures var dep := Meaning(text, defaultArch);
            var fitting := DebCandidates(Elements(entries), dep);
            && ok == FirstSatisfies(COMPARE, Walk(entries, dep), fitting, dep)
            && (Agree(COMPARE, fitting, dep) ==> (ok <==> SomeSatisfies(COMPARE, fitting, dep)))
  {
    var dep := Parse(text, defaultArch);
    ok := CheckParsed(entries, dep, COMPARE);
  }

  method CheckParsed(entries: seq<DPackage>, dep: Depend, ghost cmp: Comparison) returns (ok: bool)
    requires Distinct(entries) && IsCompare(cmp)
    modifies entries
    ensures var fitting := DebCandidates(Elements(entries), dep);
            && ok == FirstSatisfies(cmp, Walk(entries, dep), fitting, dep)
            && (Agree(cmp, fitting, dep) ==> (ok <==> SomeSatisfies(cmp, fitting, dep)))
  {
    var root := Build(entries);
    ok := DebianCheck(root, dep, cmp);
    ListForIsListIn(dep.name, root, 0);
    ghost var fitting := DebCandidates(Elements(entries), dep);
    if Agree(cmp, fitting, dep) {
      AgreedAnswerIsExact(cmp, ListOf(root, dep.name), fitting, dep);
    }
  }

  // ---- The five lists ----

  /** The dependencies listed under a locale of the key, create_list(dbp_desktop_lookup(...)). */
  function Listed(meta: Sections, locale: string): seq<string>
    requires meta != []
  {
    match Lookup(meta, "Dependency", locale, Some("Package Entry"))
    case None => []
    case Some(value) => Tokens(value)
  }

  /** The databases that are asked: the installed packages of the system and those of DBP. */
  datatype Base = Deb | Dbp

  function Other(base: Base): Base { if base == Deb then Dbp else Deb }

  /** The database that may have an item of a list, or the one that is asked before the other. */
  datatype Where = Only(first: Base) | Either(first: Base)

  ghost predicate MayBeIn(w: Where, base: Base) { w.first == base || w.Either? }

  /** What is installed, what the machine is, and how versions compare. */
  datatype World = World(debs: Database, dbps: Database, arch: string, cmp: Comparison)

  /** The packages of a database and the tree that holds them. */
  datatype Database = Database(pkgs: set<DPackage>, tree: PT.Tree)

  ghost predicate Searchable(db: Database) {
    forall name :: Covers(PT.ListIn(db.tree, name, 0), db.pkgs, name)
  }

  /** The candidates for a dependency in a database. */
  ghost function Candidates(base: Base, dep: Depend, world: World): set<DPackage> {
    if base == Deb then DebCandidates(world.debs.pkgs, dep) else DbpCandidates(world.dbps.pkgs, dep)
  }

  /** The list for the name of the dependency. */
  ghost function ListIn(base: Base, dep: Depend, world: World): seq<DPackage> {
    PT.ListIn((if base == Deb then world.debs else world.dbps).tree, dep.name, 0)
  }

  /** The answer of one database. */
  ghost predicate AnswerOf(base: Base, dep: Depend, world: World) {
    FirstSatisfies(world.cmp, ListIn(base, dep, world), Candidates(base, dep, world), dep)
  }

  /** The answer for one item, decided by the first candidates on the lists for its name. */
  ghost predicate Answer(dep: Depend, w: Where, world: World) {
    AnswerOf(w.first, dep, world) || (w.Either? && AnswerOf(Other(w.first), dep, world))
  }

  ghost predicate MetIn(base: Base, dep: Depend, world: World) {
    SomeSatisfies(world.cmp, Candidates(base, dep, world), dep)
  }

  ghost predicate Met(dep: Depend, w: Where, world: World) {
    exists base :: MayBeIn(w, base) && MetIn(base, dep, world)
  }

  ghost predicate Unambiguous(dep: Depend, world: World) {
    forall base :: Agree(world.cmp, Candidates(base, dep, world), dep)
  }

  ghost predicate AllSearchable(world: World) { Searchable(world.debs) && Searchable(world.dbps) }

  /** The answer for an item that is not ambiguous is the exact one. */
  lemma ItemIsExact(dep: Depend, w: Where, world: World)
    requires AllSearchable(world) && Unambiguous(dep, world)
    ensures Answer(dep, w, world) == Met(dep, w, world)
  {
    forall base: Base
      ensures AnswerOf(base, dep, world) == MetIn(base, dep, world)
    {
      AgreedAnswerIsExact(world.cmp, ListIn(base, dep, world), Candidates(base, dep, world), dep);
    }
    assert forall base :: MayBeIn(w, base) <==> base == w.first || (w.Either? && base == Other(w.first));
  }

  /** The databases asked for an item: the second one only after a no. */
  ghost function Asked(dep: Depend, w: Where, world: World): seq<Base> {
    [w.first] + if w.Either? && !AnswerOf(w.first, dep, world) then [Other(w.first)] else []
  }

  ghost function WorldOf(debs: Node?, dbps: Node?, arch: string, cmp: Comparison): World
    reads if debs == null then {} else {debs}, if dbps == null then {} else {dbps}
  {
    World(Database(Packages(debs), TreeOf(debs)), Database(Packages(dbps), TreeOf(dbps)), arch, cmp)
  }

  lemma WorldIsSearchable(debs: Node?, dbps: Node?, arch: string, cmp: Comparison)
    requires Usable(debs) && Usable(dbps)
    ensures AllSearchable(WorldOf(debs, dbps, arch, cmp))
  {
    IndexIsSearchable(debs);
    IndexIsSearchable(dbps);
  }

  lemma IndexIsSearchable(root: Node?)
    requires Usable(root)
    ensures Searchable(Database(Packages(root), TreeOf(root)))
  {
    forall name: string
      ensures Covers(PT.ListIn(TreeOf(root), name, 0), Packages(root), name)
    {
      ListForIsListIn(name, root, 0);
    }
  }

  method Ask(base: Base, dep: Depend, debs: Node?, dbps: Node?, arch: string, ghost cmp: Comparison)
    returns (ok: bool)
    requires Usable(debs) && Usable(dbps) && IsCompare(cmp)
    ensures Usable(debs) && Usable(dbps)
    ensures ok == AnswerOf(base, dep, WorldOf(debs, dbps, arch, cmp))
  {
    if base == Deb {
      ok := DebianCheck(debs, dep, cmp);
      ListForIsListIn(dep.name, debs, 0);
    } else {
      ok := DbpCheck(dbps, dep, cmp);
      ListForIsListIn(dep.name, dbps, 0);
    }
  }

  /** The test inside one of the five loops of dbpmgr_depend_check. */
  method CheckItem(dep: Depend, w: Where, debs: Node?, dbps: Node?, arch: string, ghost cmp: Comparison)
    returns (ok: bool, ghost asked: seq<Base>)
    requires Usable(debs) && Usable(dbps) && IsCompare(cmp)
    ensures Usable(debs) && Usable(dbps)
    ensures ok == Answer(dep, w, WorldOf(debs, dbps, arch, cmp))
    ensures asked == Asked(dep, w, WorldOf(debs, dbps, arch, cmp))
  {
    ok := Ask(w.first, dep, debs, dbps, arch, cmp);
    asked := [w.first];
    if !ok && w.Either? {
      ok := Ask(Other(w.first), dep, debs, dbps, arch, cmp);
      asked := asked + [Other(w.first)];
    }
  }

  ghost predicate TextAnswer(text: string, w: Where, world: World) {
    Answer(Meaning(text, world.arch), w, world)
  }

  ghost predicate TextMet(text: string, w: Where, world: World) {
    Met(Meaning(text, world.arch), w, world)
  }

  ghost function TextAsked(text: string, w: Where, world: World): seq<Base> {
    Asked(Meaning(text, world.arch), w, world)
  }

  /** The items with the answer no, in their order. */
  ghost function Sieve(items: seq<string>, yes: string -> bool): seq<string> {
    if items == [] then []
    else
      var n := |items| - 1;
      Sieve(items[..n], yes) + if yes(items[n]) then [] else [items[n]]
  }

  /** What is asked for the items, one after the other. */
  ghost function Gather(items: seq<string>, asks: string -> seq<Base>): seq<Base> {
    if items == [] then []
    else
      var n := |items| - 1;
      Gather(items[..n], asks) + asks(items[n])
  }

  lemma {:induction false} SieveIff(items: seq<string>, yes: string -> bool, text: string)
    ensures text in Sieve(items, yes) <==> text in items && !yes(text)
    decreases |items|
  {
    if items != [] {
      var n := |items| - 1;
      SieveIff(items[..n], yes, text);
      assert items == items[..n] + [items[n]];
    }
  }

  lemma {:induction false} SieveAgrees(items: seq<string>, yes: string -> bool, also: string -> bool)
    requires forall t | t in items :: yes(t) == also(t)
    ensures Sieve(items, yes) == Sieve(items, also)
    decreases |items|
  {
    if items != [] {
      var n := |items| - 1;
      assert items == items[..n] + [items[n]];
      SieveAgrees(items[..n], yes, also);
    }
  }

  lemma NextItem(items: seq<string>, i: nat, yes: string -> bool, asks: string -> seq<Base>)
    requires i < |items|
    ensures Sieve(items[..i + 1], yes) == Sieve(items[..i], yes) + if yes(items[i]) then [] else [items[i]]
    ensures Gather(items[..i + 1], asks) == Gather(items[..i], asks) + asks(items[i])
  {
    assert items[..i + 1][..i] == items[..i];
  }

  ghost function Refused(items: seq<string>, w: Where, world: World): seq<string> {
    Sieve(items, t => TextAnswer(t, w, world))
  }

  ghost function AskedFor(items: seq<string>, w: Where, world: World): seq<Base> {
    Gather(items, t => TextAsked(t, w, world))
  }

  ghost function Unmet(items: seq<string>, w: Where, world: World): seq<string> {
    Sieve(items, t => TextMet(t, w, world))
  }

  ghost predicate AllUnambiguous(items: seq<string>, world: World) {
    forall t | t in items :: Unambiguous(Meaning(t, world.arch), world)
  }

  /** Item by item: one that is not ambiguous is missing exactly if it is not met, whatever the other
      items are. If none is ambiguous, what is missing is what is not met, in order. */
  ghost predicate ExactlyMissing(missing: seq<string>, items: seq<string>, w: Where, world: World) {
    && (forall t | t in items && Unambiguous(Meaning(t, world.arch), world) ::
          t in missing <==> !TextMet(t, w, world))
    && (AllUnambiguous(items, world) ==> missing == Unmet(items, w, world))
  }

  lemma RefusedIff(items: seq<string>, w: Where, world: World, text: string)
    ensures text in Refused(items, w, world) <==> text in items && !TextAnswer(text, w, world)
  {
    SieveIff(items, t => TextAnswer(t, w, world), text);
  }

  lemma TextIsExact(text: string, w: Where, world: World)
    requires AllSearchable(world) && Unambiguous(Meaning(text, world.arch), world)
    ensures TextAnswer(text, w, world) == TextMet(text, w, world)
  {
    ItemIsExact(Meaning(text, world.arch), w, world);
  }

  /** If no item is ambiguous, the refused ones are the unmet ones, in order. */
  lemma RefusedIsUnmet(items: seq<string>, w: Where, world: World)
    requires AllSearchable(world) && AllUnambiguous(items, world)
    ensures Refused(items, w, world) == Unmet(items, w, world)
  {
    forall t | t in items
      ensures TextAnswer(t, w, world) == TextMet(t, w, world)
    {
      TextIsExact(t, w, world);
    }
    SieveAgrees(items, t => TextAnswer(t, w, world), t => TextMet(t, w, world));
  }

  lemma RefusedIsExact(items: seq<string>, w: Where, world: World)
    requires AllSearchable(world)
    ensures ExactlyMissing(Refused(items, w, world), items, w, world)
  {
    forall t | t in items && Unambiguous(Meaning(t, world.arch), world)
      ensures t in Refused(items, w, world) <==> !TextMet(t, w, world)
    {
      RefusedIff(items, w, world, t);
      TextIsExact(t, w, world);
    }
    if AllUnambiguous(items, world) {
      RefusedIsUnmet(items, w, world);
    }
  }

  /** The answers and the questions under names of their own, which keeps their definitions out of the
      loop. */
  ghost predicate IsAnswer(yes: string -> bool, w: Where, world: World) {
    forall t {:trigger TextAnswer(t, w, world)} :: yes(t) == TextAnswer(t, w, world)
  }

  ghost predicate IsAsked(asks: string -> seq<Base>, w: Where, world: World) {
    forall t {:trigger TextAsked(t, w, world)} :: asks(t) == TextAsked(t, w, world)
  }

  method CheckText(text: string, w: Where, debs: Node?, dbps: Node?, arch: string, ghost cmp: Comparison,
                   ghost yes: string -> bool, ghost asks: string -> seq<Base>)
    returns (ok: bool, ghost asked: seq<Base>)
    requires Usable(debs) && Usable(dbps) && IsCompare(cmp)
    requires IsAnswer(yes, w, WorldOf(debs, dbps, arch, cmp)) && IsAsked(asks, w, WorldOf(debs, dbps, arch, cmp))
    ensures Usable(debs) && Usable(dbps)
    ensures ok == yes(text)
    ensures asked == asks(text)
  {
    var dep := Parse(text, arch);
    ok, asked := CheckItem(dep, w, debs, dbps, arch, cmp);
    ghost var world := WorldOf(debs, dbps, arch, cmp);
    assert ok == TextAnswer(text, w, world) && asked == TextAsked(text, w, world);
  }

  /** One of the five loops: what is refused is added to the list of what is missing. */
  method CheckTexts(items: seq<string>, w: Where, debs: Node?, dbps: Node?, arch: string, ghost cmp: Comparison,
                    ghost yes: string -> bool, ghost asks: string -> seq<Base>)
    returns (missing: seq<string>, ghost asked: seq<Base>)
    requires Usable(debs) && Usable(dbps) && IsCompare(cmp)
    requires IsAnswer(yes, w, WorldOf(debs, dbps, arch, cmp)) && IsAsked(asks, w, WorldOf(debs, dbps, arch, cmp))
    ensures Usable(debs) && Usable(dbps)
    ensures missing == Sieve(items, yes)
    ensures asked == Gather(items, asks)
  {
    missing, asked := [], [];
    var i := 0;
    while i < |items|
      invariant 0 <= i <= |items| && Usable(debs) && Usable(dbps)
      invariant missing == Sieve(items[..i], yes) && asked == Gather(items[..i], asks)
    {
      var ok;
      ghost var more;
      ok, more := CheckText(items[i], w, debs, dbps, arch, cmp, yes, asks);
      NextItem(items, i, yes, asks);
      if !ok {
        missing := missing + [items[i]];
      }
      asked := asked + more;
      i := i + 1;
    }
    assert items[..i] == items;
  }

  /** One of the five lists: what is refused, which is what is not met as far as it is not ambiguous. */
  method CheckList(items: seq<string>, w: Where, debs: Node?, dbps: Node?, arch: string, ghost cmp: Comparison)
    returns (missing: seq<string>, ghost asked: seq<Base>)
    requires Usable(debs) && Usable(dbps) && IsCompare(cmp)
    ensures Usable(debs) && Usable(dbps)
    ensures missing == Refused(items, w, WorldOf(debs, dbps, arch, cmp))
    ensures asked == AskedFor(items, w, WorldOf(debs, dbps, arch, cmp))
    ensures ExactlyMissing(missing, items, w, WorldOf(debs, dbps, arch, cmp))
  {
    ghost var world := WorldOf(debs, dbps, arch, cmp);
    missing, asked := CheckTexts(items, w, debs, dbps, arch, cmp,
                                 t => TextAnswer(t, w, world), t => TextAsked(t, w, world));
    WorldIsSearchable(debs, dbps, arch, cmp);
    RefusedIsExact(items, w, world);
  }

  /** The lists in the order of the loops: where their dependencies may be found, and who is asked
      first. */
  const SYSONLY := Only(Deb)
  const SYSPREF := Either(Deb)
  const DBPONLY := Only(Dbp)
  const DBPPREF := Either(Dbp)
  const WHATEVS := Either(Dbp)

  /** struct DBPDependListList */
  datatype Lists = Lists(sysonly: seq<string>, syspref: seq<string>, dbponly: seq<string>, dbppref: seq<string>,
                         whatevs: seq<string>)

  function AllListed(meta: Sections): Lists
    requires meta != []
  {
    Lists(Listed(meta, "deb"), Listed(meta, "pref_deb"), Listed(meta, "dbp"), Listed(meta, "pref_dbp"),
          Listed(meta, ""))
  }

  ghost function AllUnmet(l: Lists, world: World): Lists {
    Lists(Unmet(l.sysonly, SYSONLY, world), Unmet(l.syspref, SYSPREF, world), Unmet(l.dbponly, DBPONLY, world),
          Unmet(l.dbppref, DBPPREF, world), Unmet(l.whatevs, WHATEVS, world))
  }

  ghost function AllRefused(l: Lists, world: World): Lists {
    Lists(Refused(l.sysonly, SYSONLY, world), Refused(l.syspref, SYSPREF, world), Refused(l.dbponly, DBPONLY, world),
          Refused(l.dbppref, DBPPREF, world), Refused(l.whatevs, WHATEVS, world))
  }

  ghost function AllAsked(l: Lists, world: World): seq<Base> {
    AskedFor(l.sysonly, SYSONLY, world) + AskedFor(l.syspref, SYSPREF, world) + AskedFor(l.dbponly, DBPONLY, world)
    + AskedFor(l.dbppref, DBPPREF, world) + AskedFor(l.whatevs, WHATEVS, world)
  }

  ghost predicate NothingAmbiguous(l: Lists, world: World) {
    && AllUnambiguous(l.sysonly, world) && AllUnambiguous(l.syspref, world) && AllUnambiguous(l.dbponly, world)
    && AllUnambiguous(l.dbppref, world) && AllUnambiguous(l.whatevs, world)
  }

  ghost predicate AllExact(missing: Lists, l: Lists, world: World) {
    && ExactlyMissing(missing.sysonly, l.sysonly, SYSONLY, world)
    && ExactlyMissing(missing.syspref, l.syspref, SYSPREF, world)
    && ExactlyMissing(missing.dbponly, l.dbponly, DBPONLY, world)
    && ExactlyMissing(missing.dbppref, l.dbppref, DBPPREF, world)
    && ExactlyMissing(missing.whatevs, l.whatevs, WHATEVS, world)
  }

  /** What the key of the package entry says under a locale. */
  ghost function Given(meta: Sections, locale: string): Option<string>
    requires meta != []
  {
    Exact(meta, Some("Package Entry"), "Dependency", locale)
  }

  /** The value under the locale, or the plain one. */
  ghost function GivenOrPlain(meta: Sections, locale: string): Option<string>
    requires meta != []
  {
    if Given(meta, locale).Some? then Given(meta, locale) else Given(meta, "")
  }

  /** What the package says, list by list. */
  datatype Values = Values(deb: Option<string>, prefDeb: Option<string>, dbp: Option<string>,
                           prefDbp: Option<string>, plain: Option<string>)

  ghost function AllGiven(meta: Sections): Values
    requires meta != []
  {
    Values(GivenOrPlain(meta, "deb"), GivenOrPlain(meta, "pref_deb"), GivenOrPlain(meta, "dbp"),
           GivenOrPlain(meta, "pref_dbp"), Given(meta, ""))
  }

  ghost predicate TextAnswerOf(base: Base, text: string, world: World) {
    AnswerOf(base, Meaning(text, world.arch), world)
  }

  /** One of the databases answers yes. */
  ghost predicate FoundIn(bases: set<Base>, text: string, world: World) {
    exists base :: base in bases && TextAnswerOf(base, text, world)
  }

  ghost function ItemsOf(value: Option<string>): seq<string> {
    if value == None then [] else Tokens(value.value)
  }

  /** The items of the value that are found in none of the databases, in their order. */
  ghost predicate Reports(missing: seq<string>, value: Option<string>, bases: set<Base>, world: World) {
    missing == Sieve(ItemsOf(value), t => FoundIn(bases, t, world))
  }

  /** What each of the five results is about: the system's packages alone, those of DBP alone, or
      either. */
  ghost predicate ReportsOnLists(missing: Lists, v: Values, world: World) {
    && Reports(missing.sysonly, v.deb, {Deb}, world)
    && Reports(missing.syspref, v.prefDeb, {Deb, Dbp}, world)
    && Reports(missing.dbponly, v.dbp, {Dbp}, world)
    && Reports(missing.dbppref, v.prefDbp, {Deb, Dbp}, world)
    && Reports(missing.whatevs, v.plain, {Deb, Dbp}, world)
  }

  lemma ListedIs(meta: Sections, locale: string)
    requires meta != [] && '@' !in locale
    ensures Listed(meta, locale) == ItemsOf(GivenOrPlain(meta, locale))
  {
    NotFound(locale, '@');
    assert locale[..|locale|] == locale;
  }

  lemma AllListedIs(meta: Sections)
    requires meta != []
    ensures var v := AllGiven(meta);
            AllListed(meta) == Lists(ItemsOf(v.deb), ItemsOf(v.prefDeb), ItemsOf(v.dbp), ItemsOf(v.prefDbp),
                                     ItemsOf(v.plain))
  {
    ListedIs(meta, "deb");
    ListedIs(meta, "pref_deb");
    ListedIs(meta, "dbp");
    ListedIs(meta, "pref_dbp");
    ListedIs(meta, "");
  }

  lemma RefusedReports(value: Option<string>, w: Where, bases: set<Base>, world: World)
    requires forall base :: base in bases <==> MayBeIn(w, base)
    ensures Reports(Refused(ItemsOf(value), w, world), value, bases, world)
  {
    var yes, also := (t: string) => TextAnswer(t, w, world), (t: string) => FoundIn(bases, t, world);
    forall t: string
      ensures yes(t) == also(t)
    {
      AnswerIsAnyOf(Meaning(t, world.arch), w, world);
      assert forall base :: TextAnswerOf(base, t, world) == AnswerOf(base, Meaning(t, world.arch), world);
    }
    SieveAgrees(ItemsOf(value), yes, also);
  }

  lemma AnswerIsAnyOf(dep: Depend, w: Where, world: World)
    ensures Answer(dep, w, world) <==> exists base :: MayBeIn(w, base) && AnswerOf(base, dep, world)
  {
    assert forall base :: MayBeIn(w, base) <==> base == w.first || (w.Either? && base == Other(w.first));
  }

  lemma AllRefusedReports(l: Lists, v: Values, world: World)
    requires l == Lists(ItemsOf(v.deb), ItemsOf(v.prefDeb), ItemsOf(v.dbp), ItemsOf(v.prefDbp), ItemsOf(v.plain))
    ensures ReportsOnLists(AllRefused(l, world), v, world)
  {
    RefusedReports(v.deb, SYSONLY, {Deb}, world);
    RefusedReports(v.prefDeb, SYSPREF, {Deb, Dbp}, world);
    RefusedReports(v.dbp, DBPONLY, {Dbp}, world);
    RefusedReports(v.prefDbp, DBPPREF, {Deb, Dbp}, world);
    RefusedReports(v.plain, WHATEVS, {Deb, Dbp}, world);
  }

  /** Item by item: what is in a result is in the value, and no database that may have it answers
      yes. */
  lemma ReportedIff(missing: seq<string>, value: string, bases: set<Base>, world: World, text: string)
    requires Reports(missing, Some(value), bases, world)
    ensures text in missing
            <==> text in Tokens(value) && forall base | base in bases :: !TextAnswerOf(base, text, world)
  {
    SieveIff(Tokens(value), t => FoundIn(bases, t, world), text);
  }

  /** dbpmgr_depend_check: the refused items of each list, in order, which are exactly those
      that are not met, as far as they are not ambiguous. */
  method DependCheck(meta: Sections, debs: Node?, dbps: Node?, arch: string)
    returns (missing: Lists, ghost asked: seq<Base>)
    requires meta != [] && Usable(debs) && Usable(dbps)
    ensures var l, world := AllListed(meta), WorldOf(debs, dbps, arch, COMPARE);
            && missing == AllRefused(l, world) && AllExact(missing, l, world)
            && (NothingAmbiguous(l, world) ==> missing == AllUnmet(l, world))
    ensures ReportsOnLists(missing, AllGiven(meta), WorldOf(debs, dbps, arch, COMPARE))
    ensures asked == AllAsked(AllListed(meta), WorldOf(debs, dbps, arch, COMPARE))
  {
    missing, asked := CheckLists(AllListed(meta), debs, dbps, arch, COMPARE);
    AllListedIs(meta);
    AllRefusedReports(AllListed(meta), AllGiven(meta), WorldOf(debs, dbps, arch, COMPARE));
  }

  method CheckLists(l: Lists, debs: Node?, dbps: Node?, arch: string, ghost cmp: Comparison)
    returns (missing: Lists, ghost asked: seq<Base>)
    requires Usable(debs) && Usable(dbps) && IsCompare(cmp)
    ensures var world := WorldOf(debs, dbps, arch, cmp);
            missing == AllRefused(l, world) && AllExact(missing, l, world)
    ensures asked == AllAsked(l, WorldOf(debs, dbps, arch, cmp))
  {
    ghost var a, b, c, d, e;
    var sysonly, syspref, dbponly, dbppref, whatevs;
    sysonly, a := CheckList(l.sysonly, SYSONLY, debs, dbps, arch, cmp);
    syspref, b := CheckList(l.syspref, SYSPREF, debs, dbps, arch, cmp);
    dbponly, c := CheckList(l.dbponly, DBPONLY, debs, dbps, arch, cmp);
    dbppref, d := CheckList(l.dbppref, DBPPREF, debs, dbps, arch, cmp);
    whatevs, e := CheckList(l.whatevs, WHATEVS, debs, dbps, arch, cmp);
    missing, asked := Lists(sysonly, syspref, dbponly, dbppref, whatevs), a + b + c + d + e;
  }

  // ---- The table of character classes ----

  /** The DBP index is built when DBP is first asked. By then the table of character classes has
      been set up: by an earlier call, or because the system has been asked before. */
  ghost predicate BuiltWithTable(ready: bool, asked: seq<Base>) {
    forall i :: 0 <= i < |asked| && asked[i] == Dbp && Dbp !in asked[..i] ==> ready || Deb in asked[..i]
  }

  /** Only the two lists that prefer the system see to the table in time. */
  lemma BuiltWithTableIff(ready: bool, l: Lists, world: World)
    ensures BuiltWithTable(ready, AllAsked(l, world))
            <==> || ready || l.sysonly != [] || l.syspref != []
                 || (l.dbponly == [] && l.dbppref == [] && l.whatevs == [])
  {
    var asked := AllAsked(l, world);
    AsksFirst(l.sysonly, SYSONLY, world);
    AsksFirst(l.syspref, SYSPREF, world);
    AsksFirst(l.dbponly, DBPONLY, world);
    AsksFirst(l.dbppref, DBPPREF, world);
    AsksFirst(l.whatevs, WHATEVS, world);
    if asked != [] {
      assert asked[..0] == [];
      forall i | 0 < i < |asked|
        ensures asked[0] in asked[..i]
      {
        assert asked[..i][0] == asked[0];
      }
    }
  }

  /** What is asked first for a list with items. */
  lemma AsksFirst(items: seq<string>, w: Where, world: World)
    ensures var asked := AskedFor(items, w, world);
            if items == [] then asked == [] else asked != [] && asked[0] == w.first
  {
    GatherFirst(items, t => TextAsked(t, w, world), w.first);
  }

  lemma {:induction false} GatherFirst(items: seq<string>, asks: string -> seq<Base>, first: Base)
    requires forall t :: asks(t) != [] && asks(t)[0] == first
    ensures var asked := Gather(items, asks); if items == [] then asked == [] else asked != [] && asked[0] == first
    decreases |items|
  {
    if items != [] {
      GatherFirst(items[..|items| - 1], asks, first);
    }
  }

  const LOCALES: seq<string> := ["deb", "pref_deb", "dbp", "pref_dbp", ""]

  /** The lookup of a localised list gives that list, or nothing, exactly if there is such a list
      or no plain one: otherwise it falls back to the plain one. */
  lemma LocalisedListIsItsOwnIff(meta: Sections, i: nat)
    requires meta != [] && i < 4
    ensures var section, own := Some("Package Entry"), Exact(meta, Some("Package Entry"), "Dependency", LOCALES[i]);
            var found := Lookup(meta, "Dependency", LOCALES[i], section);
            found == own <==> own.Some? || Exact(meta, section, "Dependency", "") == None
  {
    NoVariant(i);
  }

  /** A package that gives only the plain list has its dependencies checked in all five ways. */
  lemma UnlocalisedListIsCheckedEveryWay(meta: Sections, value: string)
    requires meta != []
    requires forall i :: 0 <= i < 4 ==> Exact(meta, Some("Package Entry"), "Dependency", LOCALES[i]) == None
    requires Exact(meta, Some("Package Entry"), "Dependency", "") == Some(value)
    ensures forall i :: 0 <= i < 5 ==> Listed(meta, LOCALES[i]) == Tokens(value)
  {
    forall i | 0 <= i < 5
      ensures Listed(meta, LOCALES[i]) == Tokens(value)
    {
      NoVariant(i);
    }
  }

  /** None of these locales has a variant to be cut off. */
  lemma NoVariant(i: nat)
    requires i < 5
    ensures LOCALES[i][..Find(LOCALES[i], '@')] == LOCALES[i]
  {
    assert '@' !in LOCALES[i];
    assert Find(LOCALES[i], '@') == |LOCALES[i]|;
  }
}
