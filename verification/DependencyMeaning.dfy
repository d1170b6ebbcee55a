/** What the dependency strings demand, from their text to the answer: each operator as it is written,
    several together, and one installed package. */
module DependencyMeaning {
  import opened CStrings
  import opened DependencyStrings
  import opened DPackages
  import opened Versions
  import opened Dependencies

  /** A name as packages have it, and a version that can follow an operator. */
  predicate PlainName(name: string) { OperatorFree(name) && ':' !in name }

  predicate PlainVersion(w: string) { w != "" && OperatorFree(w) }

  /** Version v meets what the text demands. */
  ghost predicate Meets(cmp: Comparison, v: string, text: string, arch: string) {
    Satisfies(cmp, v, Meaning(text, arch))
  }

  // ---- One operator ----

  lemma OneOperator(cmp: Comparison, name: string, c: Constraint, v: string, arch: string)
    requires PlainName(name) && PlainVersion(c.version)
    ensures var text := name + Symbol(c.check) + c.version;
            && Meaning(text, arch) == Depend(name, arch, map[c.check := c.version])
            && (Meets(cmp, v, text, arch) <==> DependencyStrings.Holds(cmp(v, c.version), c.check))
  {
    var text := name + Symbol(c.check) + c.version;
    var cs := [c];
    assert RenderAll(cs[1..]) == "" && FirstOf(cs[1..]) == map[];
    assert Render(name, [], cs) == text;
    MeaningOfRendering(name, [], cs, arch);
    assert MeetsOne(cmp, v, Meaning(text, arch), c.check) <==> DependencyStrings.Holds(cmp(v, c.version), c.check);
  }

  const OPERATORS := ["<=", ">=", "<", "=", ">"]

  /** What each operator demands of the comparison of the installed version with the given one. */
  predicate Demands(op: string, r: int) {
    || (op == "<=" && r <= 0)
    || (op == ">=" && r >= 0)
    || (op == "<" && r < 0)
    || (op == "=" && r == 0)
    || (op == ">" && r > 0)
  }

  function CheckFor(op: string): (c: Check)
    requires op in OPERATORS
    ensures Symbol(c) == op && forall r :: DependencyStrings.Holds(r, c) <==> Demands(op, r)
  {
    if op == "<=" then LtEq else if op == ">=" then GtEq else if op == "<" then Lt else if op == "=" then Eq else Gt
  }

  /** A version meets a string with one operator exactly if it compares as the operator says. */
  lemma OperatorMeans(cmp: Comparison, name: string, op: string, w: string, v: string, arch: string)
    requires PlainName(name) && op in OPERATORS && PlainVersion(w)
    ensures Meets(cmp, v, name + op + w, arch) <==> Demands(op, cmp(v, w))
  {
    OneOperator(cmp, name, Constraint(CheckFor(op), w), v, arch);
  }

  /** At least and less than exclude and complete each other, however versions are compared. */
  lemma AtLeastOrLess(cmp: Comparison, name: string, w: string, v: string, arch: string)
    requires PlainName(name) && PlainVersion(w)
    ensures Meets(cmp, v, name + ">=" + w, arch) != Meets(cmp, v, name + "<" + w, arch)
  {
    OperatorMeans(cmp, name, ">=", w, v, arch);
    OperatorMeans(cmp, name, "<", w, v, arch);
  }

  lemma AtMostOrMore(cmp: Comparison, name: string, w: string, v: string, arch: string)
    requires PlainName(name) && PlainVersion(w)
    ensures Meets(cmp, v, name + "<=" + w, arch) != Meets(cmp, v, name + ">" + w, arch)
  {
    OperatorMeans(cmp, name, "<=", w, v, arch);
    OperatorMeans(cmp, name, ">", w, v, arch);
  }

  /** An upgrade keeps a lower bound met; only the comparison of versions that lack a part does not
      support this. */
  lemma UpgradeKeepsLowerBound(cmp: Comparison, name: string, w: string, v: string, newer: string, arch: string)
    requires PlainName(name) && PlainVersion(w) && IsCompare(cmp)
    requires WellFormed(v) && WellFormed(newer) && WellFormed(w) && Compare(ScanInt, v, newer) <= 0
    requires Meets(cmp, v, name + ">=" + w, arch)
    ensures Meets(cmp, newer, name + ">=" + w, arch)
  {
    OperatorMeans(cmp, name, ">=", w, v, arch);
    OperatorMeans(cmp, name, ">=", w, newer, arch);
    BoundsFollow(cmp, v, newer, w);
  }

  /** A downgrade keeps an upper bound met. */
  lemma DowngradeKeepsUpperBound(cmp: Comparison, name: string, w: string, v: string, newer: string, arch: string)
    requires PlainName(name) && PlainVersion(w) && IsCompare(cmp)
    requires WellFormed(v) && WellFormed(newer) && WellFormed(w) && Compare(ScanInt, v, newer) <= 0
    requires Meets(cmp, newer, name + "<=" + w, arch)
    ensures Meets(cmp, v, name + "<=" + w, arch)
  {
    OperatorMeans(cmp, name, "<=", w, v, arch);
    OperatorMeans(cmp, name, "<=", w, newer, arch);
    BoundsFollow(cmp, v, newer, w);
  }

  lemma BoundsFollow(cmp: Comparison, v: string, newer: string, w: string)
    requires IsCompare(cmp) && WellFormed(v) && WellFormed(newer) && WellFormed(w)
    requires Compare(ScanInt, v, newer) <= 0
    ensures cmp(v, w) >= 0 ==> cmp(newer, w) >= 0
    ensures cmp(newer, w) <= 0 ==> cmp(v, w) <= 0
  {
    assert cmp(v, w) == Compare(ScanInt, v, w) && cmp(newer, w) == Compare(ScanInt, newer, w);
    CompareFlips(ScanInt, v, w);
    CompareFlips(ScanInt, newer, w);
    if Compare(ScanInt, w, v) <= 0 {
      CompareTransitive(ScanInt, w, v, newer);
    }
    if Compare(ScanInt, newer, w) <= 0 {
      CompareTransitive(ScanInt, v, newer, w);
    }
  }

  // ---- Several operators ----

  /** No constraint before i has the operator of this one. */
  predicate First(cs: seq<Constraint>, i: nat)
    requires i < |cs|
  {
    forall j :: 0 <= j < i ==> cs[j].check != cs[i].check
  }

  lemma {:induction false} FirstCounts(cs: seq<Constraint>, i: nat)
    requires i < |cs| && First(cs, i)
    ensures cs[i].check in FirstOf(cs) && FirstOf(cs)[cs[i].check] == cs[i].version
  {
    if i > 0 {
      assert cs[0].check != cs[i].check;
      assert forall j :: 0 <= j < i - 1 ==> cs[1..][j] == cs[j + 1];
      FirstCounts(cs[1..], i - 1);
    }
  }

  lemma {:induction false} FirstWith(cs: seq<Constraint>, c: Check) returns (i: nat)
    requires c in FirstOf(cs)
    ensures i < |cs| && First(cs, i) && cs[i].check == c
  {
    if c == cs[0].check {
      i := 0;
    } else {
      i := FirstWith(cs[1..], c);
      assert forall j :: 0 < j <= i + 1 ==> cs[j] == cs[1..][j - 1];
      i := i + 1;
    }
  }

  /** A string with several constraints is met exactly if each constraint is met on its own, where of
      those with the same operator only the first counts. */
  lemma EachConstraintCounts(cmp: Comparison, name: string, cs: seq<Constraint>, v: string, arch: string)
    requires PlainName(name) && forall c | c in cs :: Plain(c)
    ensures Meets(cmp, v, Render(name, [], cs), arch)
            <==> forall i :: 0 <= i < |cs| && First(cs, i) ==>
                   Meets(cmp, v, name + Symbol(cs[i].check) + cs[i].version, arch)
  {
    MeaningOfRendering(name, [], cs, arch);
    var dep := Meaning(Render(name, [], cs), arch);
    forall i | 0 <= i < |cs| && First(cs, i)
      ensures MeetsOne(cmp, v, dep, cs[i].check)
              <==> Meets(cmp, v, name + Symbol(cs[i].check) + cs[i].version, arch)
    {
      assert cs[i] in cs;
      FirstCounts(cs, i);
      OneOperator(cmp, name, cs[i], v, arch);
    }
    forall c | c in dep.version
      ensures exists i :: 0 <= i < |cs| && First(cs, i) && cs[i].check == c
    {
      var i := FirstWith(cs, c);
    }
  }

  // ---- One installed package ----

  /** The answer to a dependency string, for the list that the index goes along. */
  ghost predicate SaysYes(cmp: Comparison, chain: seq<DPackage>, pkgs: set<DPackage>, text: string, arch: string) {
    var dep := Meaning(text, arch);
    FirstSatisfies(cmp, chain, DebCandidates(pkgs, dep), dep)
  }

  /** p is the only installed package with its name. */
  ghost predicate OnlyOne(pkgs: set<DPackage>, p: DPackage) {
    p in pkgs && forall q | q in pkgs && q.name == p.name :: q == p
  }

  /** Packages for the machine's architecture, for any and for all fit. */
  predicate FitsMachine(pkgArch: string, arch: string) {
    pkgArch == arch || pkgArch == "any" || pkgArch == "all" || arch == "any"
  }

  /** With one package of the name installed, the answer is yes exactly if its architecture fits and
      its version compares with the one demanded as the operator says. */
  lemma OnePackageDecides(cmp: Comparison, chain: seq<DPackage>, pkgs: set<DPackage>, p: DPackage, op: string,
                          w: string, arch: string)
    requires Covers(chain, pkgs, p.name) && OnlyOne(pkgs, p)
    requires PlainName(p.name) && op in OPERATORS && PlainVersion(w)
    ensures SaysYes(cmp, chain, pkgs, p.name + op + w, arch)
            <==> FitsMachine(p.arch, arch) && Demands(op, cmp(p.version, w))
  {
    var text := p.name + op + w;
    var dep := Meaning(text, arch);
    OperatorMeans(cmp, p.name, op, w, p.version, arch);
    OneOperator(cmp, p.name, Constraint(CheckFor(op), w), p.version, arch);
    assert DebCandidates(pkgs, dep) == if FitsMachine(p.arch, arch) then {p} else {};
    AgreedAnswerIsExact(cmp, chain, DebCandidates(pkgs, dep), dep);
  }

  /** The same from the stanzas of the package database and the text to the answer of
      dbpmgr_depend_debian_check. */
  method CheckOne(entries: seq<DPackage>, ghost p: DPackage, name: string, op: string, w: string, arch: string)
    returns (ok: bool)
    requires Distinct(entries) && OnlyOne(Elements(entries), p) && p.name == name
    requires PlainName(name) && op in OPERATORS && PlainVersion(w)
    modifies entries
    ensures ok <==> FitsMachine(p.arch, arch) && Demands(op, Compare(ScanInt, p.version, w))
  {
    ok := CheckInstalled(entries, arch, name + op + w);
    ghost var dep := Meaning(name + op + w, arch);
    OneOperator(COMPARE, name, Constraint(CheckFor(op), w), p.version, arch);
    PT.InsertedCovers(entries, dep.name);
    OnePackageDecides(COMPARE, Walk(entries, dep), Elements(entries), p, op, w, arch);
  }
}
