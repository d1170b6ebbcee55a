/** The dependency strings of libdbpmgr/dependencies.c: name[:arch] followed by version
    constraints, as in "libfoo:armhf>=1.2<2". */
module DependencyStrings {
  import opened CStrings

  /** enum DBPMgrDependVersionCheck, in the order of the array that is indexed by it. */
  datatype Check = LtEq | GtEq | Lt | Eq | Gt

  const CHECKS: seq<Check> := [LtEq, GtEq, Lt, Eq, Gt]

  function Symbol(check: Check): string {
    match check
    case LtEq => "<="
    case GtEq => ">="
    case Lt => "<"
    case Eq => "="
    case Gt => ">"
  }

  /** dbpmgr_depend_version_result_compare */
  predicate Holds(result: int, check: Check) {
    match check
    case LtEq => result <= 0
    case GtEq => result >= 0
    case Lt => result < 0
    case Eq => result == 0
    case Gt => result > 0
  }

  /** struct DBPDepend: a constraint that was not given has no entry in `version`. */
  datatype Depend = Depend(name: string, arch: string, version: map<Check, string>)

  predicate IsOperator(c: char) { c == '<' || c == '=' || c == '>' }

  predicate NotOperator(c: char) { !IsOperator(c) }

  predicate OperatorFree(s: string) { forall c | c in s :: !IsOperator(c) }

  /** find_next_version_param: how far the next constraint is, or None where C returns NULL.
      Operators at the very start belong to the current one and are stepped over. */
  function NextParam(ver: string): (n: int)
    ensures -1 <= n < |ver|
    ensures n >= 0 ==> n > 0 && IsOperator(ver[n])
    ensures n >= 0 && IsOperator(ver[0]) ==> n >= 2
  {
    var i := Span(ver, NotOperator);
    if i == 0 && ver != "" then
      var n := NextParam(ver[1..]);
      if n == -1 then -1 else n + 1
    else if i < |ver| then i else -1
  }

  /** The next constraint starts at the first operator behind the leading ones and what follows them,
      if there is one. */
  lemma {:induction false} NextParamExact(ops: string, word: string, rest: string)
    requires (forall c | c in ops :: IsOperator(c)) && OperatorFree(word)
    requires rest == "" || (word != "" && IsOperator(rest[0]))
    ensures NextParam(ops + word + rest) == if rest == "" then -1 else |ops| + |word|
  {
    var ver := ops + word + rest;
    if ops == "" {
      assert ver == word + rest;
      assert forall i :: 0 <= i < |word| ==> word[i] in word;
      SpanIs(ver, NotOperator, |word|);
    } else {
      assert ver[0] in ops && ver[1..] == ops[1..] + word + rest;
      SpanIs(ver, NotOperator, 0);
      NextParamExact(ops[1..], word, rest);
    }
  }

  /** The constraints of a version tail, each from its operator up to the next one. */
  function Segments(ver: string): (segs: seq<string>)
    decreases |ver|
  {
    if ver == "" then []
    else
      var n := NextParam(ver);
      if n == -1 then [ver] else [ver[..n]] + Segments(ver[n..])
  }

  /** The first check whose symbol begins the text. */
  function CheckOf(s: string): (check: Check)
    requires s != "" && IsOperator(s[0])
    ensures Symbol(check) <= s
  {
    assert s == [s[0]] + s[1..];
    if "<=" <= s then LtEq else if ">=" <= s then GtEq else if "<" <= s then Lt else if "=" <= s then Eq else Gt
  }

  predicate Constraints(segs: seq<string>) {
    forall s | s in segs :: s != "" && IsOperator(s[0])
  }

  /** What a list of segments says; the first segment with a given check wins. */
  function Fields(segs: seq<string>): map<Check, string>
    requires Constraints(segs)
  {
    if segs == [] then map[]
    else
      assert segs[0] in segs;
      var check := CheckOf(segs[0]);
      Fields(segs[1..])[check := segs[0][|Symbol(check)|..]]
  }

  lemma {:induction false} SegmentsAreConstraints(ver: string)
    requires ver == "" || IsOperator(ver[0])
    ensures Constraints(Segments(ver))
    decreases |ver|
  {
    if ver != "" && NextParam(ver) != -1 {
      SegmentsAreConstraints(ver[NextParam(ver)..]);
    }
  }

  function Concat(segs: seq<string>): string {
    if segs == [] then "" else segs[0] + Concat(segs[1..])
  }

  /** The segments tile the version tail: nothing of it is skipped or read twice. */
  lemma {:induction false} SegmentsTile(ver: string)
    ensures Concat(Segments(ver)) == ver
    decreases |ver|
  {
    if ver != "" {
      var n := NextParam(ver);
      SegmentsUnfold(ver);
      if n == -1 {
        ConcatFirst(ver[..|ver|], []);
      } else {
        SegmentsTile(ver[n..]);
        ConcatFirst(ver[..n], Segments(ver[n..]));
      }
    }
  }

  lemma ConcatFirst(segment: string, rest: seq<string>)
    ensures Concat([segment] + rest) == segment + Concat(rest)
  {
    assert ([segment] + rest)[1..] == rest;
  }

  /** What a dependency string means. */
  function Meaning(text: string, defaultArch: string): Depend {
    var ver := Span(text, NotOperator);
    var head, tail := text[..ver], text[ver..];
    var colon := Find(head, ':');
    SegmentsAreConstraints(tail);
    Depend(head[..colon], if colon < |head| then head[colon + 1..] else defaultArch, Fields(Segments(tail)))
  }

  /** The earlier of two positions, where |s| stands for "not found". */
  function Earlier(m: nat, n: nat): nat { if m < n then m else n }

  ghost function Index(check: Check): (i: nat)
    ensures i < |CHECKS| && CHECKS[i] == check
  {
    match check case LtEq => 0 case GtEq => 1 case Lt => 2 case Eq => 3 case Gt => 4
  }

  lemma EarlierSymbolsDiffer(s: string, i: nat)
    requires s != "" && IsOperator(s[0]) && i < Index(CheckOf(s))
    ensures !(Symbol(CHECKS[i]) <= s)
  {
  }

  /** The strncmp loop over the comparison symbols. */
  method FindCheck(next: string) returns (check: Check)
    requires next != "" && IsOperator(next[0])
    ensures check == CheckOf(next)
  {
    var i := 0;
    while !(Symbol(CHECKS[i]) <= next)
      invariant 0 <= i <= Index(CheckOf(next))
      decreases |CHECKS| - i
    {
      i := i + 1;
    }
    if i < Index(CheckOf(next)) {
      EarlierSymbolsDiffer(next, i);
    }
    check := CHECKS[i];
  }

  /** The first of the three operator characters, found one at a time. */
  method FirstOperator(text: string) returns (ver: nat)
    ensures ver == Span(text, NotOperator)
  {
    ver := Earlier(Find(text, '<'), Earlier(Find(text, '='), Find(text, '>')));
    SpanIs(text, NotOperator, ver);
  }

  /** dbpmgr_depend_parse */
  method Parse(text: string, defaultArch: string) returns (dep: Depend)
    ensures dep == Meaning(text, defaultArch)
  {
    var ver := FirstOperator(text);
    var head := text[..ver];
    var colon := Find(head, ':');
    var arch := if colon < |head| then head[colon + 1..] else defaultArch;
    var version := ParseVersions(text[ver..]);
    dep := Depend(head[..colon], arch, version);
  }

  /** The loop over the constraints; one that repeats an operator is passed over. */
  method ParseVersions(tail: string) returns (version: map<Check, string>)
    requires tail == "" || IsOperator(tail[0])
    ensures Constraints(Segments(tail)) && version == Fields(Segments(tail))
  {
    SegmentsAreConstraints(tail);
    version := map[];
    var next := tail;
    ghost var all := Fields(Segments(tail));
    ghost var ahead := all;
    assert all + version == all;
    while next != ""
      invariant Ahead(next, ahead) && all == ahead + version
      decreases |next|
    {
      var check, value, rest;
      ghost var after;
      check, value, rest, after := NextConstraint(next, ahead);
      FirstStays(after, version, check, value);
      if check !in version {
        version := version[check := value];
      }
      next, ahead := rest, after;
    }
  }

  /** What the constraints that are still to be read say. */
  ghost predicate Ahead(next: string, fields: map<Check, string>) {
    && (next == "" || IsOperator(next[0]))
    && Constraints(Segments(next)) && fields == Fields(Segments(next))
  }

  lemma FirstStays(after: map<Check, string>, version: map<Check, string>, check: Check, value: string)
    ensures after[check := value] + version == after + if check in version then version else version[check := value]
  {
  }

  /** The first constraint of the text, and what comes after it. */
  method NextConstraint(next: string, ghost ahead: map<Check, string>)
    returns (check: Check, value: string, rest: string, ghost after: map<Check, string>)
    requires next != "" && Ahead(next, ahead)
    ensures |rest| < |next| && Ahead(rest, after) && ahead == after[check := value]
  {
    var n := NextParam(next);
    var len := if n == -1 then |next| else n;
    check := FindCheck(next);
    SameCheck(next, len);
    value := next[..len][|Symbol(check)|..];
    rest := if n == -1 then "" else next[n..];
    SegmentsAreConstraints(rest);
    after := Fields(Segments(rest));
    SegmentsUnfold(next);
    FieldsStep(next[..len], Segments(rest));
  }

  lemma SegmentsUnfold(next: string)
    requires next != ""
    ensures var n := NextParam(next);
            Segments(next) == if n == -1 then [next[..|next|]] + Segments("") else [next[..n]] + Segments(next[n..])
  {
    assert next[..|next|] == next;
  }

  /** A segment in front of others sets its check. */
  lemma FieldsStep(segment: string, rest: seq<string>)
    requires segment != "" && IsOperator(segment[0]) && Constraints(rest)
    ensures Constraints([segment] + rest)
    ensures var check := CheckOf(segment);
            Fields([segment] + rest) == Fields(rest)[check := segment[|Symbol(check)|..]]
  {
    assert ([segment] + rest)[1..] == rest;
  }

  /** The check can be read off the whole remaining text or off the segment alone. */
  lemma SameCheck(next: string, len: nat)
    requires next != "" && IsOperator(next[0])
    requires len == if NextParam(next) == -1 then |next| else NextParam(next)
    ensures len > 0 && CheckOf(next[..len]) == CheckOf(next)
    ensures |Symbol(CheckOf(next))| <= len
  {
    SegmentLength(next, len);
    assert next[..len][0] == next[0];
    if len > 1 {
      assert next[..len][1] == next[1];
    }
    SymbolInFront(next, CheckOf(next));
    SymbolInFront(next[..len], CheckOf(next[..len]));
  }

  /** A segment of one character is the whole text, or no operator follows it. */
  lemma SegmentLength(next: string, len: nat)
    requires next != "" && IsOperator(next[0])
    requires len == if NextParam(next) == -1 then |next| else NextParam(next)
    ensures 0 < len <= |next| && (len == 1 ==> |next| == 1 || !IsOperator(next[1]))
  {
  }

  /** Which check a text begins with can be told from its first two characters. */
  lemma SymbolInFront(s: string, check: Check)
    requires s != "" && IsOperator(s[0]) && check == CheckOf(s)
    ensures var two := |s| > 1 && s[1] == '=';
            check == if s[0] == '<' then (if two then LtEq else Lt)
                     else if s[0] == '>' then (if two then GtEq else Gt)
                     else Eq
  {
  }

  // ---- Parsing inverts rendering ----

  datatype Constraint = Constraint(check: Check, version: string)

  function RenderConstraint(c: Constraint): string { Symbol(c.check) + c.version }

  function RenderAll(cs: seq<Constraint>): string {
    if cs == [] then "" else RenderConstraint(cs[0]) + RenderAll(cs[1..])
  }

  /** name, an optional architecture, and the constraints in the order given. */
  function Render(name: string, arch: seq<string>, cs: seq<Constraint>): string
    requires |arch| <= 1
  {
    name + (if arch == [] then "" else ":" + arch[0]) + RenderAll(cs)
  }

  predicate Plain(c: Constraint) { c.version != "" && OperatorFree(c.version) }

  /** The first constraint for each check. */
  function FirstOf(cs: seq<Constraint>): map<Check, string> {
    if cs == [] then map[] else FirstOf(cs[1..])[cs[0].check := cs[0].version]
  }

  lemma {:induction false} SegmentsOfRendering(cs: seq<Constraint>)
    requires forall c | c in cs :: Plain(c)
    ensures RenderAll(cs) == "" || IsOperator(RenderAll(cs)[0])
    ensures Constraints(Segments(RenderAll(cs)))
    ensures Fields(Segments(RenderAll(cs))) == FirstOf(cs)
  {
    if cs != [] {
      assert cs[0] in cs;
      SegmentsOfRendering(cs[1..]);
      OneConstraint(cs[0], RenderAll(cs[1..]));
    }
  }

  /** A rendered constraint in front of others is one segment, and means what it was made of. */
  lemma OneConstraint(c: Constraint, rest: string)
    requires Plain(c)
    requires rest == "" || IsOperator(rest[0])
    requires Constraints(Segments(rest))
    ensures var text := RenderConstraint(c) + rest;
            && IsOperator(text[0])
            && Constraints(Segments(text))
            && Fields(Segments(text)) == Fields(Segments(rest))[c.check := c.version]
  {
    var here := RenderConstraint(c);
    var text := here + rest;
    NextParamExact(Symbol(c.check), c.version, rest);
    SegmentsUnfold(text);
    assert text[..|here|] == here && text[|here|..] == rest;
    assert Segments(text) == [here] + Segments(rest);
    RenderedCheck(c);
    FieldsStep(here, Segments(rest));
  }

  lemma RenderedCheck(c: Constraint)
    requires Plain(c)
    ensures var here := RenderConstraint(c);
            IsOperator(here[0]) && CheckOf(here) == c.check && here[|Symbol(c.check)|..] == c.version
  {
    assert c.version[0] in c.version;
    assert RenderConstraint(c)[|Symbol(c.check)|] == c.version[0];
  }

  /** Every field is recovered; of a repeated operator the first occurrence counts. */
  lemma MeaningOfRendering(name: string, arch: seq<string>, cs: seq<Constraint>, defaultArch: string)
    requires |arch| <= 1
    requires OperatorFree(name) && ':' !in name
    requires arch != [] ==> OperatorFree(arch[0])
    requires forall c | c in cs :: Plain(c)
    ensures Meaning(Render(name, arch, cs), defaultArch) ==
              Depend(name, if arch == [] then defaultArch else arch[0], FirstOf(cs))
  {
    var head := if arch == [] then name else name + ":" + arch[0];
    assert Render(name, arch, cs) == head + RenderAll(cs);
    SegmentsOfRendering(cs);
    TailStarts(head, RenderAll(cs));
    HeadSplits(name, arch, head);
  }

  /** The version tail starts at the first operator. */
  lemma TailStarts(head: string, tail: string)
    requires OperatorFree(head) && (tail == "" || IsOperator(tail[0]))
    ensures var text := head + tail;
            var ver := Span(text, NotOperator);
            text[..ver] == head && text[ver..] == tail
  {
    SpanIs(head + tail, NotOperator, |head|);
  }

  lemma HeadSplits(name: string, arch: seq<string>, head: string)
    requires |arch| <= 1 && ':' !in name
    requires head == if arch == [] then name else name + ":" + arch[0]
    ensures var colon := Find(head, ':');
            head[..colon] == name && (if colon < |head| then [head[colon + 1..]] else []) == arch
  {
    if arch != [] {
      assert head[|name|] == ':' && head[..|name|] == name && head[|name| + 1..] == arch[0];
      assert forall i :: 0 <= i < |name| ==> head[i] == name[i];
      assert Find(head, ':') == |name|;
    }
  }
}
