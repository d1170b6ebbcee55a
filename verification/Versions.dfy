/** The version comparison of libdbpmgr/dependencies.c, and the order it computes. */
module Versions {
  import opened CStrings

  // ---- The order, stated without the code ----

  /** Lexicographic comparison: a proper prefix comes first. */
  function Lex(a: seq<int>, b: seq<int>): int {
    if a == [] then (if b == [] then 0 else -1)
    else if b == [] then 1
    else if a[0] != b[0] then (if a[0] < b[0] then -1 else 1)
    else Lex(a[1..], b[1..])
  }

  const TILDE := 0
  const END := 1

  /** How one character of a non-digit run sorts: '~' before the end of the run, that before
      the non-letters, and those before the letters. */
  function Rank(c: char): (r: int)
    ensures r != END
  {
    if c == '~' then TILDE
    else if !IsAlpha(c) then 2 + c as int
    else 2 + 0x11_0000 + c as int
  }

  predicate NotDigit(c: char) { !IsDigit(c) }

  /** The non-digit run that s begins with, as ranks, closed by END. */
  function RunKey(s: string): (k: seq<int>)
    ensures k != []
  {
    if s == "" || IsDigit(s[0]) then [END] else [Rank(s[0])] + RunKey(s[1..])
  }

  /** What follows the leading digits, find_next_nonumeric. */
  function AfterDigits(s: string): (t: string)
    ensures |t| <= |s|
  {
    s[Span(s, IsDigit)..]
  }

  /** What follows the leading non-digit run, find_next_numeric. */
  function AfterRun(s: string): (t: string)
    ensures |t| <= |s| && (t == "" || IsDigit(t[0]))
  {
    s[Span(s, NotDigit)..]
  }

  /** Digits or a run are taken from a non-empty string. */
  lemma StepShrinks(s: string)
    requires s != ""
    ensures |AfterRun(AfterDigits(s))| < |s|
  {
    if !IsDigit(s[0]) {
      assert AfterDigits(s) == s;
      assert NotDigit(s[0]);
    }
  }

  /** The key of a version part: for each (number, run) pair the number and the run's key. The
      number is whatever the reader `num` makes of the whole remaining suffix. */
  function Key(num: string -> int, s: string): seq<int>
    decreases |s|
  {
    if s == "" then []
    else
      StepShrinks(s);
      [num(s)] + RunKey(AfterDigits(s)) + Key(num, AfterRun(AfterDigits(s)))
  }

  /** A part is read as digits, the run of other characters behind them, and the part that follows. */
  lemma KeyReads(num: string -> int, digits: string, run: string, rest: string)
    requires (forall c | c in digits :: IsDigit(c)) && (forall c | c in run :: !IsDigit(c))
    requires digits + run != "" && (rest == "" || (run != "" && IsDigit(rest[0])))
    ensures Key(num, digits + run + rest) == [num(digits + run + rest)] + RunKey(run) + Key(num, rest)
  {
    var s := digits + run + rest;
    var more := run + rest;
    assert s == digits + more;
    assert forall i :: 0 <= i < |digits| ==> s[i] == digits[i] && digits[i] in digits;
    assert run != "" ==> more[0] == run[0] && run[0] in run;
    SpanIs(s, IsDigit, |digits|);
    assert AfterDigits(s) == more;
    assert forall i :: 0 <= i < |run| ==> more[i] == run[i] && run[i] in run;
    SpanIs(more, NotDigit, |run|);
    assert AfterRun(more) == rest;
    RunKeyStops(run, rest);
  }

  lemma {:induction false} RunKeyStops(run: string, rest: string)
    requires (forall c | c in run :: !IsDigit(c)) && (rest == "" || IsDigit(rest[0]))
    ensures RunKey(run + rest) == RunKey(run)
  {
    if run == "" {
      assert run + rest == rest;
    } else {
      assert run[0] in run && (run + rest)[1..] == run[1..] + rest;
      RunKeyStops(run[1..], rest);
    }
  }

  // ---- Lex is a total order ----

  lemma {:induction false} LexZero(a: seq<int>, b: seq<int>)
    ensures Lex(a, b) == 0 <==> a == b
  {
    if a != [] && b != [] && a[0] == b[0] {
      LexZero(a[1..], b[1..]);
      assert a == [a[0]] + a[1..] && b == [b[0]] + b[1..];
    }
  }

  lemma {:induction false} LexFlip(a: seq<int>, b: seq<int>)
    ensures Lex(a, b) == -Lex(b, a)
  {
    if a != [] && b != [] && a[0] == b[0] {
      LexFlip(a[1..], b[1..]);
    }
  }

  lemma {:induction false} LexTransitive(a: seq<int>, b: seq<int>, c: seq<int>)
    requires Lex(a, b) <= 0 && Lex(b, c) <= 0
    ensures Lex(a, c) <= 0
    ensures Lex(a, c) == 0 ==> Lex(a, b) == 0 && Lex(b, c) == 0
  {
    if a == [] || b == [] || c == [] {
    } else if a[0] == b[0] == c[0] {
      LexTransitive(a[1..], b[1..], c[1..]);
    }
  }

  /** A comparison that is decided inside p and q is not changed by what follows. */
  lemma {:induction false} LexDecided(p: seq<int>, q: seq<int>, a: seq<int>, b: seq<int>)
    requires Closed(p) && Closed(q)
    ensures Lex(p + a, q + b) == if Lex(p, q) != 0 then Lex(p, q) else Lex(a, b)
  {
    assert (p + a)[0] == p[0] && (q + b)[0] == q[0];
    assert (p + a)[1..] == p[1..] + a && (q + b)[1..] == q[1..] + b;
    if p[0] == q[0] {
      if p[0] == END {
        assert p[1..] + a == a && q[1..] + b == b;
      } else {
        LexDecided(p[1..], q[1..], a, b);
      }
    }
  }

  /** END closes the sequence and occurs nowhere before. */
  predicate Closed(k: seq<int>) {
    k != [] && if k[0] == END then |k| == 1 else Closed(k[1..])
  }

  lemma {:induction false} RunKeyClosed(s: string)
    ensures Closed(RunKey(s))
  {
    if s != "" && !IsDigit(s[0]) {
      RunKeyClosed(s[1..]);
      assert RunKey(s)[1..] == RunKey(s[1..]);
    }
  }

  // ---- The code ----

  predicate IsEnd(s: string) { s == "" || IsDigit(s[0]) }

  /** compare_substring: the loop over two character pointers. */
  method CompareSubstring(s1: string, s2: string) returns (r: int)
    ensures r == Lex(RunKey(s1), RunKey(s2))
  {
    var i := 0;
    while !IsEnd(s1[i..]) && !IsEnd(s2[i..])
      invariant i <= |s1| && i <= |s2|
      invariant Lex(RunKey(s1), RunKey(s2)) == Lex(RunKey(s1[i..]), RunKey(s2[i..]))
      decreases |s1| - i
    {
      var c1, c2 := s1[i], s2[i];
      assert s1[i..][1..] == s1[i + 1..] && s2[i..][1..] == s2[i + 1..];
      assert RunKey(s1[i..])[1..] == RunKey(s1[i + 1..]) && RunKey(s2[i..])[1..] == RunKey(s2[i + 1..]);
      if c1 != c2 {
        if c1 == '~' {
          return -1;
        }
        if c2 == '~' {
          return 1;
        }
        if !IsAlpha(c1) {
          if !IsAlpha(c2) {
            return if c1 < c2 then -1 else 1;
          }
          return -1;
        }
        if IsAlpha(c2) {
          return if c1 < c2 then -1 else 1;
        }
        return 1;
      }
      i := i + 1;
    }
    if IsEnd(s1[i..]) && IsEnd(s2[i..]) {
      return 0;
    }
    if IsEnd(s1[i..]) {
      return if s2[i] != '~' then -1 else 1;
    }
    return if s1[i] != '~' then 1 else -1;
  }

  /** What comparing two version parts gives: the order of the keys, except that an empty part
      is compared with the first character of the other part alone. */
  function ComparePart(num: string -> int, s1: string, s2: string): int {
    if s1 != "" && s2 != "" then Lex(Key(num, s1), Key(num, s2))
    else if s1 == s2 then 0
    else if s1 == "" then (if s2[0] == '~' then 1 else -1)
    else if s1[0] == '~' then -1 else 1
  }

  /** compare_version_string */
  method CompareVersionString(num: string -> int, s1: string, s2: string) returns (r: int)
    ensures r == ComparePart(num, s1, s2)
  {
    var t1, t2 := s1, s2;
    while t1 != "" && t2 != ""
      invariant ComparePart(num, s1, s2) == ComparePart(num, t1, t2)
      decreases |t1|
    {
      KeyUnfolds(num, t1, t2);
      var n1, n2 := num(t1), num(t2);
      if n1 < n2 {
        return -1;
      }
      if n1 > n2 {
        return 1;
      }
      StepShrinks(t1);
      t1, t2 := AfterDigits(t1), AfterDigits(t2);
      n1 := CompareSubstring(t1, t2);
      if n1 != 0 {
        return n1;
      }
      t1, t2 := AfterRun(t1), AfterRun(t2);
    }
    if t1 == "" && t2 != "" {
      return if t2[0] == '~' then 1 else -1;
    }
    if t1 != "" && t2 == "" {
      return if t1[0] == '~' then -1 else 1;
    }
    return 0;
  }

  /** Two keys are compared by their numbers, then by their first runs, then by what follows. */
  lemma LexOfPairs(m: int, a: seq<int>, k: seq<int>, n: int, b: seq<int>, l: seq<int>)
    requires Closed(a) && Closed(b)
    ensures Lex([m] + a + k, [n] + b + l) ==
              if m < n then -1 else if m > n then 1 else if Lex(a, b) != 0 then Lex(a, b) else Lex(k, l)
  {
    assert ([m] + a + k)[0] == m && ([m] + a + k)[1..] == a + k;
    assert ([n] + b + l)[0] == n && ([n] + b + l)[1..] == b + l;
    LexDecided(a, b, k, l);
  }

  /** A suffix that begins with a digit is compared by its key even against the empty one. */
  lemma SuffixCompare(num: string -> int, s: string, t: string)
    requires IsEnd(s) && IsEnd(t)
    ensures ComparePart(num, s, t) == Lex(Key(num, s), Key(num, t))
  {
  }

  /** One round of the loop peels one (number, run) pair off both keys. */
  lemma KeyUnfolds(num: string -> int, s: string, t: string)
    requires s != "" && t != ""
    ensures var a, b := AfterDigits(s), AfterDigits(t);
            Lex(Key(num, s), Key(num, t)) ==
              if num(s) < num(t) then -1
              else if num(s) > num(t) then 1
              else if Lex(RunKey(a), RunKey(b)) != 0 then Lex(RunKey(a), RunKey(b))
              else ComparePart(num, AfterRun(a), AfterRun(b))
  {
    var a, b := AfterDigits(s), AfterDigits(t);
    RunKeyClosed(a);
    RunKeyClosed(b);
    LexOfPairs(num(s), RunKey(a), Key(num, AfterRun(a)), num(t), RunKey(b), Key(num, AfterRun(b)));
    SuffixCompare(num, AfterRun(a), AfterRun(b));
  }

  /** A version split into epoch, main part and revision. */
  datatype Version = Version(epoch: string, main: string, rev: string)

  /** The position after the last c: the strchr loop of version_decode. */
  function AfterLast(s: string, c: char): (n: nat)
    ensures n <= |s| && (n == 0 <==> c !in s)
    ensures n > 0 ==> s[n - 1] == c
    ensures c !in s[n..]
  {
    if c !in s then 0 else if s[|s| - 1] == c then |s| else AfterLast(s[..|s| - 1], c)
  }

  /** version_decode: the epoch ends at the first colon, the revision starts after the last dash. */
  function Decode(version: string): Version {
    var colon := Find(version, ':');
    var epoch := if colon < |version| then version[..colon] else "0";
    var rest := if colon < |version| then version[colon + 1..] else version;
    var dash := AfterLast(rest, '-');
    if dash > 0 then Version(epoch, rest[..dash - 1], rest[dash..])
    else Version(epoch, if rest == "" then "0" else rest, "0")
  }

  lemma FindSplits(a: string, c: char, b: string)
    requires c !in a
    ensures var s := a + [c] + b; Find(s, c) == |a| && s[..|a|] == a && s[|a| + 1..] == b
  {
    var s := a + [c] + b;
    assert s[|a|] == c && forall i :: 0 <= i < |a| ==> s[i] == a[i];
  }

  lemma AfterLastSplits(a: string, c: char, b: string)
    requires c !in b
    ensures var s := a + [c] + b; AfterLast(s, c) == |a| + 1 && s[..|a|] == a && s[|a| + 1..] == b
  {
    var s := a + [c] + b;
    assert s[|a| + 1..] == b;
    AfterLastIs(s, c, |a|);
  }

  lemma {:induction false} AfterLastIs(s: string, c: char, n: nat)
    requires n < |s| && s[n] == c && c !in s[n + 1..]
    ensures AfterLast(s, c) == n + 1
  {
    if n + 1 < |s| {
      assert s[|s| - 1] in s[n + 1..];
      var t := s[..|s| - 1];
      assert t[n + 1..] == s[n + 1..][..|t| - n - 1];
      AfterLastIs(t, c, n);
    }
  }

  /** Decoding recovers the three parts of a version that is written out in full. */
  lemma DecodeInvertsRendering(epoch: string, main: string, rev: string)
    requires ':' !in epoch && '-' !in rev
    ensures Decode(epoch + ":" + main + "-" + rev) == Version(epoch, main, rev)
  {
    var rest := main + "-" + rev;
    FindSplits(epoch, ':', rest);
    AfterLastSplits(main, '-', rev);
    DecodeSplits(epoch + ":" + rest, epoch, rest, main, rev);
    Regrouped(epoch + ":", main, "-", rev);
  }

  /** Without an epoch it is 0, whatever dashes the main part holds. */
  lemma DecodeWithoutEpoch(main: string, rev: string)
    requires ':' !in main && ':' !in rev && '-' !in rev
    ensures Decode(main + "-" + rev) == Version("0", main, rev)
  {
    NotFound(main + "-" + rev, ':');
    AfterLastSplits(main, '-', rev);
  }

  /** Without a revision it is 0, whatever colons the main part holds. */
  lemma DecodeWithoutRevision(epoch: string, main: string)
    requires ':' !in epoch && '-' !in main && main != ""
    ensures Decode(epoch + ":" + main) == Version(epoch, main, "0")
  {
    FindSplits(epoch, ':', main);
  }

  lemma DecodePlain(main: string)
    requires ':' !in main && '-' !in main && main != ""
    ensures Decode(main) == Version("0", main, "0")
  {
    NotFound(main, ':');
  }

  /** Nothing after the epoch counts as a main part of 0. */
  lemma DecodeNothing(epoch: string)
    requires ':' !in epoch
    ensures Decode("") == Version("0", "0", "0") && Decode(epoch + ":") == Version(epoch, "0", "0")
  {
    FindSplits(epoch, ':', "");
    assert epoch + ":" + "" == epoch + ":";
  }

  lemma Regrouped(a: string, b: string, c: string, d: string)
    ensures a + b + c + d == a + (b + c + d)
  {
  }

  lemma DecodeSplits(version: string, epoch: string, rest: string, main: string, rev: string)
    requires |epoch| < |version| && Find(version, ':') == |epoch|
    requires version[..|epoch|] == epoch && version[|epoch| + 1..] == rest
    requires |main| < |rest| && AfterLast(rest, '-') == |main| + 1
    requires rest[..|main|] == main && rest[|main| + 1..] == rev
    ensures Decode(version) == Version(epoch, main, rev)
  {
  }

  /** Both parts are there to compare: the version has no dash after its epoch, or text on both
      sides of the last one. */
  predicate WellFormed(version: string) {
    var colon := Find(version, ':');
    var rest := if colon < |version| then version[colon + 1..] else version;
    '-' !in rest || 1 < AfterLast(rest, '-') < |rest|
  }

  lemma WellFormedIffPartsNonEmpty(version: string)
    ensures WellFormed(version) <==> Decode(version).main != "" && Decode(version).rev != ""
  {
  }

  /** dbpmgr_depend_compare_version */
  method CompareVersion(num: string -> int, ver1: string, ver2: string) returns (r: int)
    ensures r == Compare(num, ver1, ver2)
  {
    var v1, v2 := Decode(ver1), Decode(ver2);
    var e1, e2 := AToI(v1.epoch), AToI(v2.epoch);
    if e1 != e2 {
      return if e1 < e2 then -1 else 1;
    }
    r := CompareVersionString(num, v1.main, v2.main);
    if r == 0 {
      r := CompareVersionString(num, v1.rev, v2.rev);
    }
  }

  function Sign(m: int, n: int): int {
    if m < n then -1 else if m > n then 1 else 0
  }

  /** The first of three comparisons that decides. */
  function FirstDecision(epoch: int, main: int, rev: int): int {
    if epoch != 0 then epoch else if main != 0 then main else rev
  }

  /** The result of the comparison, part by part. */
  function Compare(num: string -> int, ver1: string, ver2: string): int {
    var v1, v2 := Decode(ver1), Decode(ver2);
    FirstDecision(Sign(AToI(v1.epoch), AToI(v2.epoch)),
                  ComparePart(num, v1.main, v2.main),
                  ComparePart(num, v1.rev, v2.rev))
  }

  /** An epoch of 0 can be left out. */
  lemma EpochZeroIsNone(num: string -> int, v: string)
    requires ':' !in v
    ensures Compare(num, v, "0:" + v) == 0
  {
    FindSplits("0", ':', v);
    NotFound(v, ':');
    assert "0" + ":" + v == "0:" + v;
    SameParts(num, v, "0:" + v);
  }

  /** So can a revision of 0. */
  lemma RevisionZeroIsNone(num: string -> int, v: string)
    requires v != "" && ':' !in v && '-' !in v
    ensures Compare(num, v, v + "-0") == 0
  {
    DecodePlain(v);
    DecodeWithoutEpoch(v, "0");
    assert v + "-" + "0" == v + "-0";
    SameParts(num, v, v + "-0");
  }

  lemma SameParts(num: string -> int, a: string, b: string)
    requires Decode(a) == Decode(b)
    ensures Compare(num, a, b) == 0
  {
    var v := Decode(a);
    LexZero(Key(num, v.main), Key(num, v.main));
    LexZero(Key(num, v.rev), Key(num, v.rev));
  }

  // ---- The comparison is a total preorder, whatever the number reader ----

  /** What equivalent versions have in common. */
  function VersionKey(num: string -> int, ver: string): (int, seq<int>, seq<int>) {
    var v := Decode(ver);
    (AToI(v.epoch), Key(num, v.main), Key(num, v.rev))
  }

  /** On versions with both parts the comparison is the lexicographic order of the keys. */
  lemma CompareIsKeyOrder(num: string -> int, a: string, b: string)
    requires WellFormed(a) && WellFormed(b)
    ensures var (e, m, r) := VersionKey(num, a);
            var (f, n, s) := VersionKey(num, b);
            Compare(num, a, b) == FirstDecision(Sign(e, f), Lex(m, n), Lex(r, s))
  {
    WellFormedIffPartsNonEmpty(a);
    WellFormedIffPartsNonEmpty(b);
  }

  lemma PartFlips(num: string -> int, s: string, t: string)
    ensures ComparePart(num, s, t) == -ComparePart(num, t, s)
  {
    LexFlip(Key(num, s), Key(num, t));
  }

  /** Swapping the versions negates the answer, for all versions. */
  lemma CompareFlips(num: string -> int, a: string, b: string)
    ensures Compare(num, a, b) == -Compare(num, b, a)
  {
    var v, w := Decode(a), Decode(b);
    PartFlips(num, v.main, w.main);
    PartFlips(num, v.rev, w.rev);
  }

  lemma CompareZeroIffSameKey(num: string -> int, a: string, b: string)
    requires WellFormed(a) && WellFormed(b)
    ensures Compare(num, a, b) == 0 <==> VersionKey(num, a) == VersionKey(num, b)
  {
    CompareIsKeyOrder(num, a, b);
    var k, l := VersionKey(num, a), VersionKey(num, b);
    LexZero(k.1, l.1);
    LexZero(k.2, l.2);
  }

  /** How the results of three comparisons hang together if the comparison is transitive. */
  predicate Chained(ab: int, bc: int, ac: int) {
    ab <= 0 && bc <= 0 ==> ac <= 0 && (ac == 0 ==> ab == bc == 0)
  }

  lemma LexChained(a: seq<int>, b: seq<int>, c: seq<int>)
    ensures Chained(Lex(a, b), Lex(b, c), Lex(a, c))
  {
    if Lex(a, b) <= 0 && Lex(b, c) <= 0 {
      LexTransitive(a, b, c);
    }
  }

  lemma DecisionsChained(e: (int, int, int), m: (int, int, int), r: (int, int, int))
    requires Chained(e.0, e.1, e.2) && Chained(m.0, m.1, m.2) && Chained(r.0, r.1, r.2)
    ensures Chained(FirstDecision(e.0, m.0, r.0), FirstDecision(e.1, m.1, r.1), FirstDecision(e.2, m.2, r.2))
  {
  }

  /** With CompareFlips, which also gives totality, this makes the comparison a total preorder. */
  lemma CompareTransitive(num: string -> int, a: string, b: string, c: string)
    requires WellFormed(a) && WellFormed(b) && WellFormed(c)
    requires Compare(num, a, b) <= 0 && Compare(num, b, c) <= 0
    ensures Compare(num, a, c) <= 0
  {
    CompareIsKeyOrder(num, a, b);
    CompareIsKeyOrder(num, b, c);
    CompareIsKeyOrder(num, a, c);
    var (e, m, r) := VersionKey(num, a);
    var (f, n, s) := VersionKey(num, b);
    var (g, o, t) := VersionKey(num, c);
    LexChained(m, n, o);
    LexChained(r, s, t);
    DecisionsChained((Sign(e, f), Sign(f, g), Sign(e, g)), (Lex(m, n), Lex(n, o), Lex(m, o)),
                     (Lex(r, s), Lex(s, t), Lex(r, t)));
  }

  // ---- sscanf(s, "%i", &n) with n preset to 0 ----

  function HexValue(c: char): int {
    if IsDigit(c) then DigitValue(c)
    else if 'a' <= c <= 'f' then c as int - 'a' as int + 10
    else if 'A' <= c <= 'F' then c as int - 'A' as int + 10
    else 16
  }

  /** The leading digits of s in the given base, on top of the value read so far. */
  function Accumulate(s: string, base: int, acc: int): int {
    if s == "" || HexValue(s[0]) >= base then acc
    else Accumulate(s[1..], base, base * acc + HexValue(s[0]))
  }

  /** A leading 0x makes the number hexadecimal and any other leading 0 makes it octal. */
  function ScanMagnitude(s: string): int {
    if |s| > 2 && s[0] == '0' && (s[1] == 'x' || s[1] == 'X') && HexValue(s[2]) < 16 then Accumulate(s[2..], 16, 0)
    else if s != "" && s[0] == '0' then Accumulate(s, 8, 0)
    else Accumulate(s, 10, 0)
  }

  function ScanInt(s: string): int {
    var t := SkipSpace(s);
    if t != "" && t[0] == '-' then -ScanMagnitude(t[1..])
    else if t != "" && t[0] == '+' then ScanMagnitude(t[1..])
    else ScanMagnitude(t)
  }

  /** A part e fits into the order when no triple with e in it and two non-empty parts breaks
      transitivity. */
  ghost predicate FitsTheOrder(num: string -> int, e: string) {
    forall a, b | a != "" && b != "" ::
      && (ComparePart(num, a, e) <= 0 && ComparePart(num, e, b) <= 0 ==> ComparePart(num, a, b) <= 0)
      && (ComparePart(num, e, a) <= 0 && ComparePart(num, a, b) <= 0 ==> ComparePart(num, e, b) <= 0)
      && (ComparePart(num, a, b) <= 0 && ComparePart(num, b, e) <= 0 ==> ComparePart(num, a, e) <= 0)
  }

  /** Exactly the empty part does not fit: "~" sorts before it, it sorts before "0~", and "0~"
      equals "~". */
  lemma FitsIffNonEmpty(e: string)
    ensures FitsTheOrder(ScanInt, e) <==> e != ""
  {
    if e == "" {
      EmptyPartDoesNotFit();
    } else {
      forall a, b | a != "" && b != ""
        ensures ComparePart(ScanInt, a, e) <= 0 && ComparePart(ScanInt, e, b) <= 0 ==> ComparePart(ScanInt, a, b) <= 0
        ensures ComparePart(ScanInt, e, a) <= 0 && ComparePart(ScanInt, a, b) <= 0 ==> ComparePart(ScanInt, e, b) <= 0
        ensures ComparePart(ScanInt, a, b) <= 0 && ComparePart(ScanInt, b, e) <= 0 ==> ComparePart(ScanInt, a, e) <= 0
      {
        PartTransitive(ScanInt, a, e, b);
        PartTransitive(ScanInt, e, a, b);
        PartTransitive(ScanInt, a, b, e);
      }
    }
  }

  lemma TildeIsZeroTilde()
    ensures Key(ScanInt, "~") == Key(ScanInt, "0~")
  {
    var tilde, zero := "~", "0~";
    assert ScanInt(tilde) == 0 && ScanInt(zero) == 0 by {
      assert tilde[0..] == tilde && zero[0..] == zero;
      assert Accumulate(zero, 8, 0) == Accumulate(zero[1..], 8, 0);
    }
    assert AfterDigits(tilde) == tilde;
    assert AfterDigits(zero) == zero[1..] == tilde by {
      SpanIs(zero, IsDigit, 1);
    }
  }

  lemma EmptyPartDoesNotFit()
    ensures ComparePart(ScanInt, "", "0~") <= 0 && ComparePart(ScanInt, "0~", "~") <= 0
    ensures ComparePart(ScanInt, "", "~") > 0
  {
    TildeIsZeroTilde();
    LexZero(Key(ScanInt, "0~"), Key(ScanInt, "~"));
  }

  lemma PartTransitive(num: string -> int, a: string, b: string, c: string)
    requires a != "" && b != "" && c != ""
    ensures ComparePart(num, a, b) <= 0 && ComparePart(num, b, c) <= 0 ==> ComparePart(num, a, c) <= 0
  {
    if ComparePart(num, a, b) <= 0 && ComparePart(num, b, c) <= 0 {
      LexTransitive(Key(num, a), Key(num, b), Key(num, c));
    }
  }

  /** A version fits into the order when no triple with it and two well-formed versions breaks
      transitivity. */
  ghost predicate FitsAmongVersions(num: string -> int, v: string) {
    forall a, b | WellFormed(a) && WellFormed(b) ::
      && (Compare(num, a, v) <= 0 && Compare(num, v, b) <= 0 ==> Compare(num, a, b) <= 0)
      && (Compare(num, v, a) <= 0 && Compare(num, a, b) <= 0 ==> Compare(num, v, b) <= 0)
      && (Compare(num, a, b) <= 0 && Compare(num, b, v) <= 0 ==> Compare(num, a, v) <= 0)
  }

  lemma CompareChained(num: string -> int, a: string, b: string, c: string)
    requires WellFormed(a) && WellFormed(b) && WellFormed(c)
    ensures Compare(num, a, b) <= 0 && Compare(num, b, c) <= 0 ==> Compare(num, a, c) <= 0
  {
    if Compare(num, a, b) <= 0 && Compare(num, b, c) <= 0 {
      CompareTransitive(num, a, b, c);
    }
  }

  function Rendered(v: Version): string { v.epoch + ":" + v.main + "-" + v.rev }

  lemma RenderedIs(v: Version)
    requires ':' !in v.epoch && '-' !in v.rev && v.main != "" && v.rev != ""
    ensures Decode(Rendered(v)) == v && WellFormed(Rendered(v))
  {
    DecodeInvertsRendering(v.epoch, v.main, v.rev);
    WellFormedIffPartsNonEmpty(Rendered(v));
  }

  lemma EpochHasNoColon(version: string)
    ensures ':' !in Decode(version).epoch && '-' !in Decode(version).rev
  {
    var colon := Find(version, ':');
    assert forall i :: 0 <= i < colon ==> version[..colon][i] == version[i];
  }

  lemma SameEpochDecides(num: string -> int, ver1: string, ver2: string)
    requires AToI(Decode(ver1).epoch) == AToI(Decode(ver2).epoch)
    ensures var v1, v2 := Decode(ver1), Decode(ver2);
            var main := ComparePart(num, v1.main, v2.main);
            Compare(num, ver1, ver2) == if main != 0 then main else ComparePart(num, v1.rev, v2.rev)
  {
  }

  lemma PartEqualsItself(num: string -> int, s: string)
    ensures ComparePart(num, s, s) == 0
  {
    LexZero(Key(num, s), Key(num, s));
  }

  /** Three versions that differ in the main part as the empty part, "0~" and "~" do. */
  lemma EmptyMainDoesNotFit(v: string)
    requires Decode(v).main == ""
    ensures !FitsAmongVersions(ScanInt, v)
  {
    var d := Decode(v);
    var a, b := Version(d.epoch, "0~", "0"), Version(d.epoch, "~", "0");
    EpochHasNoColon(v);
    RenderedIs(a);
    RenderedIs(b);
    EmptyPartDoesNotFit();
    PartEqualsItself(ScanInt, "0");
    SameEpochDecides(ScanInt, v, Rendered(a));
    SameEpochDecides(ScanInt, Rendered(a), Rendered(b));
    SameEpochDecides(ScanInt, v, Rendered(b));
  }

  lemma EmptyRevisionDoesNotFit(v: string)
    requires Decode(v).main != "" && Decode(v).rev == ""
    ensures !FitsAmongVersions(ScanInt, v)
  {
    var d := Decode(v);
    var a, b := Version(d.epoch, d.main, "0~"), Version(d.epoch, d.main, "~");
    EpochHasNoColon(v);
    RenderedIs(a);
    RenderedIs(b);
    EmptyPartDoesNotFit();
    PartEqualsItself(ScanInt, d.main);
    SameEpochDecides(ScanInt, v, Rendered(a));
    SameEpochDecides(ScanInt, Rendered(a), Rendered(b));
    SameEpochDecides(ScanInt, v, Rendered(b));
  }

  /** Exactly the versions that are not well-formed take part in a violation of transitivity. */
  lemma FitsIffWellFormed(v: string)
    ensures FitsAmongVersions(ScanInt, v) <==> WellFormed(v)
  {
    WellFormedIffPartsNonEmpty(v);
    if WellFormed(v) {
      forall a, b | WellFormed(a) && WellFormed(b)
        ensures Compare(ScanInt, a, v) <= 0 && Compare(ScanInt, v, b) <= 0 ==> Compare(ScanInt, a, b) <= 0
        ensures Compare(ScanInt, v, a) <= 0 && Compare(ScanInt, a, b) <= 0 ==> Compare(ScanInt, v, b) <= 0
        ensures Compare(ScanInt, a, b) <= 0 && Compare(ScanInt, b, v) <= 0 ==> Compare(ScanInt, a, v) <= 0
      {
        CompareChained(ScanInt, a, v, b);
        CompareChained(ScanInt, v, a, b);
        CompareChained(ScanInt, a, b, v);
      }
    } else if Decode(v).main == "" {
      EmptyMainDoesNotFit(v);
    } else {
      EmptyRevisionDoesNotFit(v);
    }
  }
}
