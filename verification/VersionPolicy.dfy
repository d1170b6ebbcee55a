/** The version order of section 5.6.12 of the Debian Policy Manual, and exactly when the comparison
    of libdbpmgr/dependencies.c agrees with it. */
module VersionPolicy {
  import opened CStrings
  import opened Versions

  // ---- One run of non-digits ----

  /** How section 5.6.12 of the Debian Policy Manual ranks one character of a non-digit run: '~'
      before the end of the run, that before the letters, and those before all others. */
  function PolicyRank(c: char): (r: int)
    ensures r != END
  {
    if c == '~' then TILDE
    else if IsAlpha(c) then 2 + c as int
    else 2 + 0x11_0000 + c as int
  }

  function PolicyRunKey(s: string): (k: seq<int>)
    ensures k != []
  {
    if s == "" || IsDigit(s[0]) then [END] else [PolicyRank(s[0])] + PolicyRunKey(s[1..])
  }

  /** A character that is neither a letter nor a digit nor the tilde. */
  predicate Other(c: char) { !IsAlpha(c) && !IsDigit(c) && c != '~' }

  /** Of the first two characters in which the runs differ, one is a letter and one an Other. */
  predicate Mixed(s: string, t: string) {
    !IsEnd(s) && !IsEnd(t) &&
    if s[0] == t[0] then Mixed(s[1..], t[1..])
    else (IsAlpha(s[0]) && Other(t[0])) || (Other(s[0]) && IsAlpha(t[0]))
  }

  /** Exactly on the runs that are not mixed the code's order is that of the manual; on the others
      it is the opposite. */
  lemma {:induction false} RunsAgreeIff(s: string, t: string)
    ensures Lex(RunKey(s), RunKey(t)) == Lex(PolicyRunKey(s), PolicyRunKey(t)) <==> !Mixed(s, t)
    ensures Mixed(s, t) ==> Lex(RunKey(s), RunKey(t)) == -Lex(PolicyRunKey(s), PolicyRunKey(t)) != 0
    ensures Lex(RunKey(s), RunKey(t)) == 0 <==> Lex(PolicyRunKey(s), PolicyRunKey(t)) == 0
  {
    if !IsEnd(s) && !IsEnd(t) {
      RunHeads(s);
      RunHeads(t);
      if s[0] == t[0] {
        RunsAgreeIff(s[1..], t[1..]);
      }
    }
  }

  /** The simplest case: of a non-letter and a letter in front, the code puts the non-letter first. */
  lemma NonLettersBeforeLetters(o: char, s: string, l: char, t: string)
    requires Other(o) && IsAlpha(l)
    ensures Lex(RunKey([o] + s), RunKey([l] + t)) == -1 && Lex(PolicyRunKey([o] + s), PolicyRunKey([l] + t)) == 1
  {
    RunHeads([o] + s);
    RunHeads([l] + t);
  }

  lemma RunHeads(s: string)
    requires !IsEnd(s)
    ensures RunKey(s)[0] == Rank(s[0]) && RunKey(s)[1..] == RunKey(s[1..])
    ensures PolicyRunKey(s)[0] == PolicyRank(s[0]) && PolicyRunKey(s)[1..] == PolicyRunKey(s[1..])
  {
  }

  // ---- One part ----

  lemma ManualShrinks(s: string)
    ensures |AfterDigits(AfterRun(s))| <= |s| && (s != "" ==> |AfterDigits(AfterRun(s))| < |s|)
  {
    if s != "" && IsDigit(s[0]) {
      assert AfterRun(s) == s;
    }
  }

  /** The manual's comparison: the initial runs of non-digits, which may be empty, then the numbers
      that follow, where no digits count as zero, and so on until both parts are exhausted. */
  function Manual(s: string, t: string): int
    decreases |s| + |t|
  {
    if s == "" && t == "" then 0
    else
      var run := Lex(PolicyRunKey(s), PolicyRunKey(t));
      var a, b := AfterRun(s), AfterRun(t);
      ManualShrinks(s);
      ManualShrinks(t);
      if run != 0 then run
      else if LeadingNat(a) != LeadingNat(b) then Sign(LeadingNat(a), LeadingNat(b))
      else Manual(AfterDigits(a), AfterDigits(b))
  }

  /** The first of two comparisons that decides. */
  function First(x: int, y: int): int { if x != 0 then x else y }

  /** What is left after a number and a run. */
  function Rest(s: string): (t: string)
    ensures IsEnd(t) && (s != "" ==> |t| < |s|)
  {
    if s != "" then StepShrinks(s); AfterRun(AfterDigits(s)) else ""
  }

  /** The decision of one round of the code's loop, 0 if it goes on. */
  function CodeRound(num: string -> int, s: string, t: string): int {
    First(Sign(num(s), num(t)), Lex(RunKey(AfterDigits(s)), RunKey(AfterDigits(t))))
  }

  /** What the manual says about the same stretch: a part that begins with a run is told from one
      that begins with a number by the run alone. */
  function ManualRound(s: string, t: string): int {
    if IsEnd(s) != IsEnd(t) then Lex(PolicyRunKey(s), PolicyRunKey(t))
    else First(Sign(LeadingNat(s), LeadingNat(t)), Lex(PolicyRunKey(AfterDigits(s)), PolicyRunKey(AfterDigits(t))))
  }

  lemma NoDigits(s: string)
    requires s == "" || !IsDigit(s[0])
    ensures AfterDigits(s) == s && LeadingNat(s) == 0
  {
  }

  lemma NoRun(s: string)
    requires IsEnd(s)
    ensures AfterRun(s) == s && PolicyRunKey(s) == [END]
  {
  }

  /** One turn of the manual's comparison, from where its runs end. */
  lemma ManualTurn(s: string, t: string, a: string, b: string)
    requires a == AfterRun(s) && b == AfterRun(t)
    ensures Manual(s, t) == First(Lex(PolicyRunKey(s), PolicyRunKey(t)), FromNumbers(a, b))
  {
    if s == "" && t == "" {
      NoRun("");
      NoDigits("");
    }
  }

  /** The rest of the manual's comparison where both parts are at a number or exhausted. */
  function FromNumbers(a: string, b: string): int {
    First(Sign(LeadingNat(a), LeadingNat(b)), Manual(AfterDigits(a), AfterDigits(b)))
  }

  /** A number in front of both can be compared and taken off before the rest. */
  lemma NumberFirst(s: string, t: string)
    requires IsEnd(s) && IsEnd(t)
    ensures Manual(s, t) == FromNumbers(s, t)
  {
    NoRun(s);
    NoRun(t);
    LexZero([END], [END]);
    ManualTurn(s, t, s, t);
  }

  /** So can a run. */
  lemma RunFirst(s: string, t: string)
    ensures Manual(s, t) == First(Lex(PolicyRunKey(s), PolicyRunKey(t)), Manual(AfterRun(s), AfterRun(t)))
  {
    ManualTurn(s, t, AfterRun(s), AfterRun(t));
    NumberFirst(AfterRun(s), AfterRun(t));
  }

  lemma ManualUnfolds(s: string, t: string)
    requires s != "" && t != ""
    ensures Manual(s, t) == First(ManualRound(s, t), Manual(Rest(s), Rest(t)))
  {
    if IsEnd(s) && IsEnd(t) {
      NumberFirst(s, t);
      RunFirst(AfterDigits(s), AfterDigits(t));
    } else {
      RunFirst(s, t);
      if !IsEnd(s) && !IsEnd(t) {
        NoDigits(s);
        NoDigits(t);
      } else {
        RunAgainstNone(s, t);
      }
    }
  }

  lemma RunAgainstNone(s: string, t: string)
    requires IsEnd(s) != IsEnd(t)
    ensures Lex(PolicyRunKey(s), PolicyRunKey(t)) != 0
  {
    if IsEnd(s) {
      RunHeads(t);
    } else {
      RunHeads(s);
    }
  }

  lemma {:induction false} ManualFlips(s: string, t: string)
    ensures Manual(s, t) == -Manual(t, s)
    decreases |s| + |t|
  {
    if s != "" || t != "" {
      var a, b := AfterRun(s), AfterRun(t);
      ManualShrinks(s);
      ManualShrinks(t);
      ManualFlips(AfterDigits(a), AfterDigits(b));
      TurnFlips(s, t, a, b);
    }
  }

  lemma TurnFlips(s: string, t: string, a: string, b: string)
    requires a == AfterRun(s) && b == AfterRun(t)
    requires Manual(AfterDigits(a), AfterDigits(b)) == -Manual(AfterDigits(b), AfterDigits(a))
    ensures Manual(s, t) == -Manual(t, s)
  {
    ManualTurn(s, t, a, b);
    ManualTurn(t, s, b, a);
    LexFlip(PolicyRunKey(s), PolicyRunKey(t));
  }

  /** A part that the code puts after an exhausted one and the manual does not: the number in front
      is zero, and nothing or a tilde follows. */
  predicate Overlooked(t: string) {
    t != "" && IsDigit(t[0]) && LeadingNat(t) == 0 && (AfterDigits(t) == "" || AfterDigits(t)[0] == '~')
  }

  lemma AgainstEmptyRun(t: string)
    requires t != "" && !IsDigit(t[0])
    ensures Manual("", t) == if t[0] == '~' then 1 else -1
  {
    RunHeads(t);
  }

  lemma AgainstEmptyIff(num: string -> int, t: string)
    ensures ComparePart(num, "", t) == Manual("", t) <==> !Overlooked(t)
  {
    if t != "" {
      if IsDigit(t[0]) {
        NumberFirst("", t);
        NoDigits("");
        var r := AfterDigits(t);
        if r != "" {
          AgainstEmptyRun(r);
        }
      } else {
        AgainstEmptyRun(t);
      }
    }
  }

  /** Where the code departs from the manual: in what it takes an exhausted part to come before, or
      in the first round that decides for one of the two. If it decides for both, they differ; if
      for one only, the rest does not happen to decide the same way for the other. */
  predicate Departs(num: string -> int, s: string, t: string)
    decreases |s|
  {
    if s == "" then Overlooked(t)
    else if t == "" then Overlooked(s)
    else
      var code, manual := CodeRound(num, s, t), ManualRound(s, t);
      if code == 0 && manual == 0 then Departs(num, Rest(s), Rest(t))
      else if code != 0 && manual != 0 then code != manual
      else if code != 0 then Manual(Rest(s), Rest(t)) != code
      else ComparePart(num, Rest(s), Rest(t)) != manual
  }

  lemma CodeUnfolds(num: string -> int, s: string, t: string)
    requires s != "" && t != ""
    ensures ComparePart(num, s, t) == First(CodeRound(num, s, t), ComparePart(num, Rest(s), Rest(t)))
  {
    KeyUnfolds(num, s, t);
  }

  /** For every reader of numbers and any two parts the code answers as the manual demands exactly
      if it does not depart from it. */
  lemma {:induction false} PartsAgreeIff(num: string -> int, s: string, t: string)
    ensures ComparePart(num, s, t) == Manual(s, t) <==> !Departs(num, s, t)
    decreases |s|
  {
    if s == "" {
      AgainstEmptyIff(num, t);
    } else if t == "" {
      AgainstEmptyIff(num, s);
      PartFlips(num, s, "");
      ManualFlips(s, "");
    } else {
      CodeUnfolds(num, s, t);
      ManualUnfolds(s, t);
      PartsAgreeIff(num, Rest(s), Rest(t));
    }
  }

  // ---- Parts whose numbers are read as decimal ----

  /** Every number that the code comes to is read as the decimal number it is for the manual. */
  predicate ReadsDecimals(num: string -> int, s: string)
    decreases |s|
  {
    s == "" || (num(s) == LeadingNat(s) && ReadsDecimals(num, Rest(s)))
  }

  /** The two parts differ first in a letter and another character, or one is exhausted where the
      other goes on with a zero. */
  predicate MixedParts(s: string, t: string)
    decreases |s|
  {
    if s == "" then Overlooked(t)
    else if t == "" then Overlooked(s)
    else
      LeadingNat(s) == LeadingNat(t) &&
      if Lex(RunKey(AfterDigits(s)), RunKey(AfterDigits(t))) != 0 then Mixed(AfterDigits(s), AfterDigits(t))
      else MixedParts(Rest(s), Rest(t))
  }

  /** With decimal numbers only these two differences remain, for parts that both begin with a
      number or both with a run. */
  lemma {:induction false} DecimalPartsAgreeIff(num: string -> int, s: string, t: string)
    requires ReadsDecimals(num, s) && ReadsDecimals(num, t)
    requires IsEnd(s) == IsEnd(t) || s == "" || t == ""
    ensures ComparePart(num, s, t) == Manual(s, t) <==> !MixedParts(s, t)
    decreases |s|
  {
    PartsAgreeIff(num, s, t);
    if s != "" && t != "" {
      DecimalRound(num, s, t);
      DecimalPartsAgreeIff(num, Rest(s), Rest(t));
      PartsAgreeIff(num, Rest(s), Rest(t));
    }
  }

  /** Both decide in the same rounds, and differently where the runs are mixed. */
  lemma DecimalRound(num: string -> int, s: string, t: string)
    requires num(s) == LeadingNat(s) && num(t) == LeadingNat(t) && IsEnd(s) == IsEnd(t)
    ensures var code, manual, a, b := CodeRound(num, s, t), ManualRound(s, t), AfterDigits(s), AfterDigits(t);
            var runs, numbers := Lex(RunKey(a), RunKey(b)), LeadingNat(s) == LeadingNat(t);
            && (code == 0 <==> manual == 0)
            && (code == 0 <==> numbers && runs == 0)
            && (code != manual <==> numbers && runs != 0 && Mixed(a, b))
  {
    RunsAgreeIff(AfterDigits(s), AfterDigits(t));
  }

  // ---- When %i reads a decimal number ----

  lemma {:induction false} AtLeast(s: string, acc: int)
    requires acc >= 0
    ensures Accumulate(s, 10, acc) >= acc
  {
    if s != "" && HexValue(s[0]) < 10 {
      AtLeast(s[1..], 10 * acc + HexValue(s[0]));
    }
  }

  /** Reading the same digits in base 8 and in base 10 from two values on. */
  lemma {:induction false} OctalIsDecimalIff(s: string, o: int, v: int)
    requires 0 <= o <= v && (o == v ==> v < 8)
    ensures Accumulate(s, 8, o) == Accumulate(s, 10, v) <==> o == v && Accumulate(s, 10, v) < 8
    ensures Accumulate(s, 8, o) <= Accumulate(s, 10, v)
  {
    if s != "" && HexValue(s[0]) < 10 {
      var d := HexValue(s[0]);
      AtLeast(s[1..], 10 * v + d);
      if d < 8 {
        OctalIsDecimalIff(s[1..], 8 * o + d, 10 * v + d);
      }
    }
  }

  /** The value of digits read from the left, on top of acc. */
  function FromLeft(s: string, acc: int): int
    requires forall c | c in s :: IsDigit(c)
  {
    if s == "" then acc
    else
      assert s[0] in s;
      FromLeft(s[1..], 10 * acc + DigitValue(s[0]))
  }

  lemma {:induction false} FromLeftSnoc(s: string, c: char, acc: int)
    requires (forall d | d in s :: IsDigit(d)) && IsDigit(c)
    ensures FromLeft(s + [c], acc) == 10 * FromLeft(s, acc) + DigitValue(c)
  {
    if s != "" {
      assert s[0] in s;
      assert (s + [c])[1..] == s[1..] + [c];
      FromLeftSnoc(s[1..], c, 10 * acc + DigitValue(s[0]));
    }
  }

  lemma {:induction false} FromLeftIsValue(s: string)
    requires forall c | c in s :: IsDigit(c)
    ensures FromLeft(s, 0) == Value(s)
  {
    if s != "" {
      var front, c := s[..|s| - 1], s[|s| - 1];
      assert s == front + [c] && c in s;
      FromLeftIsValue(front);
      FromLeftSnoc(front, c, 0);
    }
  }

  lemma {:induction false} AccumulateIsFromLeft(s: string, acc: int)
    ensures Accumulate(s, 10, acc) == FromLeft(s[..Span(s, IsDigit)], acc)
  {
    if s != "" && IsDigit(s[0]) {
      var n := Span(s, IsDigit);
      assert s[..n][1..] == s[1..][..n - 1];
      AccumulateIsFromLeft(s[1..], 10 * acc + DigitValue(s[0]));
    }
  }

  lemma DecimalIsLeadingNat(s: string)
    ensures Accumulate(s, 10, 0) == LeadingNat(s)
  {
    AccumulateIsFromLeft(s, 0);
    FromLeftIsValue(s[..Span(s, IsDigit)]);
  }

  /** What makes %i read hexadecimal digits. */
  predicate HexPrefixed(s: string) {
    |s| > 2 && s[0] == '0' && (s[1] == 'x' || s[1] == 'X') && HexValue(s[2]) < 16
  }

  /** A number is read as decimal exactly if it does not begin with a zero, or is below 8, and what
      looks like a hexadecimal number is zero. */
  lemma ScanIntIsDecimalIff(s: string)
    requires s != "" && IsDigit(s[0])
    ensures var plain := if HexPrefixed(s) then Accumulate(s[2..], 16, 0) == 0 else LeadingNat(s) < 8;
            ScanInt(s) == LeadingNat(s) <==> s[0] != '0' || plain
  {
    SpanIs(s, IsSpace, 0);
    assert s[0..] == s;
    DecimalIsLeadingNat(s);
    OctalIsDecimalIff(s, 0, 0);
    if HexPrefixed(s) {
      SpanIs(s, IsDigit, 1);
      assert s[..1] == "0";
    }
  }

  // ---- Whole versions ----

  /** The manual's comparison of whole versions: epoch, main part, revision. */
  function ManualCompare(ver1: string, ver2: string): int {
    var v1, v2 := Decode(ver1), Decode(ver2);
    FirstDecision(Sign(AToI(v1.epoch), AToI(v2.epoch)), Manual(v1.main, v2.main), Manual(v1.rev, v2.rev))
  }

  /** The epochs are equal, and the code departs from the manual in the main parts or, where these
      are equal for both, in the revisions. If the main parts are equal for one of the two only, the
      revisions do not happen to decide as the main parts do for the other. */
  predicate DepartsInVersions(num: string -> int, ver1: string, ver2: string) {
    var v1, v2 := Decode(ver1), Decode(ver2);
    var code, manual := ComparePart(num, v1.main, v2.main), Manual(v1.main, v2.main);
    && AToI(v1.epoch) == AToI(v2.epoch)
    && if !Departs(num, v1.main, v2.main) then code == 0 && Departs(num, v1.rev, v2.rev)
       else if code == 0 then ComparePart(num, v1.rev, v2.rev) != manual
       else manual == 0 ==> Manual(v1.rev, v2.rev) != code
  }

  /** For every reader of numbers and any two versions the code answers as section 5.6.12 of the
      Debian Policy Manual demands exactly if it does not depart from it. */
  lemma AgreesWithPolicyIff(num: string -> int, ver1: string, ver2: string)
    ensures Compare(num, ver1, ver2) == ManualCompare(ver1, ver2) <==> !DepartsInVersions(num, ver1, ver2)
  {
    var v1, v2 := Decode(ver1), Decode(ver2);
    PartsAgreeIff(num, v1.main, v2.main);
    PartsAgreeIff(num, v1.rev, v2.rev);
  }

  // ---- Four pairs that are ordered differently ----

  lemma PlainDecodes(version: string)
    requires version != "" && ':' !in version && '-' !in version
    ensures Decode(version) == Version("0", version, "0")
  {
  }

  /** A letter and another character: "1a" is newer than "1+" for the code, and older for the
      manual. */
  lemma LetterAfterPlus()
    ensures Compare(ScanInt, "1a", "1+") == 1 && ManualCompare("1a", "1+") == -1
  {
    PlainDecodes("1a");
    PlainDecodes("1+");
    PlusBeforeLetter();
  }

  lemma PlusBeforeLetter()
    ensures ComparePart(ScanInt, "1a", "1+") == 1 && Manual("1a", "1+") == -1
  {
    DigitThen('1', "a");
    DigitThen('1', "+");
    assert ['1'] + "a" == "1a" && ['1'] + "+" == "1+";
    CodeUnfolds(ScanInt, "1a", "1+");
    ManualUnfolds("1a", "1+");
    LetterAndPlus();
  }

  lemma LetterAndPlus()
    ensures Lex(RunKey("a"), RunKey("+")) == 1 && Lex(PolicyRunKey("a"), PolicyRunKey("+")) == -1
  {
    RunHeads("a");
    RunHeads("+");
  }

  /** A part that begins with one digit other than zero. */
  lemma DigitThen(d: char, r: string)
    requires '1' <= d <= '9' && (r == "" || !IsDigit(r[0]))
    ensures var s := [d] + r; ScanInt(s) == LeadingNat(s) == DigitValue(d) && AfterDigits(s) == r
  {
    var s := [d] + r;
    SpanIs(s, IsDigit, 1);
    assert s[..1] == [d] && s[1..] == r;
    OneDigit(d);
    ScanIntIsDecimalIff(s);
  }

  lemma OneDigit(d: char)
    requires IsDigit(d)
    ensures Value([d]) == DigitValue(d)
  {
    assert [d][..0] == "";
  }

  lemma DotThen(r: string)
    requires IsEnd(r)
    ensures AfterRun("." + r) == r
    ensures RunKey("." + r) == [Rank('.'), END] && PolicyRunKey("." + r) == [PolicyRank('.'), END]
  {
    var s := "." + r;
    assert s[1..] == r;
    SpanIs(s, NotDigit, 1);
  }

  /** A zero that the other part does not have: "1.0" is newer than "1." for the code, and the same
      for the manual. */
  lemma TrailingZeroCounts()
    ensures ComparePart(ScanInt, "1.0", "1.") == 1 && Manual("1.0", "1.") == 0
  {
    var s, t := "1.0", "1.";
    DigitThen('1', ".0");
    DigitThen('1', ".");
    assert ['1'] + ".0" == s && ['1'] + "." == t;
    DotThen("0");
    DotThen("");
    assert "." + "0" == ".0" && "." + "" == ".";
    LexZero([Rank('.'), END], [Rank('.'), END]);
    LexZero([PolicyRank('.'), END], [PolicyRank('.'), END]);
    CodeUnfolds(ScanInt, s, t);
    ManualUnfolds(s, t);
    ZeroIsNothing();
  }

  lemma ZeroIsNothing()
    ensures Manual("0", "") == 0
  {
    SpanIs("0", IsDigit, 1);
    assert "0"[..1] == "0" && "0"[1..] == "" && "0"[..0] == "";
    NumberFirst("0", "");
    NoDigits("");
  }

  /** A leading zero makes a number octal: "010" is older than "9" for the code, and newer for the
      manual. */
  lemma LeadingZeroIsOctal()
    ensures ComparePart(ScanInt, "010", "9") == -1 && Manual("010", "9") == 1
  {
    DigitThen('9', "");
    assert ['9'] + "" == "9";
    EightOrTen();
    CodeUnfolds(ScanInt, "010", "9");
    NumberFirst("010", "9");
  }

  lemma EightOrTen()
    ensures ScanInt("010") == 8 && LeadingNat("010") == 10
  {
    var s := "010";
    SpanIs(s, IsSpace, 0);
    SpanIs(s, IsDigit, 3);
    assert s[0..] == s && s[..3] == s && s[1..] == "10" && "10"[1..] == "0" && "0"[1..] == "";
    assert s[..2] == "01" && "01"[..1] == "0" && "0"[..0] == "";
    assert Value("0") == 0 && Value("01") == 1;
    assert Accumulate(s, 8, 0) == Accumulate("10", 8, 0) == Accumulate("0", 8, 1) == Accumulate("", 8, 8);
  }

  /** A run in front of a number: "a1" is older than "1" for the code, and newer for the manual. */
  lemma NumberBeforeRun()
    ensures ComparePart(ScanInt, "a1", "1") == -1 && Manual("a1", "1") == 1
  {
    NumberIsOlder("a1", "1");
    LetterReadsZero("a1");
    DigitThen('1', "");
    assert ['1'] + "" == "1";
    CodeUnfolds(ScanInt, "a1", "1");
  }

  lemma NumberIsOlder(s: string, t: string)
    requires !IsEnd(s) && IsEnd(t) && s[0] != '~'
    ensures Manual(s, t) == 1
  {
    RunSortsLater(s, t);
    RunDecides(s, t);
  }

  lemma RunSortsLater(s: string, t: string)
    requires !IsEnd(s) && IsEnd(t) && s[0] != '~'
    ensures Lex(PolicyRunKey(s), PolicyRunKey(t)) == 1
  {
    RunHeads(s);
    NoRun(t);
  }

  lemma RunDecides(s: string, t: string)
    requires Lex(PolicyRunKey(s), PolicyRunKey(t)) != 0
    ensures Manual(s, t) == Lex(PolicyRunKey(s), PolicyRunKey(t))
  {
  }

  lemma LetterReadsZero(s: string)
    requires s != "" && HexValue(s[0]) >= 10 && !IsSpace(s[0]) && s[0] != '-' && s[0] != '+'
    ensures ScanInt(s) == 0
  {
    SpanIs(s, IsSpace, 0);
    assert s[0..] == s;
  }
}
