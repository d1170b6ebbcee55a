/** How the code reads numbers from texts, told from the texts: atoi, "%u" and "%i". */
module Numerals {
  import opened CStrings
  import opened Versions
  import opened StateFile

  /** What may stand in front of a number. */
  predicate Blanks(s: string) {
    forall c | c in s :: c in [' ', '\t', '\n', 11 as char, 12 as char, '\r']
  }

  /** The number ends where the text does, or before this. */
  predicate Ends(rest: string) { rest == "" || !IsDigit(rest[0]) }

  lemma BlanksSkipped(blanks: string, s: string)
    requires Blanks(blanks) && (s == "" || !IsSpace(s[0]))
    ensures SkipSpace(blanks + s) == s
  {
    assert forall i :: 0 <= i < |blanks| ==> (blanks + s)[i] == blanks[i] && blanks[i] in blanks;
    SpanIs(blanks + s, IsSpace, |blanks|);
    assert (blanks + s)[|blanks|..] == s;
  }

  lemma LeadingNatReads(n: nat, rest: string)
    requires Ends(rest)
    ensures LeadingNat(PrintNat(n) + rest) == n
  {
    var digits := PrintNat(n);
    var s := digits + rest;
    assert forall i :: 0 <= i < |digits| ==> s[i] == digits[i] && digits[i] in digits;
    SpanIs(s, IsDigit, |digits|);
    assert s[..|digits|] == digits;
  }

  // ---- atoi ----

  lemma AToITakesSign(blanks: string, s: string)
    requires Blanks(blanks) && s != "" && IsDigit(s[0])
    ensures AToI(blanks + s) == LeadingNat(s)
    ensures AToI(blanks + ("+" + s)) == LeadingNat(s)
    ensures AToI(blanks + ("-" + s)) == 0 - LeadingNat(s)
  {
    BlanksSkipped(blanks, s);
    BlanksSkipped(blanks, "+" + s);
    BlanksSkipped(blanks, "-" + s);
    assert ("+" + s)[1..] == s && ("-" + s)[1..] == s;
  }

  /** A printed number is read as it was, whatever ends it. */
  lemma AToIReads(blanks: string, n: nat, rest: string)
    requires Blanks(blanks) && Ends(rest)
    ensures AToI(blanks + (PrintNat(n) + rest)) == n
    ensures AToI(blanks + ("+" + (PrintNat(n) + rest))) == n
    ensures AToI(blanks + ("-" + (PrintNat(n) + rest))) == 0 - n
  {
    var s := PrintNat(n) + rest;
    assert s[0] == PrintNat(n)[0] && s[0] in PrintNat(n);
    LeadingNatReads(n, rest);
    AToITakesSign(blanks, s);
  }

  /** Without a number the result is 0. */
  lemma AToIOfNoNumber(blanks: string, s: string)
    requires Blanks(blanks)
    requires s == "" || (!IsSpace(s[0]) && !IsDigit(s[0]) && s[0] != '+' && s[0] != '-')
    ensures AToI(blanks + s) == 0
  {
    BlanksSkipped(blanks, s);
    SpanIs(s, IsDigit, 0);
  }

  // ---- "%u" ----

  /** Blanks in front and a sign. */
  lemma ScanUnsignedTakesSign(blanks: string, s: string, junk: int)
    requires Blanks(blanks) && s != "" && IsDigit(s[0]) && LeadingNat(s) <= 4294967295
    ensures ScanUnsigned(blanks + s, junk) == LeadingNat(s)
    ensures ScanUnsigned(blanks + ("+" + s), junk) == LeadingNat(s)
  {
    BlanksSkipped(blanks, s);
    BlanksSkipped(blanks, "+" + s);
    assert ("+" + s)[1..] == s;
  }

  /** A negative number wraps around. */
  lemma ScanUnsignedWraps(blanks: string, s: string, junk: int)
    requires Blanks(blanks) && s != "" && IsDigit(s[0]) && LeadingNat(s) <= 4294967295
    ensures ScanUnsigned(blanks + ("-" + s), junk) == if LeadingNat(s) == 0 then 0 else 4294967296 - LeadingNat(s)
  {
    BlanksSkipped(blanks, "-" + s);
    assert ("-" + s)[1..] == s;
  }

  /** A printed number of 32 bits is read as it was, and a negative one wraps around. */
  lemma ScanUnsignedReads(blanks: string, n: nat, rest: string, junk: int)
    requires Blanks(blanks) && Ends(rest) && n <= 4294967295
    ensures ScanUnsigned(blanks + (PrintNat(n) + rest), junk) == n
    ensures ScanUnsigned(blanks + ("-" + (PrintNat(n) + rest)), junk) == if n == 0 then 0 else 4294967296 - n
  {
    var s := PrintNat(n) + rest;
    assert s[0] == PrintNat(n)[0] && s[0] in PrintNat(n);
    LeadingNatReads(n, rest);
    ScanUnsignedTakesSign(blanks, s, junk);
    ScanUnsignedWraps(blanks, s, junk);
  }

  /** Without a number the variable keeps what it held. */
  lemma ScanUnsignedOfNoNumber(blanks: string, s: string, junk: int)
    requires Blanks(blanks)
    requires s == "" || (!IsSpace(s[0]) && !IsDigit(s[0]) && s[0] != '+' && s[0] != '-')
    ensures ScanUnsigned(blanks + s, junk) == junk
  {
    BlanksSkipped(blanks, s);
  }

  // ---- "%i" ----

  const DIGITS := "0123456789abcdef"
  const CAPITAL_DIGITS := "0123456789ABCDEF"

  lemma DigitsHaveTheirValues(d: nat)
    requires d < 16
    ensures HexValue(DIGITS[d]) == d && HexValue(CAPITAL_DIGITS[d]) == d
  {
  }

  /** Digits below the base, the first one of the highest value. */
  predicate Places(ds: seq<nat>, base: nat) { base <= 16 && forall i :: 0 <= i < |ds| ==> ds[i] < base }

  /** The digits written down. */
  function Written(digits: string, ds: seq<nat>): (s: string)
    requires |digits| == 16 && Places(ds, 16)
    ensures |s| == |ds| && forall i :: 0 <= i < |s| ==> s[i] == digits[ds[i]]
  {
    seq(|ds|, i requires 0 <= i < |ds| => digits[ds[i]])
  }

  /** The number they stand for. */
  function Positional(ds: seq<nat>, base: nat): nat {
    if ds == [] then 0 else base * Positional(ds[..|ds| - 1], base) + ds[|ds| - 1]
  }

  lemma {:induction false} AccumulateSnoc(s: string, c: char, rest: string, base: int, acc: int)
    requires (forall d | d in s :: HexValue(d) < base) && HexValue(c) < base
    requires rest == "" || HexValue(rest[0]) >= base
    ensures Accumulate(s + [c] + rest, base, acc) == base * Accumulate(s, base, acc) + HexValue(c)
  {
    if s == "" {
      assert "" + [c] + rest == [c] + rest && ([c] + rest)[1..] == rest;
    } else {
      assert s[0] in s && (s + [c] + rest)[1..] == s[1..] + [c] + rest;
      AccumulateSnoc(s[1..], c, rest, base, base * acc + HexValue(s[0]));
    }
  }

  predicate DigitSet(digits: string) { digits == DIGITS || digits == CAPITAL_DIGITS }

  lemma WrittenDigits(digits: string, ds: seq<nat>)
    requires DigitSet(digits) && Places(ds, 16)
    ensures forall i :: 0 <= i < |ds| ==> HexValue(Written(digits, ds)[i]) == ds[i]
  {
    forall i | 0 <= i < |ds|
      ensures HexValue(Written(digits, ds)[i]) == ds[i]
    {
      DigitsHaveTheirValues(ds[i]);
    }
  }

  /** In any base up to 16, digits are read as what they stand for. */
  lemma {:induction false} AccumulateReads(base: nat, digits: string, ds: seq<nat>, rest: string)
    requires DigitSet(digits) && Places(ds, base) && (rest == "" || HexValue(rest[0]) >= base)
    ensures Accumulate(Written(digits, ds) + rest, base, 0) == Positional(ds, base)
  {
    var s := Written(digits, ds);
    if ds == [] {
      assert s + rest == rest;
    } else {
      var n := |ds| - 1;
      WrittenDigits(digits, ds);
      AccumulateReads(base, digits, ds[..n], "");
      assert Written(digits, ds[..n]) + "" == s[..n] && s == s[..n] + [s[n]];
      assert forall c | c in s[..n] :: HexValue(c) < base;
      AccumulateSnoc(s[..n], s[n], rest, base, 0);
    }
  }

  lemma NoBlank(s: string)
    requires s != "" && HexValue(s[0]) < 16
    ensures SkipSpace(s) == s && s[0] != '-' && s[0] != '+'
  {
    SpanIs(s, IsSpace, 0);
  }

  /** A number without a leading zero is read as decimal. */
  lemma ScanIntReadsDecimal(ds: seq<nat>, rest: string)
    requires ds != [] && Places(ds, 10) && ds[0] > 0 && (rest == "" || HexValue(rest[0]) >= 10)
    ensures ScanInt(Written(DIGITS, ds) + rest) == Positional(ds, 10)
  {
    WrittenDigits(DIGITS, ds);
    AccumulateReads(10, DIGITS, ds, rest);
    assert (Written(DIGITS, ds) + rest)[0] == Written(DIGITS, ds)[0];
    NoBlank(Written(DIGITS, ds) + rest);
  }

  /** With a leading zero it is read as octal. */
  lemma ScanIntReadsOctal(ds: seq<nat>, rest: string)
    requires ds != [] && Places(ds, 8) && (rest == "" || HexValue(rest[0]) >= 8)
    ensures ScanInt("0" + (Written(DIGITS, ds) + rest)) == Positional(ds, 8)
  {
    var t := Written(DIGITS, ds) + rest;
    var s := "0" + t;
    WrittenDigits(DIGITS, ds);
    AccumulateReads(8, DIGITS, ds, rest);
    NoBlank(s);
    assert s[1..] == t && s[1] == Written(DIGITS, ds)[0];
    assert HexValue('x') == 16 && HexValue('X') == 16;
    assert Accumulate(s, 8, 0) == Accumulate(t, 8, 0);
  }

  /** After 0x or 0X it is read as hexadecimal, with small or capital letters. */
  lemma ScanIntReadsHexadecimal(x: char, digits: string, ds: seq<nat>, rest: string)
    requires (x == 'x' || x == 'X') && DigitSet(digits)
    requires ds != [] && Places(ds, 16) && (rest == "" || HexValue(rest[0]) >= 16)
    ensures ScanInt(['0', x] + (Written(digits, ds) + rest)) == Positional(ds, 16)
  {
    var t := Written(digits, ds) + rest;
    var s := ['0', x] + t;
    WrittenDigits(digits, ds);
    AccumulateReads(16, digits, ds, rest);
    NoBlank(s);
    assert s[2..] == t && s[2] == Written(digits, ds)[0];
  }

  /** Blanks in front do not matter, and a sign means what it says. */
  lemma ScanIntTakesSign(blanks: string, s: string)
    requires Blanks(blanks) && s != "" && IsDigit(s[0])
    ensures ScanInt(blanks + s) == ScanInt(s)
    ensures ScanInt(blanks + ("+" + s)) == ScanInt(s)
    ensures ScanInt(blanks + ("-" + s)) == -ScanInt(s)
  {
    NoBlank(s);
    BlanksSkipped(blanks, s);
    BlanksSkipped(blanks, "+" + s);
    BlanksSkipped(blanks, "-" + s);
    assert ("+" + s)[1..] == s && ("-" + s)[1..] == s;
  }
}
