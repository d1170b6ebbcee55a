/** The parts of the C string library that the modelled code relies on. A C string is a Dafny
    string without its terminating NUL. */
module CStrings {

  predicate IsDigit(c: char) { '0' <= c <= '9' }

  predicate IsAlpha(c: char) { 'a' <= c <= 'z' || 'A' <= c <= 'Z' }

  /** isspace in the C locale: blank, tab, newline, vertical tab, form feed, carriage return. */
  predicate IsSpace(c: char) { c == ' ' || 9 <= c as int <= 13 }

  /** strchr: the position of the first c, or |s| where C returns NULL. */
  function Find(s: string, c: char): (n: nat)
    ensures n <= |s|
    ensures forall i :: 0 <= i < n ==> s[i] != c
    ensures n < |s| ==> s[n] == c
  {
    if s == "" || s[0] == c then 0 else 1 + Find(s[1..], c)
  }

  /** Without the character in front, the search goes on behind. */
  lemma {:induction false} FindPast(front: string, back: string, c: char)
    requires c !in front
    ensures Find(front + back, c) == |front| + Find(back, c)
  {
    if front == "" {
      assert front + back == back;
    } else {
      assert front[0] in front;
      assert (front + back)[1..] == front[1..] + back;
      FindPast(front[1..], back, c);
    }
  }

  lemma NotFound(s: string, c: char)
    requires c !in s
    ensures Find(s, c) == |s|
  {
  }

  /** The length of the longest prefix whose characters all satisfy p. */
  function Span(s: string, p: char -> bool): (n: nat)
    ensures n <= |s|
    ensures forall i :: 0 <= i < n ==> p(s[i])
    ensures n < |s| ==> !p(s[n])
  {
    if s == "" || !p(s[0]) then 0 else 1 + Span(s[1..], p)
  }

  /** The contract of Span determines its value. */
  lemma {:induction false} SpanIs(s: string, p: char -> bool, n: nat)
    requires n <= |s| && (forall i :: 0 <= i < n ==> p(s[i]))
    requires n < |s| ==> !p(s[n])
    ensures Span(s, p) == n
  {
    if n > 0 {
      assert p(s[0]);
      SpanIs(s[1..], p, n - 1);
    }
  }

  function SkipSpace(s: string): string {
    s[Span(s, IsSpace)..]
  }

  // ---- Decimal numbers ----

  function DigitValue(c: char): nat
    requires IsDigit(c)
  {
    c as int - '0' as int
  }

  function Digit(d: nat): (c: char)
    requires d < 10
    ensures IsDigit(c) && DigitValue(c) == d
  {
    ('0' as int + d) as char
  }

  /** The value of a run of decimal digits. */
  function Value(s: string): nat
    requires forall c | c in s :: IsDigit(c)
  {
    if s == "" then 0 else 10 * Value(s[..|s| - 1]) + DigitValue(s[|s| - 1])
  }

  /** printf("%u", n). */
  function PrintNat(n: nat): (s: string)
    ensures s != "" && (forall c | c in s :: IsDigit(c))
    ensures Value(s) == n
  {
    if n < 10 then [Digit(n)]
    else
      var s := PrintNat(n / 10) + [Digit(n % 10)];
      assert s[..|s| - 1] == PrintNat(n / 10);
      s
  }

  /** printf("%i", n). */
  function PrintInt(n: int): (s: string)
    ensures s != "" && (forall c | c in s :: IsDigit(c) || c == '-')
  {
    if n < 0 then "-" + PrintNat(-n) else PrintNat(n)
  }

  /** atoi and atoll on a value that fits: blanks, a sign, then as many digits as there are. */
  function AToI(s: string): int {
    var t := SkipSpace(s);
    if t != "" && t[0] == '-' then 0 - LeadingNat(t[1..])
    else if t != "" && t[0] == '+' then LeadingNat(t[1..])
    else LeadingNat(t)
  }

  function LeadingNat(s: string): nat {
    Value(s[..Span(s, IsDigit)])
  }

  lemma {:induction false} LeadingNatOfPrint(n: nat)
    ensures LeadingNat(PrintNat(n)) == n
  {
    var s := PrintNat(n);
    SpanIs(s, IsDigit, |s|);
    assert s[..|s|] == s;
  }

  /** Reading a printed number gives the number back. */
  lemma {:induction false} AToIOfPrint(n: int)
    ensures AToI(PrintInt(n)) == n
  {
    var s := PrintInt(n);
    assert s[0] in s;
    SpanIs(s, IsSpace, 0);
    assert s[0..] == s;
    if n < 0 {
      assert s[1..] == PrintNat(-n);
      LeadingNatOfPrint(-n);
    } else {
      assert IsDigit(s[0]);
      LeadingNatOfPrint(n);
    }
  }

  function Pow10(k: nat): (p: nat)
    ensures p > 0
  {
    if k == 0 then 1 else 10 * Pow10(k - 1)
  }

  lemma {:induction false} PrintNatLength(n: nat, k: nat)
    requires 0 < k && n < Pow10(k)
    ensures |PrintNat(n)| <= k
  {
    if n >= 10 {
      PrintNatLength(n / 10, k - 1);
    }
  }

  // ---- strtok_r(..., ";", ...) ----

  /** The non-empty pieces between semicolons. */
  function Tokens(s: string): (ts: seq<string>)
    ensures forall t | t in ts :: t != "" && ';' !in t
    decreases |s|
  {
    if s == "" then []
    else
      var n := Find(s, ';');
      var rest := if n < |s| then Tokens(s[n + 1..]) else [];
      if n == 0 then rest else [s[..n]] + rest
  }

  /** Items as a list value is written. */
  function Joined(items: seq<string>): string {
    if items == [] then "" else items[0] + ";" + Joined(items[1..])
  }

  predicate Item(t: string) { t != "" && ';' !in t }

  /** A list of non-empty items without semicolons is taken apart into its items. */
  lemma {:induction false} TokensOfJoined(items: seq<string>)
    requires forall i :: 0 <= i < |items| ==> Item(items[i])
    ensures Tokens(Joined(items)) == items
  {
    if items != [] {
      TokensOfJoined(items[1..]);
      FirstToken(items[0], Joined(items[1..]));
      assert items == [items[0]] + items[1..];
    }
  }

  lemma FirstToken(t: string, rest: string)
    requires Item(t)
    ensures Tokens(t + ";" + rest) == [t] + Tokens(rest)
  {
    var s := t + (";" + rest);
    assert t + ";" + rest == s;
    FindPast(t, ";" + rest, ';');
    assert s[..|t|] == t && s[|t| + 1..] == rest;
  }

  /** Pieces with semicolons between them. */
  function Separated(pieces: seq<string>): string
    requires pieces != []
  {
    if |pieces| == 1 then pieces[0] else pieces[0] + ";" + Separated(pieces[1..])
  }

  function NonEmpty(pieces: seq<string>): seq<string> {
    if pieces == [] then [] else Piece(pieces[0]) + NonEmpty(pieces[1..])
  }

  /** Any text is taken apart into its pieces, the last one included whether a semicolon follows or
      not, and those without text are left out. */
  lemma {:induction false} TokensOfSeparated(pieces: seq<string>)
    requires pieces != [] && forall i :: 0 <= i < |pieces| ==> ';' !in pieces[i]
    ensures Tokens(Separated(pieces)) == NonEmpty(pieces)
  {
    if |pieces| == 1 {
      LastPiece(pieces[0]);
      assert NonEmpty(pieces[1..]) == [];
    } else {
      TokensOfSeparated(pieces[1..]);
      FirstPiece(pieces[0], Separated(pieces[1..]));
    }
  }

  function Piece(t: string): seq<string> { if t == "" then [] else [t] }

  lemma LastPiece(t: string)
    requires ';' !in t
    ensures Tokens(t) == Piece(t)
  {
    NotFound(t, ';');
    assert t[..|t|] == t;
  }

  lemma FirstPiece(t: string, rest: string)
    requires ';' !in t
    ensures Tokens(t + ";" + rest) == Piece(t) + Tokens(rest)
  {
    if t == "" {
      assert ("" + ";" + rest)[1..] == rest;
    } else {
      FirstToken(t, rest);
    }
  }
}
