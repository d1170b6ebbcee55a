/** Searching a sequence, and equalities between sequences that the solver is better told than left
    to find. */
module Sequences {

  /** The search loop of C: the first index whose element satisfies p, or -1. */
  function First<T>(s: seq<T>, p: T -> bool): (n: int)
    ensures -1 <= n < |s|
    ensures n >= 0 ==> p(s[n])
    ensures forall i :: 0 <= i < (if n >= 0 then n else |s|) ==> !p(s[i])
  {
    if s == [] then -1
    else if p(s[0]) then 0
    else
      var n := First(s[1..], p);
      if n == -1 then -1 else n + 1
  }

  lemma Assoc<T>(a: seq<T>, b: seq<T>, c: seq<T>)
    ensures a + b + c == a + (b + c)
  {
  }

  lemma Units<T>(a: seq<T>)
    ensures [] + a == a && a + [] == a
  {
  }

  lemma Slices<T>(s: seq<T>, i: nat, j: nat, k: nat)
    requires i <= j <= k <= |s|
    ensures s[i..k] == s[i..j] + s[j..k]
  {
  }

  /** The first element of a concatenation, and the rest. */
  lemma Uncons<T>(a: seq<T>, b: seq<T>)
    requires a != []
    ensures (a + b)[0] == a[0] && (a + b)[1..] == a[1..] + b && a == [a[0]] + a[1..]
  {
  }

  /** The element between two parts, removed and replaced. */
  lemma Middle<T>(a: seq<T>, x: T, b: seq<T>, y: T)
    ensures var s := a + [x] + b;
            && s[|a|] == x && s[..|a|] + s[|a| + 1..] == a + b && s[|a| := y] == a + [y] + b
            && s == a + ([x] + b) && |s| == |a| + 1 + |b|
    ensures forall j :: 0 <= j < |a + b| ==> (a + b)[j] == (a + [x] + b)[if j < |a| then j else j + 1]
    ensures forall j :: 0 <= j < |a + [x] + b| && j != |a| ==> (a + [y] + b)[j] == (a + [x] + b)[j]
  {
  }

  /** Removing an element before the last one commutes with cutting off the last one. */
  lemma DropBeforeLast<T>(s: seq<T>, i: nat)
    requires i < |s| - 1
    ensures var r, front := s[..i] + s[i + 1..], s[..|s| - 1];
            r != [] && r[..|r| - 1] == front[..i] + front[i + 1..] && r[|r| - 1] == s[|s| - 1]
  {
  }

  lemma UpdateLeft<T>(a: seq<T>, b: seq<T>, i: nat, x: T)
    requires i < |a|
    ensures (a + b)[i] == a[i] && (a + b)[i := x] == a[i := x] + b
  {
  }

  lemma UpdateSame<T>(s: seq<T>, i: nat)
    requires i < |s|
    ensures s[i := s[i]] == s
  {
  }
}
