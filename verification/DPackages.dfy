/** The packages that libdbpmgr/dependencies.c keeps in its indexes, and the classes of characters by
    which an index is split. */
module DPackages {

  const SLOTS := 40        // lookup_size once init_conv_table has run
  const LIST_LIMIT := 25   // a list longer than this is split

  /** TREE_LOOKUP: many characters share slot 0, so a slot does not determine a character. */
  function Slot(c: char): (k: nat)
    ensures k < SLOTS
  {
    SlotOfCode(c as int % 128)
  }

  function SlotOfCode(b: int): (k: nat)
    ensures k < SLOTS
  {
    if 'a' as int <= b <= 'z' as int then b - 'a' as int + 1
    else if '0' as int <= b <= '9' as int then b - '0' as int + 27
    else if b == '+' as int then 37
    else if b == '-' as int then 38
    else if b == '.' as int then 39
    else 0
  }

  /** Characters that names are made of have slots of their own; all other ASCII characters share
      one. */
  predicate NameChar(c: char) { 'a' <= c <= 'z' || '0' <= c <= '9' || c == '+' || c == '-' || c == '.' }

  lemma SlotsSeparate(c: char, d: char)
    requires c as int < 128 && d as int < 128
    ensures Slot(c) == Slot(d) <==> c == d || (!NameChar(c) && !NameChar(d))
  {
  }

  /** init_conv_table: the table is filled so that looking a code up is SlotOfCode. */
  method InitConvTable(table: array<int>) returns (lookupSize: int)
    requires table.Length == 128
    modifies table
    ensures lookupSize == SLOTS
    ensures forall b :: 0 <= b < 128 ==> table[b] == SlotOfCode(b)
  {
    for i := 0 to 128
      invariant forall b :: 0 <= b < i ==> table[b] == 0
    {
      table[i] := 0;
    }
    var j := 1;
    for i := 0 to 26
      invariant j == i + 1
      invariant forall b :: 0 <= b < 128 ==> table[b] == if 97 <= b < 97 + i then SlotOfCode(b) else 0
    {
      table['a' as int + i] := j;
      j := j + 1;
    }
    for i := 0 to 10
      invariant j == i + 27
      invariant forall b :: 0 <= b < 128 ==>
                  table[b] == if 97 <= b < 123 || 48 <= b < 48 + i then SlotOfCode(b) else 0
    {
      table['0' as int + i] := j;
      j := j + 1;
    }
    table['+' as int] := j;
    table['-' as int] := j + 1;
    table['.' as int] := j + 2;
    lookupSize := j + 3;
  }

  /** An installed package; `next` links it into the one list of the index that holds it. */
  class DPackage {
    const name: string
    const version: string
    const arch: string
    var next: DPackage?

    constructor (name: string, version: string, arch: string)
      ensures this.name == name && this.version == version && this.arch == arch && next == null
    {
      this.name, this.version, this.arch, next := name, version, arch, null;
    }
  }

  ghost predicate Distinct(s: seq<DPackage>) {
    forall i, j :: 0 <= i < j < |s| ==> s[i] != s[j]
  }

  ghost function Elements(s: seq<DPackage>): set<DPackage> {
    set p | p in s
  }

  /** `chain` holds packages of the index only, and all of those called `name`. */
  ghost predicate Covers(chain: seq<DPackage>, pkgs: set<DPackage>, name: string) {
    && Distinct(chain)
    && (forall p | p in chain :: p in pkgs)
    && (forall p | p in pkgs && p.name == name :: p in chain)
  }
}
