/** table_generator.c: the eight 256-entry word tables of the generic decoder, filled by loops. */
module TableGenerator {
  import opened Tables

  /** The value that entry `b64chars[i]` of table d0, d1, d2 or d3 receives. */
  function Placed(e: Endian, k: nat, i: bv32): bv32
    requires k < 4
  {
    match e
    case Little =>
      if k == 0 then i << 2
      else if k == 1 then ((i & 0x30) >> 4) | ((i & 0x0F) << 12)
      else if k == 2 then ((i & 0x03) << 22) | ((i & 0x3C) << 6)
      else i << 16
    case Big =>
      if k == 0 then i << 26
      else if k == 1 then i << 20
      else if k == 2 then i << 14
      else i << 8
  }

  /** What a lookup of character `c` is meant to find. */
  function Entry(e: Endian, k: nat, c: byte): bv32
    requires k < 4
  {
    if IsAlpha(c) then Placed(e, k, Dec8(c) as bv32) else 0xFFFFFFFF
  }

  /** A byte used as an array index. */
  function Index(c: byte): (i: nat)
    ensures i < 256
  {
    c as int
  }

  lemma IndexInjective(c: byte, d: byte)
    requires Index(c) == Index(d)
    ensures c == d
  {
  }

  /** clearDecodeTable: the sentinel in all 256 entries. */
  method Clear(ary: array<bv32>)
    requires ary.Length == 256
    modifies ary
    ensures forall i :: 0 <= i < 256 ==> ary[i] == 0xFFFFFFFF
  {
    for i := 0 to 256
      invariant forall j :: 0 <= j < i ==> ary[j] == 0xFFFFFFFF
    {
      ary[i] := 0xFFFFFFFF;
    }
  }

  /** One table of main: cleared, then the 64 values placed at their characters. */
  method Generate(e: Endian, k: nat, ary: array<bv32>)
    requires k < 4 && ary.Length == 256
    modifies ary
    ensures forall c: byte :: ary[Index(c)] == Entry(e, k, c)
  {
    hide Index, Placed, Enc6;
    Clear(ary);
    var i: byte := 0;
    while i < 64
      invariant i <= 64
      invariant forall c: byte :: ary[Index(c)] == EntryBelow(e, k, c, i)
      decreases 64 - i
    {
      var x := Enc6(i);
      ary[Index(x)] := Placed(e, k, i as bv32);
      forall c: byte
        ensures ary[Index(c)] == EntryBelow(e, k, c, i + 1)
      {
        OneMore(e, k, c, i);
        if Index(c) == Index(x) {
          IndexInjective(c, x);
        }
      }
      i := i + 1;
    }
  }

  /** The table after `i` values have been placed. */
  function EntryBelow(e: Endian, k: nat, c: byte, i: byte): bv32
    requires k < 4
  {
    if IsAlpha(c) && Dec8(c) < i then Placed(e, k, Dec8(c) as bv32) else 0xFFFFFFFF
  }

  lemma OneMore(e: Endian, k: nat, c: byte, i: byte)
    requires k < 4 && i < 64
    ensures EntryBelow(e, k, c, i + 1) == if c == Enc6(i) then Placed(e, k, i as bv32) else EntryBelow(e, k, c, i)
  {
  }
}
