/**
  The name hasher: a table-driven, reflected CRC-32 (initial value all ones,
  final complement) over the code units of a name, each unit folded in by its
  low byte. The table is a global array filled lazily on first use
  (AFSBuildCRCTable, AFSGenerateCRC).
*/
module Crc {
  import opened Types

  /** CRC32_POLYNOMIAL: the reflected IEEE 802.3 generator polynomial. */
  const Polynomial: bv32 := 0xEDB8_8320

  /** One bit step of the table construction. */
  function ShiftBit(c: bv32): bv32 {
    if c & 1 != 0 then (c >> 1) ^ Polynomial else c >> 1
  }

  function ShiftBits(c: bv32, n: nat): bv32
    decreases n
  {
    if n == 0 then c else ShiftBits(ShiftBit(c), n - 1)
  }

  /** Entry b of the table: the byte b pushed through eight bit steps. */
  function TableEntry(b: bv8): bv32 {
    ShiftBits(b as bv32, 8)
  }

  /** A 256-entry array holding the table, slot b at index b. */
  ghost predicate IsCrcTable(t: array<bv32>)
    reads t
  {
    t.Length == 256 && forall b: bv8 :: t[b as int] == TableEntry(b)
  }

  /** The table slot a code unit selects: the low byte of the CRC xor'ed with the unit. */
  function Index(crc: bv32, u: WChar): bv8 {
    ((crc ^ (u as bv32)) & 0xFF) as bv8
  }

  /** The CRC shifted down one byte, combined with a table entry. */
  function Combine(crc: bv32, entry: bv32): bv32 {
    ((crc >> 8) & 0x00FF_FFFF) ^ entry
  }

  /** Folding one code unit into the running CRC. */
  function Step(crc: bv32, u: WChar): bv32 {
    Combine(crc, TableEntry(Index(crc, u)))
  }

  /** The running CRC after the code units of s, in order. */
  function Fold(crc: bv32, s: Name): bv32
    decreases |s|
  {
    if s == [] then crc else Step(Fold(crc, s[..|s| - 1]), s[|s| - 1])
  }

  /** The code units that are hashed: the name itself, or its upcased copy. */
  function HashedUnits(name: Name, upperCase: bool): Name {
    if upperCase then UpcaseName(name) else name
  }

  /** The hash AFSGenerateCRC returns for a name: the complemented fold from all ones. */
  function NameHash(name: Name, upperCase: bool): (h: bv32)
    ensures name == [] ==> h == 0
  {
    Fold(0xFFFF_FFFF, HashedUnits(name, upperCase)) ^ 0xFFFF_FFFF
  }

  lemma {:induction false} NameHashOfFold(name: Name, upperCase: bool, f: bv32)
    requires f == Fold(0xFFFF_FFFF, HashedUnits(name, upperCase))
    ensures NameHash(name, upperCase) == f ^ 0xFFFF_FFFF
  {
  }

  /** Extending a prefix by one unit is one more step of the fold. */
  lemma FoldPrefix(init: bv32, s: Name, k: nat)
    requires k < |s|
    ensures Fold(init, s[..k + 1]) == Step(Fold(init, s[..k]), s[k])
  {
    assert s[..k + 1][..k] == s[..k];
  }

  /** The inner loop of AFSBuildCRCTable: eight bit steps applied to one byte. */
  method ComputeEntry(b: bv8) returns (crc: bv32)
    ensures crc == TableEntry(b)
  {
    crc := b as bv32;
    var j := 8;
    while j > 0
      invariant 0 <= j <= 8
      invariant ShiftBits(crc, j) == TableEntry(b)
    {
      ghost var before := crc;
      if crc & 1 != 0 {
        crc := (crc >> 1) ^ Polynomial;
      } else {
        crc := crc >> 1;
      }
      assert crc == ShiftBit(before);
      j := j - 1;
    }
  }

  /** AFSBuildCRCTable: the outer loop fills slots 0 to 255 in order. */
  method BuildCrcTable(t: array<bv32>)
    requires t.Length == 256
    modifies t
    ensures IsCrcTable(t)
  {
    var i := 0;
    while i <= 255
      invariant 0 <= i <= 256
      invariant forall b: bv8 :: b as int < i ==> t[b as int] == TableEntry(b)
    {
      var crc := ComputeEntry(i as bv8);
      t[i] := crc;
      forall b: bv8 | b as int < i + 1
        ensures t[b as int] == TableEntry(b)
      {
        if b as int == i {
          assert b == i as bv8;
        }
      }
      i := i + 1;
    }
  }

  /** The while loop of AFSGenerateCRC: fold the units of s into crc through the table. */
  method FoldUnits(t: array<bv32>, init: bv32, s: Name) returns (crc: bv32)
    requires IsCrcTable(t)
    ensures crc == Fold(init, s)
  {
    crc := init;
    var k := 0;
    while k < |s|
      invariant 0 <= k <= |s|
      invariant crc == Fold(init, s[..k])
    {
      var index := Index(crc, s[k]);
      FoldPrefix(init, s, k);
      crc := Combine(crc, t[index as int]);
      k := k + 1;
    }
    assert s[..|s|] == s;
  }

  /** The global AFSCRCTable: all zero until the first hash builds it. */
  class CrcTable {
    var entries: array<bv32>

    ghost predicate Valid()
      reads this, entries
    {
      entries.Length == 256 &&
      (IsCrcTable(entries) || forall k :: 0 <= k < 256 ==> entries[k] == 0)
    }

    constructor ()
      ensures Valid() && fresh(entries)
    {
      entries := new bv32[256](_ => 0);
    }

    /** AFSGenerateCRC: builds the table if entry 1 is still zero, then hashes the name. */
    method GenerateCrc(name: Name, upperCase: bool) returns (crc: bv32)
      requires Valid()
      modifies entries
      ensures Valid() && IsCrcTable(entries)
      ensures crc == NameHash(name, upperCase)
    {
      if entries[1] == 0 {
        BuildCrcTable(entries);
      }
      var units := HashedUnits(name, upperCase);
      crc := FoldUnits(entries, 0xFFFF_FFFF, units);
      NameHashOfFold(name, upperCase, crc);
      crc := crc ^ 0xFFFF_FFFF;
    }
  }

  /** The low byte of a code unit, the only part of it the hash reads. */
  function LowByte(u: WChar): WChar {
    u & 0xFF
  }

  lemma StepReadsLowByte(crc: bv32, a: WChar, b: WChar)
    requires LowByte(a) == LowByte(b)
    ensures Step(crc, a) == Step(crc, b)
  {
  }

  /** Names that agree in the low byte of every code unit fold to the same CRC. */
  lemma {:induction false} FoldReadsLowBytes(crc: bv32, a: Name, b: Name)
    requires |a| == |b|
    requires forall i :: 0 <= i < |a| ==> LowByte(a[i]) == LowByte(b[i])
    ensures Fold(crc, a) == Fold(crc, b)
  {
    if a != [] {
      var n := |a| - 1;
      FoldReadsLowBytes(crc, a[..n], b[..n]);
      StepReadsLowByte(Fold(crc, a[..n]), a[n], b[n]);
    }
  }

  /** Hence the hash of a name depends only on the low byte of each unit. */
  lemma {:induction false} NameHashReadsLowBytes(a: Name, b: Name)
    requires |a| == |b|
    requires forall i :: 0 <= i < |a| ==> LowByte(a[i]) == LowByte(b[i])
    ensures NameHash(a, false) == NameHash(b, false)
  {
    FoldReadsLowBytes(0xFFFF_FFFF, a, b);
    var f := Fold(0xFFFF_FFFF, a);
    NameHashOfFold(a, false, f);
    NameHashOfFold(b, false, f);
  }

  /** The case-insensitive hash is the case-sensitive hash of the upcased name. */
  lemma UpcasedHash(name: Name)
    ensures NameHash(name, true) == NameHash(UpcaseName(name), false)
  {
  }

  /** Names that differ only in letter case share their case-insensitive hash. */
  lemma CaseInsensitiveHashAgrees(a: Name, b: Name)
    requires EqualIgnoringCase(a, b)
    ensures NameHash(a, true) == NameHash(b, true)
  {
  }

  /** Entry 1 of a built table is not zero, which is why entry 1 tells a built table from an empty one. */
  lemma TableEntryOne()
    ensures TableEntry(1) == 0x7707_3096
  {
  }
}
