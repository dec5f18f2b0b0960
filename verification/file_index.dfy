/**
  AFSCreateHighIndex and AFSCreateLowIndex: the two 64-bit tree keys derived
  from a file identifier. The high key names a volume (cell, volume), the
  low key names an object inside it (vnode, unique).
*/
module FileIndex {
  import opened Types

  /** The common shape of both keys: hi shifted into the upper half, or'ed with lo. */
  function Pack(hi: bv32, lo: bv32): (k: bv64)
    ensures (k >> 32) as bv32 == hi
    ensures (k & 0xFFFF_FFFF) as bv32 == lo
  {
    ((hi as bv64) << 32) | (lo as bv64)
  }

  function HighIndex(f: FileId): bv64 {
    Pack(f.cell, f.volume)
  }

  function LowIndex(f: FileId): bv64 {
    Pack(f.vnode, f.unique)
  }

  /** Upper and lower halves of a key. */
  function Split(k: bv64): (bv32, bv32) {
    ((k >> 32) as bv32, (k & 0xFFFF_FFFF) as bv32)
  }

  /** Every key is the packing of its two halves, so packing is a bijection. */
  lemma PackOfSplit(k: bv64)
    ensures Pack(Split(k).0, Split(k).1) == k
  {
    var hi := (k >> 32) as bv32;
    var lo := (k & 0xFFFF_FFFF) as bv32;
    assert (hi as bv64) << 32 == k & 0xFFFF_FFFF_0000_0000;
    assert lo as bv64 == k & 0xFFFF_FFFF;
  }

  lemma HighIndexRoundTrip(f: FileId)
    ensures Split(HighIndex(f)) == (f.cell, f.volume)
  {
  }

  lemma LowIndexRoundTrip(f: FileId)
    ensures Split(LowIndex(f)) == (f.vnode, f.unique)
  {
  }

  /** Two identifiers share a high key exactly when they name the same (cell, volume). */
  lemma HighIndexInjective(a: FileId, b: FileId)
    ensures HighIndex(a) == HighIndex(b) <==> a.cell == b.cell && a.volume == b.volume
  {
    HighIndexRoundTrip(a);
    HighIndexRoundTrip(b);
  }

  /** Two identifiers share a low key exactly when they name the same (vnode, unique). */
  lemma LowIndexInjective(a: FileId, b: FileId)
    ensures LowIndex(a) == LowIndex(b) <==> a.vnode == b.vnode && a.unique == b.unique
  {
    LowIndexRoundTrip(a);
    LowIndexRoundTrip(b);
  }
}
