/**
 Keys of the extent tree and the record types the extent scan corrupts.

 A key is the triple (objectid, type, offset). The tree keeps its records in
 lexicographic order of that triple; the comparator itself lives in the ctree
 code, which is not part of this model, so `Lt` below is the assumed order.
 */
module ExtentKeys {
  import opened Base

  datatype Key = Key(objectid: u64, itemType: u8, offset: u64)

  /** The number of key positions each object owns: 256 types times 2^64 offsets. */
  const OBJECT_SPAN: int := 0x100 * 0x1_0000_0000_0000_0000

  /** A key's position in the tree's order, as one number: objectid first,
      then type, then offset. */
  function Rank(k: Key): nat
  {
    (k.objectid * 0x100 + k.itemType) * 0x1_0000_0000_0000_0000 + k.offset
  }

  /** The keys of one object fill a band of positions of their own, below
      every key of a larger object. */
  lemma RankBands(k: Key)
    ensures k.objectid * OBJECT_SPAN <= Rank(k) < (k.objectid + 1) * OBJECT_SPAN
  {
  }

  predicate Lt(a: Key, b: Key)
  {
    Rank(a) < Rank(b)
  }

  predicate Le(a: Key, b: Key)
  {
    Rank(a) <= Rank(b)
  }

  /** The order is the lexicographic order on (objectid, type, offset), and
      distinct keys never share a rank. */
  lemma LtIsLexicographic(a: Key, b: Key)
    ensures Lt(a, b) <==>
      || a.objectid < b.objectid
      || (a.objectid == b.objectid && a.itemType < b.itemType)
      || (a.objectid == b.objectid && a.itemType == b.itemType && a.offset < b.offset)
    ensures Rank(a) == Rank(b) <==> a == b
  {
  }

  /** Record-type codes of the extent tree, as ctree.h assigns them. */
  const EXTENT_ITEM_KEY: u8 := 168
  const TREE_BLOCK_REF_KEY: u8 := 176
  const EXTENT_DATA_REF_KEY: u8 := 178
  const EXTENT_REF_V0_KEY: u8 := 180
  const SHARED_BLOCK_REF_KEY: u8 := 182
  const SHARED_DATA_REF_KEY: u8 := 184

  /** The six record types the scan corrupts. */
  const REF_TYPES: set<u8> := {
    EXTENT_ITEM_KEY, TREE_BLOCK_REF_KEY, EXTENT_DATA_REF_KEY,
    EXTENT_REF_V0_KEY, SHARED_BLOCK_REF_KEY, SHARED_DATA_REF_KEY
  }

  /** The filter of the scan, written as the source's chain of inequalities. */
  predicate IsRefType(t: u8)
  {
    !(t != EXTENT_ITEM_KEY &&
      t != TREE_BLOCK_REF_KEY &&
      t != EXTENT_DATA_REF_KEY &&
      t != EXTENT_REF_V0_KEY &&
      t != SHARED_BLOCK_REF_KEY &&
      t != SHARED_DATA_REF_KEY)
  }

  /** The filter accepts a type exactly when it is one of the six reference
      types. */
  lemma RefTypeFilter(t: u8)
    ensures IsRefType(t) <==> t in REF_TYPES
  {
  }
}
