/**
 The extent tree seen as one sorted leaf, and `btrfs_search_slot` on it: an
 exact match answers 0 with the slot of the key, any other search answers a
 positive value with the slot where the key would be inserted.
 */
module ExtentLeaf {
  import opened Base
  import opened ExtentKeys

  /** One record of the leaf: its key and its payload bytes (item size = |payload|). */
  datatype Item = Item(key: Key, payload: seq<byte>)

  type Leaf = seq<Item>

  function Keys(leaf: Leaf): (ks: seq<Key>)
    ensures |ks| == |leaf|
    ensures forall i :: 0 <= i < |leaf| ==> ks[i] == leaf[i].key
  {
    seq(|leaf|, i requires 0 <= i < |leaf| => leaf[i].key)
  }

  /** Keys strictly ascending, as a tree leaf keeps them. */
  predicate Sorted(ks: seq<Key>)
  {
    forall i, j :: 0 <= i < j < |ks| ==> Lt(ks[i], ks[j])
  }

  /** In a sorted leaf a smaller key sits in an earlier slot. */
  lemma SlotOrderFollowsKeyOrder(ks: seq<Key>, a: nat, b: nat)
    requires Sorted(ks)
    requires a < |ks| && b < |ks|
    requires Lt(ks[a], ks[b])
    ensures a < b
  {
  }

  /** The answer of `btrfs_search_slot`: ret == 0 with the slot of the key, or
      ret > 0 with the insertion slot. Errors (ret < 0) are modelled by the scan. */
  datatype SearchResult = Exact(slot: nat) | Insert(slot: nat)

  /** The slot-by-slot search from `from` on: the first slot whose key is not
      below `key`, exact when the key is there. */
  function SearchFrom(ks: seq<Key>, key: Key, from: nat): (r: SearchResult)
    requires from <= |ks|
    ensures r.Exact? ==> from <= r.slot < |ks| && ks[r.slot] == key
    ensures r.Insert? ==> from <= r.slot <= |ks|
    ensures r.Insert? && from < r.slot ==> Lt(ks[r.slot - 1], key)
    decreases |ks| - from
  {
    if from == |ks| then Insert(from)
    else if ks[from] == key then Exact(from)
    else if Lt(key, ks[from]) then Insert(from)
    else
      LtIsLexicographic(key, ks[from]);
      SearchFrom(ks, key, from + 1)
  }

  /** `btrfs_search_slot` over the leaf. */
  function SearchSlot(ks: seq<Key>, key: Key): (r: SearchResult)
    ensures r.Exact? ==> r.slot < |ks| && ks[r.slot] == key
    ensures r.Insert? ==> r.slot <= |ks|
    ensures r.Insert? && 0 < r.slot ==> Lt(ks[r.slot - 1], key)
  {
    SearchFrom(ks, key, 0)
  }

  /** On a sorted leaf whose keys before `from` are all below `key`, the
      search finds the key when it is present and otherwise the slot that
      splits the smaller keys from the larger ones. */
  lemma {:induction false} SearchFromFinds(ks: seq<Key>, key: Key, from: nat)
    requires Sorted(ks)
    requires from <= |ks|
    requires forall i :: 0 <= i < from ==> Lt(ks[i], key)
    ensures var r := SearchFrom(ks, key, from);
      && (r.Exact? ==> ks[r.slot] == key)
      && (r.Insert? ==> forall i :: 0 <= i < r.slot ==> Lt(ks[i], key))
      && (r.Insert? ==> forall i :: r.slot <= i < |ks| ==> Lt(key, ks[i]))
    decreases |ks| - from
  {
    if from < |ks| && ks[from] != key && !Lt(key, ks[from]) {
      LtIsLexicographic(key, ks[from]);
      SearchFromFinds(ks, key, from + 1);
    }
  }

  /** The search answers exactly on a present key and otherwise gives the
      insertion point: every key before it is smaller, every key from it on
      larger. */
  lemma SearchSlotFinds(ks: seq<Key>, key: Key)
    requires Sorted(ks)
    ensures var r := SearchSlot(ks, key);
      && (r.Exact? <==> key in ks)
      && (r.Exact? ==> ks[r.slot] == key)
      && (r.Insert? ==> forall i :: 0 <= i < r.slot ==> Lt(ks[i], key))
      && (r.Insert? ==> forall i :: r.slot <= i < |ks| ==> Lt(key, ks[i]))
  {
    SearchFromFinds(ks, key, 0);
  }

  /** Where the scan lands after a search (lines 125-132 without the error
      case): the found slot on an exact match, the slot before the insertion
      point otherwise, and None when the insertion point is slot 0. */
  function Landing(ks: seq<Key>, key: Key): (s: Option<nat>)
    ensures s.Some? ==> s.value < |ks| && Le(ks[s.value], key)
  {
    match SearchSlot(ks, key)
    case Exact(slot) => Some(slot)
    case Insert(slot) => if slot == 0 then None else Some(slot - 1)
  }

  /** The scan lands on the last record at or below the search key, and on
      nothing when every record lies above it. */
  lemma LandingIsNearestBelow(ks: seq<Key>, key: Key)
    requires Sorted(ks)
    ensures var s := Landing(ks, key);
      && (s.Some? ==> forall i :: s.value < i < |ks| ==> Lt(key, ks[i]))
      && (s.None? ==> forall i :: 0 <= i < |ks| ==> Lt(key, ks[i]))
  {
    SearchSlotFinds(ks, key);
    var r := SearchSlot(ks, key);
    if r.Exact? {
      forall i | r.slot < i < |ks| ensures Lt(key, ks[i]) {
        assert Lt(ks[r.slot], ks[i]);
      }
    }
  }
}
