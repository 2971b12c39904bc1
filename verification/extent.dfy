/**
 The backward extent-record scan of `corrupt_extent`.

 Starting from the last possible key of `bytenr`, the scan repeatedly searches
 for the nearest record at or below the search key. It stops at a search error,
 when nothing lies below the key, or when the record found belongs to another
 object. Otherwise it zeroes the record's payload if its type is one of the six
 extent-reference kinds, takes the found key with its offset lowered by one as
 the next search key, and stops once that offset reaches 0.

 Search errors come from the environment: `fault(n)` says whether the n-th
 search (counting from 0) returns a negative value. However the scan stops, the
 modified leaf is what the transaction commits.

 The stepping rule is a parameter: `OffsetDecrement` is the rule of the source;
 `KeyPredecessor` steps to the lexicographic predecessor of the found key, the
 corrected rule of the finding recorded in README.md.
 */
module ExtentCorrupt {
  import opened Base
  import opened ExtentKeys
  import opened ExtentLeaf

  datatype Stepping = OffsetDecrement | KeyPredecessor

  /** Why the scan ended. */
  datatype Stop =
    | SearchError      // the search returned a negative value
    | NoPredecessor    // a non-exact search landed at slot 0
    | OtherObject      // the record found has another objectid
    | KeysExhausted    // the stepping rule has no next key

  /** The committed leaf, the slots of the records processed in order, the
      search keys in the order they were searched for, and why the scan ended. */
  datatype ScanResult = ScanResult(leaf: Leaf, visited: seq<nat>, searched: seq<Key>, stop: Stop)

  /** `(bytenr, (u8)-1, (u64)-1)`: the last key any record of `bytenr` can have. */
  function StartKey(bytenr: u64): (k: Key)
    ensures forall other: Key :: other.objectid == bytenr ==> Le(other, k)
  {
    Key(bytenr, U8_MAX, U64_MAX)
  }

  /** Lines 157-160: decrement a positive offset, then stop once it is 0. */
  function DecrementOffset(found: Key): (next: Option<Key>)
    ensures next.Some? <==> found.offset > 1
    ensures next.Some? ==> next.value.objectid == found.objectid && next.value.itemType == found.itemType
    ensures next.Some? ==> next.value.offset + 1 == found.offset
  {
    var offset := if found.offset > 0 then found.offset - 1 else 0;
    if offset == 0 then None else Some(found.(offset := offset))
  }

  /** The lexicographic predecessor of `found` among keys of the same object;
      None for `(objectid, 0, 0)`, below which only other objects lie. */
  function PredecessorKey(found: Key): (next: Option<Key>)
    ensures next.Some? ==> next.value.objectid == found.objectid && Lt(next.value, found)
  {
    if found.offset > 0 then Some(found.(offset := found.offset - 1))
    else if found.itemType > 0 then Some(Key(found.objectid, found.itemType - 1, U64_MAX))
    else None
  }

  /** No key of the same object lies strictly between the predecessor and
      `found`; without a predecessor, `found` is the least key of its object. */
  lemma PredecessorIsGreatestBelow(found: Key, k: Key)
    requires k.objectid == found.objectid
    ensures PredecessorKey(found).Some? && Lt(k, found) ==> Le(k, PredecessorKey(found).value)
    ensures PredecessorKey(found).None? ==> Le(found, k)
  {
  }

  function Advance(stepping: Stepping, found: Key): (next: Option<Key>)
    ensures next.Some? ==> next.value.objectid == found.objectid && Lt(next.value, found)
  {
    match stepping
    case OffsetDecrement => DecrementOffset(found)
    case KeyPredecessor => PredecessorKey(found)
  }

  /** Lines 150-153: the payload of slot `s` becomes zeros of the same size. */
  function ZeroPayload(leaf: Leaf, s: nat): (r: Leaf)
    requires s < |leaf|
    ensures Keys(r) == Keys(leaf)
    ensures |r| == |leaf|
    ensures r[s] == Item(leaf[s].key, Zeros(|leaf[s].payload|))
    ensures forall i :: 0 <= i < |leaf| && i != s ==> r[i] == leaf[i]
  {
    leaf[s := Item(leaf[s].key, Zeros(|leaf[s].payload|))]
  }

  /** The scan from search key `key` on, the n-th search being the next one
      (lines 122-161). */
  function Scan(leaf: Leaf, bytenr: u64, key: Key, fault: nat -> bool, n: nat, stepping: Stepping): (r: ScanResult)
    ensures Keys(r.leaf) == Keys(leaf)
    ensures forall j :: 0 <= j < |r.visited| ==> r.visited[j] < |leaf|
    decreases Rank(key)
  {
    if fault(n) then ScanResult(leaf, [], [key], SearchError)
    else match Landing(Keys(leaf), key)
      case None => ScanResult(leaf, [], [key], NoPredecessor)
      case Some(s) =>
        var found := leaf[s].key;
        if found.objectid != bytenr then ScanResult(leaf, [], [key], OtherObject)
        else
          var leaf' := if IsRefType(found.itemType) then ZeroPayload(leaf, s) else leaf;
          match Advance(stepping, found)
          case None => ScanResult(leaf', [s], [key], KeysExhausted)
          case Some(next) =>
            var rest := Scan(leaf', bytenr, next, fault, n + 1, stepping);
            ScanResult(rest.leaf, [s] + rest.visited, [key] + rest.searched, rest.stop)
  }

  /** Every record keeps its key; a record's payload becomes zeros of the same
      size exactly when the scan processed it and its type is a reference kind;
      every other record is left as it was. */
  ghost predicate LeafZeroedExactly(before: Leaf, after: Leaf, visited: seq<nat>)
  {
    && |after| == |before|
    && forall i :: 0 <= i < |before| ==>
         after[i] == if i in visited && IsRefType(before[i].key.itemType)
                     then Item(before[i].key, Zeros(|before[i].payload|))
                     else before[i]
  }

  lemma {:induction false} ScanZeroesExactly(leaf: Leaf, bytenr: u64, key: Key, fault: nat -> bool, n: nat, stepping: Stepping)
    ensures var r := Scan(leaf, bytenr, key, fault, n, stepping);
      LeafZeroedExactly(leaf, r.leaf, r.visited)
    decreases Rank(key)
  {
    if Steps(Keys(leaf), bytenr, key, fault, n, stepping) {
      var s := Landing(Keys(leaf), key).value;
      var found := leaf[s].key;
      var leaf' := if IsRefType(found.itemType) then ZeroPayload(leaf, s) else leaf;
      var next := Advance(stepping, found).value;
      ScanZeroesExactly(leaf', bytenr, next, fault, n + 1, stepping);
    }
  }

  /** What the scan does, seen through the keys alone: which slots it
      processes, which keys it searches for, and why it stops. The keys never
      change during the scan, so this is all its control flow depends on. */
  datatype Trace = Trace(visited: seq<nat>, searched: seq<Key>, stop: Stop)

  function Walk(ks: seq<Key>, bytenr: u64, key: Key, fault: nat -> bool, n: nat, stepping: Stepping): (t: Trace)
    ensures forall j :: 0 <= j < |t.visited| ==> t.visited[j] < |ks|
    decreases Rank(key)
  {
    if fault(n) then Trace([], [key], SearchError)
    else match Landing(ks, key)
      case None => Trace([], [key], NoPredecessor)
      case Some(s) =>
        if ks[s].objectid != bytenr then Trace([], [key], OtherObject)
        else match Advance(stepping, ks[s])
          case None => Trace([s], [key], KeysExhausted)
          case Some(next) =>
            var rest := Walk(ks, bytenr, next, fault, n + 1, stepping);
            Trace([s] + rest.visited, [key] + rest.searched, rest.stop)
  }

  /** The scan follows the walk over its keys. */
  lemma {:induction false} ScanFollowsWalk(leaf: Leaf, bytenr: u64, key: Key, fault: nat -> bool, n: nat, stepping: Stepping)
    ensures var r := Scan(leaf, bytenr, key, fault, n, stepping);
      Trace(r.visited, r.searched, r.stop) == Walk(Keys(leaf), bytenr, key, fault, n, stepping)
    decreases Rank(key)
  {
    if !fault(n) && Landing(Keys(leaf), key).Some? {
      var s := Landing(Keys(leaf), key).value;
      var found := leaf[s].key;
      if found.objectid == bytenr && Advance(stepping, found).Some? {
        var leaf' := if IsRefType(found.itemType) then ZeroPayload(leaf, s) else leaf;
        ScanFollowsWalk(leaf', bytenr, Advance(stepping, found).value, fault, n + 1, stepping);
      }
    }
  }

  /** One more step of the walk follows from `key`. */
  predicate Steps(ks: seq<Key>, bytenr: u64, key: Key, fault: nat -> bool, n: nat, stepping: Stepping)
  {
    && !fault(n)
    && Landing(ks, key).Some?
    && ks[Landing(ks, key).value].objectid == bytenr
    && Advance(stepping, ks[Landing(ks, key).value]).Some?
  }

  /** The number of searches: one per record processed, plus the one that
      ended the scan unless the stepping rule ran out; there is always one,
      and the first is for the starting key. */
  lemma {:induction false} WalkSearchCount(ks: seq<Key>, bytenr: u64, key: Key, fault: nat -> bool, n: nat, stepping: Stepping)
    ensures var t := Walk(ks, bytenr, key, fault, n, stepping);
      && |t.searched| == |t.visited| + (if t.stop == KeysExhausted then 0 else 1)
      && |t.searched| >= 1
      && t.searched[0] == key
    decreases Rank(key)
  {
    if Steps(ks, bytenr, key, fault, n, stepping) {
      WalkSearchCount(ks, bytenr, Advance(stepping, ks[Landing(ks, key).value]).value, fault, n + 1, stepping);
    }
  }

  /** Every search before the last one succeeded. */
  lemma {:induction false} WalkSearchesSucceed(ks: seq<Key>, bytenr: u64, key: Key, fault: nat -> bool, n: nat, stepping: Stepping)
    ensures var t := Walk(ks, bytenr, key, fault, n, stepping);
      forall m :: n <= m < n + |t.visited| ==> !fault(m)
    decreases Rank(key)
  {
    if Steps(ks, bytenr, key, fault, n, stepping) {
      WalkSearchesSucceed(ks, bytenr, Advance(stepping, ks[Landing(ks, key).value]).value, fault, n + 1, stepping);
    }
  }

  /** The j-th search landed on the j-th record processed, and that record
      belongs to `bytenr`. */
  lemma {:induction false} WalkLandsOnVisited(ks: seq<Key>, bytenr: u64, key: Key, fault: nat -> bool, n: nat, stepping: Stepping)
    ensures var t := Walk(ks, bytenr, key, fault, n, stepping);
      forall j :: 0 <= j < |t.visited| ==>
        && j < |t.searched|
        && Landing(ks, t.searched[j]) == Some(t.visited[j])
        && ks[t.visited[j]].objectid == bytenr
    decreases Rank(key)
  {
    WalkSearchCount(ks, bytenr, key, fault, n, stepping);
    if Steps(ks, bytenr, key, fault, n, stepping) {
      var next := Advance(stepping, ks[Landing(ks, key).value]).value;
      WalkLandsOnVisited(ks, bytenr, next, fault, n + 1, stepping);
      WalkSearchCount(ks, bytenr, next, fault, n + 1, stepping);
      var t := Walk(ks, bytenr, key, fault, n, stepping);
      var rest := Walk(ks, bytenr, next, fault, n + 1, stepping);
      forall j | 1 <= j < |t.visited|
        ensures Landing(ks, t.searched[j]) == Some(t.visited[j])
        ensures ks[t.visited[j]].objectid == bytenr
      {
        assert t.visited[j] == rest.visited[j - 1] && t.searched[j] == rest.searched[j - 1];
      }
    }
  }

  /** Each search key after the first is what the stepping rule made of the
      record processed before it. */
  lemma {:induction false} WalkChains(ks: seq<Key>, bytenr: u64, key: Key, fault: nat -> bool, n: nat, stepping: Stepping)
    ensures var t := Walk(ks, bytenr, key, fault, n, stepping);
      forall j :: 0 <= j < |t.searched| - 1 ==>
        && j < |t.visited|
        && Advance(stepping, ks[t.visited[j]]) == Some(t.searched[j + 1])
    decreases Rank(key)
  {
    WalkSearchCount(ks, bytenr, key, fault, n, stepping);
    if Steps(ks, bytenr, key, fault, n, stepping) {
      var next := Advance(stepping, ks[Landing(ks, key).value]).value;
      WalkChains(ks, bytenr, next, fault, n + 1, stepping);
      WalkSearchCount(ks, bytenr, next, fault, n + 1, stepping);
      var t := Walk(ks, bytenr, key, fault, n, stepping);
      var rest := Walk(ks, bytenr, next, fault, n + 1, stepping);
      forall j | 1 <= j < |t.searched| - 1
        ensures Advance(stepping, ks[t.visited[j]]) == Some(t.searched[j + 1])
      {
        assert t.visited[j] == rest.visited[j - 1] && t.searched[j + 1] == rest.searched[j];
      }
    }
  }

  /** Why the walk ended: the stepping rule gave no key after the last record
      processed, or the last search failed, landed before slot 0, or landed on
      a record of another object. */
  ghost predicate StoppedBecause(ks: seq<Key>, bytenr: u64, fault: nat -> bool, n: nat, stepping: Stepping, t: Trace)
    requires |t.searched| == |t.visited| + (if t.stop == KeysExhausted then 0 else 1)
    requires forall j :: 0 <= j < |t.visited| ==> t.visited[j] < |ks|
  {
    var m := |t.visited|;
    match t.stop
    case KeysExhausted => m > 0 && Advance(stepping, ks[t.visited[m - 1]]).None?
    case SearchError => fault(n + m)
    case NoPredecessor => !fault(n + m) && Landing(ks, t.searched[m]).None?
    case OtherObject =>
      && !fault(n + m)
      && Landing(ks, t.searched[m]).Some?
      && ks[Landing(ks, t.searched[m]).value].objectid != bytenr
  }

  /** The stepping rule ran out exactly at the last record processed. */
  lemma {:induction false} WalkRunsOut(ks: seq<Key>, bytenr: u64, key: Key, fault: nat -> bool, n: nat, stepping: Stepping)
    ensures var t := Walk(ks, bytenr, key, fault, n, stepping);
      t.stop == KeysExhausted ==>
        |t.visited| > 0 && Advance(stepping, ks[t.visited[|t.visited| - 1]]).None?
    decreases Rank(key)
  {
    if Steps(ks, bytenr, key, fault, n, stepping) {
      var next := Advance(stepping, ks[Landing(ks, key).value]).value;
      WalkRunsOut(ks, bytenr, next, fault, n + 1, stepping);
      var t := Walk(ks, bytenr, key, fault, n, stepping);
      var rest := Walk(ks, bytenr, next, fault, n + 1, stepping);
      if t.stop == KeysExhausted {
        assert t.visited[|t.visited| - 1] == rest.visited[|rest.visited| - 1];
      }
    }
  }

  /** The search after the last record processed failed exactly when the
      walk reports a search error. */
  lemma {:induction false} WalkEndsOnFault(ks: seq<Key>, bytenr: u64, key: Key, fault: nat -> bool, n: nat, stepping: Stepping)
    ensures var t := Walk(ks, bytenr, key, fault, n, stepping);
      t.stop != KeysExhausted ==>
        var m := |t.visited|;
        && m < |t.searched|
        && (t.stop == SearchError <==> fault(n + m))
    decreases Rank(key)
  {
    WalkSearchCount(ks, bytenr, key, fault, n, stepping);
    if Steps(ks, bytenr, key, fault, n, stepping) {
      var next := Advance(stepping, ks[Landing(ks, key).value]).value;
      WalkEndsOnFault(ks, bytenr, next, fault, n + 1, stepping);
      var t := Walk(ks, bytenr, key, fault, n, stepping);
      var rest := Walk(ks, bytenr, next, fault, n + 1, stepping);
      if t.stop != KeysExhausted {
        assert n + |t.visited| == (n + 1) + |rest.visited|;
      }
    }
  }

  /** A walk that stops after a successful search stops because that search
      landed before slot 0 or on a record of another object. */
  lemma {:induction false} WalkEndsOnLanding(ks: seq<Key>, bytenr: u64, key: Key, fault: nat -> bool, n: nat, stepping: Stepping)
    ensures var t := Walk(ks, bytenr, key, fault, n, stepping);
      t.stop != KeysExhausted ==>
        var m := |t.visited|;
        && m < |t.searched|
        && (t.stop == NoPredecessor ==> Landing(ks, t.searched[m]).None?)
        && (t.stop == OtherObject ==>
              Landing(ks, t.searched[m]).Some? && ks[Landing(ks, t.searched[m]).value].objectid != bytenr)
    decreases Rank(key)
  {
    WalkSearchCount(ks, bytenr, key, fault, n, stepping);
    if Steps(ks, bytenr, key, fault, n, stepping) {
      var next := Advance(stepping, ks[Landing(ks, key).value]).value;
      WalkEndsOnLanding(ks, bytenr, next, fault, n + 1, stepping);
      var t := Walk(ks, bytenr, key, fault, n, stepping);
      var rest := Walk(ks, bytenr, next, fault, n + 1, stepping);
      if t.stop != KeysExhausted {
        assert t.searched[|t.visited|] == rest.searched[|rest.visited|];
      }
    }
  }

  /** Every walk ends for the reason it reports. */
  lemma WalkStops(ks: seq<Key>, bytenr: u64, key: Key, fault: nat -> bool, n: nat, stepping: Stepping)
    ensures var t := Walk(ks, bytenr, key, fault, n, stepping);
      && |t.searched| == |t.visited| + (if t.stop == KeysExhausted then 0 else 1)
      && StoppedBecause(ks, bytenr, fault, n, stepping, t)
  {
    WalkSearchCount(ks, bytenr, key, fault, n, stepping);
    WalkRunsOut(ks, bytenr, key, fault, n, stepping);
    WalkEndsOnFault(ks, bytenr, key, fault, n, stepping);
    WalkEndsOnLanding(ks, bytenr, key, fault, n, stepping);
  }

  /** The keys searched for strictly decrease, each below the one before. */
  lemma {:induction false} WalkSearchesDescend(ks: seq<Key>, bytenr: u64, key: Key, fault: nat -> bool, n: nat, stepping: Stepping)
    ensures var t := Walk(ks, bytenr, key, fault, n, stepping);
      forall i, j :: 0 <= i < j < |t.searched| ==> Lt(t.searched[j], t.searched[i])
    decreases Rank(key)
  {
    if Steps(ks, bytenr, key, fault, n, stepping) {
      var next := Advance(stepping, ks[Landing(ks, key).value]).value;
      WalkSearchesDescend(ks, bytenr, next, fault, n + 1, stepping);
      WalkSearchCount(ks, bytenr, next, fault, n + 1, stepping);
      var t := Walk(ks, bytenr, key, fault, n, stepping);
      var rest := Walk(ks, bytenr, next, fault, n + 1, stepping);
      assert Lt(next, key);
      forall i, j | 0 <= i < j < |t.searched|
        ensures Lt(t.searched[j], t.searched[i])
      {
        assert t.searched[j] == rest.searched[j - 1];
        if i == 0 {
          if j > 1 {
            assert Lt(rest.searched[j - 1], rest.searched[0]);
          }
        } else {
          assert t.searched[i] == rest.searched[i - 1];
        }
      }
    }
  }

  /** On a sorted leaf the slots processed strictly decrease, so no record is
      processed twice. */
  lemma WalkVisitsDescend(ks: seq<Key>, bytenr: u64, key: Key, fault: nat -> bool, n: nat, stepping: Stepping)
    requires Sorted(ks)
    ensures var t := Walk(ks, bytenr, key, fault, n, stepping);
      forall i, j :: 0 <= i < j < |t.visited| ==> t.visited[j] < t.visited[i]
  {
    var t := Walk(ks, bytenr, key, fault, n, stepping);
    WalkSearchCount(ks, bytenr, key, fault, n, stepping);
    WalkLandsOnVisited(ks, bytenr, key, fault, n, stepping);
    WalkChains(ks, bytenr, key, fault, n, stepping);
    WalkSearchesDescend(ks, bytenr, key, fault, n, stepping);
    forall i, j | 0 <= i < j < |t.visited|
      ensures t.visited[j] < t.visited[i]
    {
      // the record processed j-th lies at or below the j-th search key,
      // which lies below the (i+1)-th, which lies below the i-th record
      assert Le(ks[t.visited[j]], t.searched[j]);
      assert Lt(t.searched[i + 1], ks[t.visited[i]]);
      if i + 1 < j {
        assert Lt(t.searched[j], t.searched[i + 1]);
      }
      SlotOrderFollowsKeyOrder(ks, t.visited[j], t.visited[i]);
    }
  }

  /** Under the source's stepping rule each next search key is the record
      just processed with its offset one lower, which needs an offset above 1;
      the walk runs out of keys exactly at a record whose offset is 0 or 1.
      The search key keeps the type of the record found, so the type can drop
      from one search to the next while the offset jumps up. */
  lemma OffsetSteppingTrace(ks: seq<Key>, bytenr: u64, key: Key, fault: nat -> bool, n: nat)
    ensures var t := Walk(ks, bytenr, key, fault, n, OffsetDecrement);
      && (forall j :: 0 <= j < |t.searched| - 1 ==>
            && j < |t.visited|
            && ks[t.visited[j]].offset > 1
            && t.searched[j + 1] == ks[t.visited[j]].(offset := ks[t.visited[j]].offset - 1))
      && (t.stop == KeysExhausted <==> |t.visited| > 0 && ks[t.visited[|t.visited| - 1]].offset <= 1)
  {
    WalkChains(ks, bytenr, key, fault, n, OffsetDecrement);
    WalkStops(ks, bytenr, key, fault, n, OffsetDecrement);
  }

  /** On a sorted leaf the source's stepping rule moves down one slot at a
      time: the search after a processed record lands on the slot just before
      it, because the lowered key lies directly below the record found. */
  lemma WalkVisitsAdjacent(ks: seq<Key>, bytenr: u64, key: Key, fault: nat -> bool, n: nat)
    requires Sorted(ks)
    ensures var t := Walk(ks, bytenr, key, fault, n, OffsetDecrement);
      forall j :: 0 <= j < |t.visited| - 1 ==> t.visited[j + 1] + 1 == t.visited[j]
  {
    var t := Walk(ks, bytenr, key, fault, n, OffsetDecrement);
    WalkSearchCount(ks, bytenr, key, fault, n, OffsetDecrement);
    WalkLandsOnVisited(ks, bytenr, key, fault, n, OffsetDecrement);
    WalkChains(ks, bytenr, key, fault, n, OffsetDecrement);
    WalkVisitsDescend(ks, bytenr, key, fault, n, OffsetDecrement);
    forall j | 0 <= j < |t.visited| - 1
      ensures t.visited[j + 1] + 1 == t.visited[j]
    {
      var a := t.visited[j];
      var b := t.visited[j + 1];
      var k := t.searched[j + 1];
      assert DecrementOffset(ks[a]) == Some(k);
      assert Rank(k) + 1 == Rank(ks[a]);
      assert Landing(ks, k) == Some(b);
      LandingIsNearestBelow(ks, k);
      // the record just below slot a lies below ks[a], hence at or below k,
      // so the landing slot is not before it
      assert Lt(ks[a - 1], ks[a]);
      assert !(b < a - 1);
    }
  }

  /** On a sorted leaf the scan starts at the last record of `bytenr`: every
      later record belongs to a larger object. */
  lemma WalkStartsAtLastRecord(ks: seq<Key>, bytenr: u64, fault: nat -> bool, n: nat, stepping: Stepping)
    requires Sorted(ks)
    ensures var t := Walk(ks, bytenr, StartKey(bytenr), fault, n, stepping);
      |t.visited| > 0 ==>
        && ks[t.visited[0]].objectid == bytenr
        && forall i :: t.visited[0] < i < |ks| ==> ks[i].objectid > bytenr
  {
    var key := StartKey(bytenr);
    var t := Walk(ks, bytenr, key, fault, n, stepping);
    WalkSearchCount(ks, bytenr, key, fault, n, stepping);
    WalkLandsOnVisited(ks, bytenr, key, fault, n, stepping);
    if |t.visited| > 0 {
      LandingIsNearestBelow(ks, key);
      forall i | t.visited[0] < i < |ks|
        ensures ks[i].objectid > bytenr
      {
        assert Lt(key, ks[i]);
        LtIsLexicographic(key, ks[i]);
      }
    }
  }

  /** When the first search succeeds and a sorted leaf holds a record of
      `bytenr`, the scan processes at least one record. */
  lemma WalkReachesBlock(ks: seq<Key>, bytenr: u64, fault: nat -> bool, n: nat, stepping: Stepping, i: nat)
    requires Sorted(ks)
    requires !fault(n)
    requires i < |ks| && ks[i].objectid == bytenr
    ensures |Walk(ks, bytenr, StartKey(bytenr), fault, n, stepping).visited| > 0
  {
    var key := StartKey(bytenr);
    LandingIsNearestBelow(ks, key);
    assert Le(ks[i], key);
    assert Landing(ks, key).Some?;
    var s := Landing(ks, key).value;
    assert i <= s;
    assert Le(ks[i], ks[s]);
    RankBands(ks[i]);
    RankBands(ks[s]);
    RankBands(key);
  }

  /** `corrupt_extent` (lines 104-168) with the given stepping rule: the scan
      from the last key `bytenr` can have. Keys and sizes never change, and
      the only records that change are reference records of `bytenr`, whose
      payloads become zeros. */
  function CorruptExtent(leaf: Leaf, bytenr: u64, fault: nat -> bool, stepping: Stepping): (r: Leaf)
    ensures Keys(r) == Keys(leaf)
    ensures forall i :: 0 <= i < |leaf| ==>
      || r[i] == leaf[i]
      || (&& leaf[i].key.objectid == bytenr
          && IsRefType(leaf[i].key.itemType)
          && r[i] == Item(leaf[i].key, Zeros(|leaf[i].payload|)))
  {
    var key := StartKey(bytenr);
    ScanZeroesExactly(leaf, bytenr, key, fault, 0, stepping);
    ScanFollowsWalk(leaf, bytenr, key, fault, 0, stepping);
    WalkLandsOnVisited(Keys(leaf), bytenr, key, fault, 0, stepping);
    Scan(leaf, bytenr, key, fault, 0, stepping).leaf
  }

  /** With the corrected stepping rule and no search errors, a walk that
      starts at a key of `bytenr` processes every record of `bytenr` at or
      below that key. */
  lemma {:induction false} PredecessorWalkCovers(ks: seq<Key>, bytenr: u64, key: Key, fault: nat -> bool, n: nat, i: nat)
    requires Sorted(ks)
    requires forall m :: !fault(m)
    requires key.objectid == bytenr
    requires i < |ks| && ks[i].objectid == bytenr && Le(ks[i], key)
    ensures i in Walk(ks, bytenr, key, fault, n, KeyPredecessor).visited
    decreases Rank(key)
  {
    LandingIsNearestBelow(ks, key);
    assert Landing(ks, key).Some?;
    var s := Landing(ks, key).value;
    assert i <= s;
    LtIsLexicographic(ks[s], key);
    if i < s {
      assert Lt(ks[i], ks[s]);
      LtIsLexicographic(ks[i], ks[s]);
      assert ks[s].objectid == bytenr;
      PredecessorIsGreatestBelow(ks[s], ks[i]);
      assert PredecessorKey(ks[s]).Some?;
      var next := PredecessorKey(ks[s]).value;
      PredecessorWalkCovers(ks, bytenr, next, fault, n + 1, i);
    }
  }

  /** With the corrected stepping rule and no search errors, the scan zeroes
      exactly the reference records of `bytenr`, whatever their type and
      offset, and leaves every other record as it was. */
  lemma FixedScanZeroesEveryReference(leaf: Leaf, bytenr: u64, fault: nat -> bool)
    requires Sorted(Keys(leaf))
    requires forall m :: !fault(m)
    ensures var r := CorruptExtent(leaf, bytenr, fault, KeyPredecessor);
      forall i :: 0 <= i < |leaf| ==>
        r[i] == if leaf[i].key.objectid == bytenr && IsRefType(leaf[i].key.itemType)
                then Item(leaf[i].key, Zeros(|leaf[i].payload|))
                else leaf[i]
  {
    var key := StartKey(bytenr);
    ScanZeroesExactly(leaf, bytenr, key, fault, 0, KeyPredecessor);
    ScanFollowsWalk(leaf, bytenr, key, fault, 0, KeyPredecessor);
    WalkLandsOnVisited(Keys(leaf), bytenr, key, fault, 0, KeyPredecessor);
    forall i | 0 <= i < |leaf| && leaf[i].key.objectid == bytenr
      ensures i in Scan(leaf, bytenr, key, fault, 0, KeyPredecessor).visited
    {
      PredecessorWalkCovers(Keys(leaf), bytenr, key, fault, 0, i);
    }
  }

  /** Two tree-block back-references of block 8192, at offsets 3 and 10. */
  function TwoRefsLeaf(): Leaf
  {
    [ Item(Key(8192, TREE_BLOCK_REF_KEY, 3), [7, 7]),
      Item(Key(8192, TREE_BLOCK_REF_KEY, 10), [7]) ]
  }

  /** As written, the scan lands on offset 10, then searches from offset 9
      down to the record at offset 3, then from offset 2 finds nothing below:
      both payloads become zeros and the keys stay. */
  lemma AsWrittenZeroesBothReferences()
    ensures CorruptExtent(TwoRefsLeaf(), 8192, _ => false, OffsetDecrement)
         == [Item(TwoRefsLeaf()[0].key, [0, 0]), Item(TwoRefsLeaf()[1].key, [0])]
  {
    var leaf := TwoRefsLeaf();
    var ks := Keys(leaf);
    var k0 := StartKey(8192);
    assert SearchFrom(ks, k0, 2) == Insert(2);
    assert SearchFrom(ks, k0, 1) == Insert(2);
    assert SearchFrom(ks, k0, 0) == Insert(2);
    var k1 := Key(8192, TREE_BLOCK_REF_KEY, 9);
    assert DecrementOffset(ks[1]) == Some(k1);
    assert SearchFrom(ks, k1, 1) == Insert(1);
    assert SearchFrom(ks, k1, 0) == Insert(1);
    var k2 := Key(8192, TREE_BLOCK_REF_KEY, 2);
    assert DecrementOffset(ks[0]) == Some(k2);
    assert SearchFrom(ks, k2, 0) == Insert(0);
    assert Zeros(1) == [0];
    assert Zeros(2) == [0, 0];
  }

  /** The leaf of the finding: an extent item of block 8192 sorted below a
      tree-block back-reference of the same block whose offset is 1. */
  function MissedLeaf(): Leaf
  {
    [ Item(Key(8192, EXTENT_ITEM_KEY, 4096), [1]),
      Item(Key(8192, TREE_BLOCK_REF_KEY, 1), [1]) ]
  }

  /** As written, the scan zeroes the back-reference, takes its offset 1 down
      to 0 and stops, so the extent item of the same block, a reference
      record, keeps its payload. */
  lemma AsWrittenMissesLowerTypes()
    ensures var r := CorruptExtent(MissedLeaf(), 8192, _ => false, OffsetDecrement);
      && MissedLeaf()[0].key.objectid == 8192
      && IsRefType(MissedLeaf()[0].key.itemType)
      && r[0] == MissedLeaf()[0]
      && r[1] == Item(MissedLeaf()[1].key, [0])
  {
    var leaf := MissedLeaf();
    var ks := Keys(leaf);
    var key := StartKey(8192);
    assert SearchFrom(ks, key, 2) == Insert(2);
    assert SearchFrom(ks, key, 1) == Insert(2);
    assert SearchFrom(ks, key, 0) == Insert(2);
    assert Landing(ks, key) == Some(1);
    assert DecrementOffset(ks[1]) == None;
  }

  /** With the corrected stepping rule the same leaf loses both payloads. */
  lemma FixedZeroesLowerTypes()
    ensures var r := CorruptExtent(MissedLeaf(), 8192, _ => false, KeyPredecessor);
      r == [Item(MissedLeaf()[0].key, [0]), Item(MissedLeaf()[1].key, [0])]
  {
    var leaf := MissedLeaf();
    assert Sorted(Keys(leaf)) by {
      LtIsLexicographic(leaf[0].key, leaf[1].key);
    }
    FixedScanZeroesEveryReference(leaf, 8192, _ => false);
    var r := CorruptExtent(leaf, 8192, _ => false, KeyPredecessor);
    assert |r| == |Keys(r)| == 2;
    assert Zeros(1) == [0];
  }
}
