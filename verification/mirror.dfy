/**
 The mirror-corruption loop of `debug_corrupt_block`: starting at mirror 1, map
 the logical block to the physical block of the current mirror, zero it when the
 copy selector picks that mirror, then re-query the number of copies to decide
 whether to go on to the next mirror.

 The volume library is abstract: `Volume.locate` is what `btrfs_map_block`
 answers for a mirror (None when mapping fails, which the source turns into a
 `BUG_ON` abort) and `Volume.copies` is what `btrfs_num_copies` reports right
 after the pass over a mirror, so the count may change from pass to pass.
 */
module MirrorCorrupt {
  import opened Base

  /** A physical location chosen by the mapping layer: a device and a byte offset on it. */
  datatype Phys = Phys(device: nat, offset: u64)

  /** The content of the block stored at each physical location. */
  type Disk = map<Phys, seq<byte>>

  /** The mapping layer, seen from the mirror loop.
      locate(logical, mirror): the first stripe btrfs_map_block returns, or None on failure.
      copies(logical, mirror): the value btrfs_num_copies returns after the pass over `mirror`. */
  datatype Volume = Volume(locate: (u64, int) -> Option<Phys>, copies: (u64, int) -> i32)

  /** One pass of the loop: the mirror number printed, the location it mapped to,
      and whether that location was overwritten with zeros. */
  datatype Pass = Pass(mirror: int, phys: Phys, corrupted: bool)

  /** What one call leaves behind: the disk, the passes in order, and whether the
      mapping failed (the source aborts the whole process there). */
  datatype Outcome = Outcome(disk: Disk, passes: seq<Pass>, aborted: bool)

  /** `!copy || mirror_num == copy`. */
  predicate Selects(copy: int, mirror: int)
  {
    copy == 0 || mirror == copy
  }

  /** Copy 0 selects every mirror; any other selector selects at most one
      mirror, the one with its own number, so a negative selector selects
      none of the mirrors the loop visits. */
  lemma SelectorPicksOneOrAll(copy: int, m1: int, m2: int)
    ensures copy == 0 ==> Selects(copy, m1)
    ensures copy != 0 && Selects(copy, m1) && Selects(copy, m2) ==> m1 == m2 == copy
    ensures copy < 0 && m1 >= 1 ==> !Selects(copy, m1)
  {
  }

  /** The loop's exit test after a pass over `mirror`, given the re-queried count. */
  predicate StopsAfter(numCopies: int, mirror: int)
  {
    numCopies == 1 || mirror + 1 > numCopies
  }

  /** The loop goes on after a pass only when the re-queried count exceeds 1
      and the next mirror still lies within it; a count at or below the
      current mirror always stops it. */
  lemma ExitTestKeepsWithinCount(numCopies: int, mirror: int)
    requires mirror >= 1
    ensures !StopsAfter(numCopies, mirror) ==> 2 <= mirror + 1 <= numCopies
    ensures numCopies <= mirror ==> StopsAfter(numCopies, mirror)
  {
  }

  /** Some corrupting pass wrote zeros to `p`. */
  ghost predicate Hit(passes: seq<Pass>, p: Phys)
  {
    exists i :: 0 <= i < |passes| && passes[i].corrupted && passes[i].phys == p
  }

  /** The disk after all passes: every hit location holds `len` zeros, every other
      location is as before. */
  ghost predicate ZeroedExactly(before: Disk, after: Disk, passes: seq<Pass>, len: nat)
  {
    && (forall p :: p in after <==> p in before || Hit(passes, p))
    && (forall p :: p in after ==> after[p] == if Hit(passes, p) then Zeros(len) else before[p])
  }

  /** The passes visit mirrors first, first + 1, ... each mapped by the volume,
      corrupting exactly the selected ones, and continue only while the
      re-queried count says so. */
  ghost predicate WellFormedTrace(v: Volume, logical: u64, copy: int, first: int, o: Outcome)
  {
    && (forall i :: 0 <= i < |o.passes| ==> o.passes[i].mirror == first + i)
    && (forall i :: 0 <= i < |o.passes| ==> v.locate(logical, o.passes[i].mirror) == Some(o.passes[i].phys))
    && (forall i :: 0 <= i < |o.passes| ==> o.passes[i].corrupted == Selects(copy, o.passes[i].mirror))
    && (forall i :: 0 <= i < |o.passes| - 1 ==> !StopsAfter(v.copies(logical, o.passes[i].mirror), o.passes[i].mirror))
  }

  /** How the loop ended: a completed run ends on a pass whose re-queried count
      stops it; an aborted run ends on a mirror the mapping cannot resolve, reached
      because the previous pass (if any) said to go on. */
  ghost predicate EndsProperly(v: Volume, logical: u64, first: int, o: Outcome)
  {
    && (!o.aborted ==>
          |o.passes| >= 1 &&
          StopsAfter(v.copies(logical, first + |o.passes| - 1), first + |o.passes| - 1))
    && (o.aborted ==>
          v.locate(logical, first + |o.passes|) == None &&
          (|o.passes| >= 1 ==> !StopsAfter(v.copies(logical, first + |o.passes| - 1), first + |o.passes| - 1)))
  }

  lemma HitCons(q: Pass, rest: seq<Pass>, p: Phys)
    ensures Hit([q] + rest, p) <==> (q.corrupted && q.phys == p) || Hit(rest, p)
  {
    var all := [q] + rest;
    if q.corrupted && q.phys == p {
      assert all[0] == q;
    }
    if Hit(rest, p) {
      var i :| 0 <= i < |rest| && rest[i].corrupted && rest[i].phys == p;
      assert all[i + 1] == rest[i];
    }
    if Hit(all, p) {
      var i :| 0 <= i < |all| && all[i].corrupted && all[i].phys == p;
      if i > 0 {
        assert rest[i - 1] == all[i];
      }
    }
  }

  /** The loop from mirror `mirror` on (lines 51-82). */
  function Loop(v: Volume, disk: Disk, logical: u64, len: u32, copy: i32, mirror: int): (o: Outcome)
    requires 1 <= mirror <= I32_MAX
    ensures forall i :: 0 <= i < |o.passes| ==> o.passes[i].mirror == mirror + i
    ensures !o.aborted ==> |o.passes| >= 1
    decreases I32_MAX - mirror
  {
    match v.locate(logical, mirror)
    case None => Outcome(disk, [], true)
    case Some(p) =>
      var selected := Selects(copy, mirror);
      var disk' := if selected then disk[p := Zeros(len)] else disk;
      var pass := Pass(mirror, p, selected);
      if StopsAfter(v.copies(logical, mirror), mirror) then
        Outcome(disk', [pass], false)
      else
        var rest := Loop(v, disk', logical, len, copy, mirror + 1);
        Outcome(rest.disk, [pass] + rest.passes, rest.aborted)
  }

  /** Each pass maps its mirror, corrupts it iff the selector picks it, and every
      pass but the last is one after which the re-queried count says to go on. */
  lemma {:induction false} LoopTrace(v: Volume, disk: Disk, logical: u64, len: u32, copy: i32, mirror: int)
    requires 1 <= mirror <= I32_MAX
    ensures WellFormedTrace(v, logical, copy, mirror, Loop(v, disk, logical, len, copy, mirror))
    decreases I32_MAX - mirror
  {
    match v.locate(logical, mirror)
    case None =>
    case Some(p) =>
      var selected := Selects(copy, mirror);
      var disk' := if selected then disk[p := Zeros(len)] else disk;
      var pass := Pass(mirror, p, selected);
      if !StopsAfter(v.copies(logical, mirror), mirror) {
        LoopTrace(v, disk', logical, len, copy, mirror + 1);
        var rest := Loop(v, disk', logical, len, copy, mirror + 1).passes;
        var all := [pass] + rest;
        assert Loop(v, disk, logical, len, copy, mirror).passes == all;
        forall i | 0 <= i < |all|
          ensures v.locate(logical, all[i].mirror) == Some(all[i].phys)
          ensures all[i].corrupted == Selects(copy, all[i].mirror)
          ensures i < |all| - 1 ==> !StopsAfter(v.copies(logical, all[i].mirror), all[i].mirror)
        {
          if i > 0 {
            assert all[i] == rest[i - 1];
          }
        }
      }
  }

  /** A completed run ends on a pass after which the re-queried count stops the
      loop; an aborted run ends on a mirror the mapping cannot resolve. */
  lemma {:induction false} LoopEnds(v: Volume, disk: Disk, logical: u64, len: u32, copy: i32, mirror: int)
    requires 1 <= mirror <= I32_MAX
    ensures EndsProperly(v, logical, mirror, Loop(v, disk, logical, len, copy, mirror))
    decreases I32_MAX - mirror
  {
    match v.locate(logical, mirror)
    case None =>
    case Some(p) =>
      var selected := Selects(copy, mirror);
      var disk' := if selected then disk[p := Zeros(len)] else disk;
      if !StopsAfter(v.copies(logical, mirror), mirror) {
        LoopEnds(v, disk', logical, len, copy, mirror + 1);
        var rest := Loop(v, disk', logical, len, copy, mirror + 1);
        assert mirror + |Loop(v, disk, logical, len, copy, mirror).passes| == mirror + 1 + |rest.passes|;
      }
  }

  /** The disk after the loop: exactly the locations of corrupting passes hold
      `len` zero bytes, every other block is unchanged. */
  lemma {:induction false} LoopZeroes(v: Volume, disk: Disk, logical: u64, len: u32, copy: i32, mirror: int)
    requires 1 <= mirror <= I32_MAX
    ensures var o := Loop(v, disk, logical, len, copy, mirror);
      ZeroedExactly(disk, o.disk, o.passes, len)
    decreases I32_MAX - mirror
  {
    match v.locate(logical, mirror)
    case None =>
    case Some(p) =>
      var selected := Selects(copy, mirror);
      var disk' := if selected then disk[p := Zeros(len)] else disk;
      var pass := Pass(mirror, p, selected);
      if StopsAfter(v.copies(logical, mirror), mirror) {
        forall q ensures Hit([pass], q) <==> selected && q == p {
          HitCons(pass, [], q);
        }
      } else {
        LoopZeroes(v, disk', logical, len, copy, mirror + 1);
        var rest := Loop(v, disk', logical, len, copy, mirror + 1);
        forall q ensures Hit([pass] + rest.passes, q) <==> (selected && q == p) || Hit(rest.passes, q) {
          HitCons(pass, rest.passes, q);
        }
      }
  }

  /** `debug_corrupt_block(root, logical, len, copy)`: the loop from mirror 1.
      Its passes are numbered 1, 2, ... and a run that does not abort makes at
      least one. */
  function CorruptBlock(v: Volume, disk: Disk, logical: u64, len: u32, copy: i32): (o: Outcome)
    ensures forall i :: 0 <= i < |o.passes| ==> o.passes[i].mirror == i + 1
    ensures !o.aborted ==> |o.passes| >= 1
  {
    Loop(v, disk, logical, len, copy, 1)
  }

  /** One call visits mirrors 1, 2, ... in order, each mapped by the volume,
      zeroing the ones the selector picks; it ends by the count test or by a
      failed mapping; and the disk changes at exactly the zeroed locations. */
  lemma CorruptBlockBehaves(v: Volume, disk: Disk, logical: u64, len: u32, copy: i32)
    ensures var o := CorruptBlock(v, disk, logical, len, copy);
      && (forall i :: 0 <= i < |o.passes| ==> o.passes[i].mirror == i + 1)
      && WellFormedTrace(v, logical, copy, 1, o)
      && EndsProperly(v, logical, 1, o)
      && ZeroedExactly(disk, o.disk, o.passes, len)
  {
    LoopTrace(v, disk, logical, len, copy, 1);
    LoopEnds(v, disk, logical, len, copy, 1);
    LoopZeroes(v, disk, logical, len, copy, 1);
  }

  /** A block whose mapping reports a single copy gets exactly one pass, over
      mirror 1, whatever the copy selector. */
  lemma SingleCopyStopsAfterFirstPass(v: Volume, disk: Disk, logical: u64, len: u32, copy: i32)
    requires v.locate(logical, 1).Some?
    requires v.copies(logical, 1) == 1
    ensures var o := CorruptBlock(v, disk, logical, len, copy);
      && !o.aborted
      && o.passes == [Pass(1, v.locate(logical, 1).value, Selects(copy, 1))]
  {
    CorruptBlockBehaves(v, disk, logical, len, copy);
  }

  /** A selector larger than every count the mapping reports names no visited
      mirror, so the disk comes back unchanged. */
  lemma {:induction false} CopyBeyondCountsChangesNothing(v: Volume, disk: Disk, logical: u64, len: u32, copy: i32)
    requires forall m :: 1 <= v.copies(logical, m) < copy
    ensures CorruptBlock(v, disk, logical, len, copy).disk == disk
  {
    CorruptBlockBehaves(v, disk, logical, len, copy);
    var o := CorruptBlock(v, disk, logical, len, copy);
    forall i | 0 <= i < |o.passes|
      ensures !o.passes[i].corrupted
    {
      if i > 0 {
        assert !StopsAfter(v.copies(logical, o.passes[i - 1].mirror), o.passes[i - 1].mirror);
        assert o.passes[i].mirror <= v.copies(logical, o.passes[i - 1].mirror);
      }
    }
    forall q
      ensures !Hit(o.passes, q)
    {
    }
  }

  /** When the mapping gives each mirror its own location and the selector names
      a mirror, the block of that mirror becomes `len` zero bytes and the block of
      every other visited mirror is left exactly as it was (present or absent). */
  lemma {:induction false} OnlySelectedMirrorChanges(v: Volume, disk: Disk, logical: u64, len: u32, copy: i32)
    requires copy >= 1
    requires forall m1, m2 :: 1 <= m1 < m2 && v.locate(logical, m1).Some? ==> v.locate(logical, m1) != v.locate(logical, m2)
    ensures var o := CorruptBlock(v, disk, logical, len, copy);
      forall i :: 0 <= i < |o.passes| && o.passes[i].mirror == copy ==>
        o.passes[i].phys in o.disk && o.disk[o.passes[i].phys] == Zeros(len)
    ensures var o := CorruptBlock(v, disk, logical, len, copy);
      forall i :: 0 <= i < |o.passes| && o.passes[i].mirror != copy ==>
        && (o.passes[i].phys in o.disk <==> o.passes[i].phys in disk)
        && (o.passes[i].phys in disk ==> o.disk[o.passes[i].phys] == disk[o.passes[i].phys])
  {
    CorruptBlockBehaves(v, disk, logical, len, copy);
    var o := CorruptBlock(v, disk, logical, len, copy);
    forall i | 0 <= i < |o.passes| && o.passes[i].mirror == copy
      ensures o.passes[i].phys in o.disk && o.disk[o.passes[i].phys] == Zeros(len)
    {
      assert o.passes[i].corrupted;
      assert Hit(o.passes, o.passes[i].phys);
    }
    forall i | 0 <= i < |o.passes| && o.passes[i].mirror != copy
      ensures !Hit(o.passes, o.passes[i].phys)
    {
    }
  }

  /** With a steady count of n mirrors, all of them mapped, the loop visits
      mirrors 1..n once each in order, and with copy 0 zeroes every one of them. */
  lemma {:induction false} SteadyCountVisitsEveryMirror(v: Volume, disk: Disk, logical: u64, len: u32, copy: i32, n: i32)
    requires n >= 1
    requires forall m :: v.copies(logical, m) == n
    requires forall m :: 1 <= m <= n ==> v.locate(logical, m).Some?
    ensures var o := CorruptBlock(v, disk, logical, len, copy);
      && !o.aborted
      && |o.passes| == n
      && (forall i :: 0 <= i < n ==> o.passes[i].mirror == i + 1)
      && (copy == 0 ==> forall i :: 0 <= i < n ==> o.passes[i].phys in o.disk && o.disk[o.passes[i].phys] == Zeros(len))
  {
    CorruptBlockBehaves(v, disk, logical, len, copy);
    var o := CorruptBlock(v, disk, logical, len, copy);
    var k := |o.passes|;
    if o.aborted {
      assert false;
    }
    assert StopsAfter(n, k);
    if k >= 2 {
      assert !StopsAfter(n, o.passes[k - 2].mirror);
    }
    assert k == n;
    if copy == 0 {
      forall i | 0 <= i < n
        ensures o.disk[o.passes[i].phys] == Zeros(len)
      {
        assert o.passes[i].corrupted;
        assert Hit(o.passes, o.passes[i].phys);
      }
    }
  }

  /** `o`'s passes preceded by the passes already done. */
  function Prepend(done: seq<Pass>, o: Outcome): Outcome
  {
    Outcome(o.disk, done + o.passes, o.aborted)
  }

  /** One turn of the loop, after the passes `done`: a failed mapping ends the
      run, otherwise the pass is recorded and the run ends or goes on with the
      next mirror as the re-queried count says. */
  lemma LoopStep(v: Volume, disk: Disk, logical: u64, len: u32, copy: i32, mirror: int, done: seq<Pass>)
    requires 1 <= mirror <= I32_MAX
    ensures v.locate(logical, mirror).None? ==>
      Prepend(done, Loop(v, disk, logical, len, copy, mirror)) == Outcome(disk, done, true)
    ensures v.locate(logical, mirror).Some? ==>
      var p := v.locate(logical, mirror).value;
      var selected := copy == 0 || mirror == copy;
      var disk' := if selected then disk[p := Zeros(len)] else disk;
      var pass := Pass(mirror, p, selected);
      var numCopies := v.copies(logical, mirror);
      && (numCopies == 1 || mirror + 1 > numCopies ==>
            Prepend(done, Loop(v, disk, logical, len, copy, mirror)) == Outcome(disk', done + [pass], false))
      && (!(numCopies == 1 || mirror + 1 > numCopies) ==>
            Prepend(done, Loop(v, disk, logical, len, copy, mirror))
            == Prepend(done + [pass], Loop(v, disk', logical, len, copy, mirror + 1)))
  {
    if v.locate(logical, mirror).None? {
      assert done + [] == done;
    } else if !StopsAfter(v.copies(logical, mirror), mirror) {
      var p := v.locate(logical, mirror).value;
      var disk' := if Selects(copy, mirror) then disk[p := Zeros(len)] else disk;
      var pass := Pass(mirror, p, Selects(copy, mirror));
      var next := Loop(v, disk', logical, len, copy, mirror + 1);
      assert done + ([pass] + next.passes) == (done + [pass]) + next.passes;
    }
  }

  /** The loop of lines 44-82 as written: an unbounded loop that re-queries the
      number of copies after every pass and leaves by one of its two breaks, or
      by the abort of a failed mapping. It computes exactly CorruptBlock. */
  method DebugCorruptBlock(v: Volume, disk0: Disk, logical: u64, len: u32, copy: i32)
    returns (disk: Disk, passes: seq<Pass>, aborted: bool)
    ensures Outcome(disk, passes, aborted) == CorruptBlock(v, disk0, logical, len, copy)
  {
    disk, passes, aborted := disk0, [], false;
    var mirror := 1;
    ghost var total := Loop(v, disk0, logical, len, copy, 1);
    assert [] + total.passes == total.passes;
    while true
      invariant 1 <= mirror <= I32_MAX
      invariant total == Prepend(passes, Loop(v, disk, logical, len, copy, mirror))
      decreases I32_MAX - mirror
    {
      LoopStep(v, disk, logical, len, copy, mirror, passes);
      var location := v.locate(logical, mirror);
      if location.None? {
        aborted := true;
        return;
      }
      var selected := copy == 0 || mirror == copy;
      if selected {
        disk := disk[location.value := Zeros(len)];
      }
      var pass := Pass(mirror, location.value, selected);
      var numCopies := v.copies(logical, mirror);
      passes := passes + [pass];
      if numCopies == 1 {
        return;
      }
      mirror := mirror + 1;
      if mirror > numCopies {
        return;
      }
    }
  }
}
