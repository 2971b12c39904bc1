/**
 The range driver at the end of `main`: round the byte count up to a whole
 number of sectors, then corrupt one sector-sized block after another at
 consecutive logical addresses, each through the mirror loop.

 `bytes` and `logical` are C `u64` variables and `sectorsize` a `u32`; the
 additions wrap modulo 2^64 and are written out as such. A failed mapping
 aborts the process inside the mirror loop, so the range ends there too.
 */
module RangeDriver {
  import opened Base
  import opened MirrorCorrupt

  /** `(bytes + sectorsize - 1) / sectorsize` of line 247, in u64 arithmetic:
      the number of sectors the loop of lines 250-255 runs for. The sum wraps
      modulo 2^64 when it overflows. */
  function SectorsAsWritten(bytes: u64, sectorsize: u32): (n: nat)
    requires sectorsize > 0
    ensures n * sectorsize <= (bytes + sectorsize - 1) % U64_LIMIT
  {
    var sum := (bytes + sectorsize - 1) % U64_LIMIT;
    QuotientBelow(sum, sectorsize);
    sum / sectorsize
  }

  lemma QuotientBelow(x: nat, d: nat)
    requires d > 0
    ensures (x / d) * d <= x
  {
    assert x == (x / d) * d + x % d;
  }

  /** Line 248: the count back in bytes. It is the wrapped sum of line 247
      rounded down to a whole number of sectors, so it fits in a u64. */
  function RoundUp(bytes: u64, sectorsize: u32): (r: u64)
    requires sectorsize > 0
    ensures r % sectorsize == 0
    ensures r <= (bytes + sectorsize - 1) % U64_LIMIT < r + sectorsize
  {
    var sum := (bytes + sectorsize - 1) % U64_LIMIT;
    RoundedDownWithinOne(sum, sectorsize);
    var k := SectorsAsWritten(bytes, sectorsize);
    ProductIsMultiple(k, sectorsize);
    k * sectorsize
  }

  /** Rounding down to a multiple of `d` loses less than `d`. */
  lemma RoundedDownWithinOne(x: nat, d: nat)
    requires d > 0
    ensures (x / d) * d <= x < (x / d) * d + d
  {
    assert x == (x / d) * d + x % d;
  }

  /** A product with `d` leaves no remainder modulo `d`. */
  lemma ProductIsMultiple(k: nat, d: nat)
    requires d > 0
    ensures (k * d) % d == 0
  {
    QuotientIs(k * d, d, k);
    assert (k + 1) * d == k * d + d;
    assert k * d == (k * d / d) * d + (k * d) % d;
  }

  /** When the sum does not wrap, the rounding gives the smallest multiple of
      the sector size that is at least `bytes`. */
  lemma RoundUpIsLeastMultiple(bytes: u64, sectorsize: u32)
    requires sectorsize > 0
    requires bytes + sectorsize - 1 < U64_LIMIT
    ensures RoundUp(bytes, sectorsize) % sectorsize == 0
    ensures RoundUp(bytes, sectorsize) >= bytes
    ensures RoundUp(bytes, sectorsize) - sectorsize < bytes
  {
    var sum := bytes + sectorsize - 1;
    assert sum == (sum / sectorsize) * sectorsize + sum % sectorsize;
  }

  /** Lines 244-248: the sectors the driver processes, a zero count having
      been replaced by one sector first. A zero count gives one sector, and
      the count in bytes always fits in a u64. */
  function AsWrittenBlockCount(bytes: u64, sectorsize: u32): (n: nat)
    requires sectorsize > 0
    ensures bytes == 0 ==> n == 1
    ensures n * sectorsize < U64_LIMIT
  {
    if bytes == 0 then
      var sum := sectorsize + sectorsize - 1;
      assert sum == (sum / sectorsize) * sectorsize + sum % sectorsize;
      QuotientIs(sum, sectorsize, 1);
      SectorsAsWritten(sectorsize, sectorsize)
    else SectorsAsWritten(bytes, sectorsize)
  }

  /** The quotient is the one multiple that fits below `x` with less than one
      divisor to spare. */
  lemma QuotientIs(x: nat, d: nat, q: nat)
    requires d > 0
    requires q * d <= x < (q + 1) * d
    ensures x / d == q
  {
    var r := x / d;
    assert x == r * d + x % d;
    if r < q {
      MulMonotone(r + 1, q, d);
    } else if q < r {
      MulMonotone(q + 1, r, d);
    }
  }

  /** The evident intent: the number of sectors that cover `bytes` bytes
      (one sector for a zero count), computed without a wrapping sum. */
  function BlockCount(bytes: u64, sectorsize: u32): (n: nat)
    requires sectorsize > 0
    ensures bytes > 0 ==> n * sectorsize >= bytes && (n - 1) * sectorsize < bytes
    ensures bytes == 0 ==> n == 1
  {
    if bytes == 0 then 1
    else
      var q := bytes / sectorsize;
      assert bytes == q * sectorsize + bytes % sectorsize;
      assert (q + 1) * sectorsize == q * sectorsize + sectorsize;
      assert (q - 1) * sectorsize == q * sectorsize - sectorsize;
      if bytes % sectorsize == 0 then q else q + 1
  }

  lemma MulMonotone(a: int, b: int, d: nat)
    requires a <= b
    ensures a * d <= b * d
  {
    assert b * d == a * d + (b - a) * d;
  }

  /** At most one count of sectors covers `bytes` without a spare sector. */
  lemma LeastCoverUnique(bytes: nat, sectorsize: nat, k: nat, n: nat)
    requires k * sectorsize >= bytes && (k - 1) * sectorsize < bytes
    requires n * sectorsize >= bytes && (n - 1) * sectorsize < bytes
    ensures k == n
  {
    if k < n {
      MulMonotone(k, n - 1, sectorsize);
    } else if n < k {
      MulMonotone(n, k - 1, sectorsize);
    }
  }

  /** The driver as written and as intended agree on every count whose
      rounding does not wrap. */
  lemma AsWrittenCountMatchesWhenNoWrap(bytes: u64, sectorsize: u32)
    requires sectorsize > 0
    requires bytes + sectorsize - 1 < U64_LIMIT
    ensures AsWrittenBlockCount(bytes, sectorsize) == BlockCount(bytes, sectorsize)
  {
    var b: u64 := if bytes == 0 then sectorsize else bytes;
    RoundUpIsLeastMultiple(b, sectorsize);
    var k := SectorsAsWritten(b, sectorsize);
    assert (k - 1) * sectorsize == k * sectorsize - sectorsize;
    LeastCoverUnique(b, sectorsize, k, BlockCount(b, sectorsize));
  }

  /** A count of 2^64 - 1 bytes (what `--bytes -1` parses to) wraps the
      rounding sum to 4094, so the as-written driver processes no block at
      all, where 2^52 sectors were meant. */
  lemma AsWrittenCountWrapsToZero()
    ensures AsWrittenBlockCount(U64_MAX, 4096) == 0
    ensures BlockCount(U64_MAX, 4096) == 0x10_0000_0000_0000
  {
  }

  /** What the driver leaves behind: the disk, the logical address of every
      block it handed to the mirror loop, and whether that loop aborted. */
  datatype RangeOutcome = RangeOutcome(disk: Disk, blocks: seq<u64>, aborted: bool)

  /** What is done to one block: the mirror loop, seen as a function of the
      disk before it and the block's logical address. */
  type BlockStep = (Disk, u64) -> Outcome

  /** The mirror loop over one sector-sized block with the given selector. */
  function MirrorStep(v: Volume, sectorsize: u32, copy: i32): BlockStep
  {
    (disk: Disk, logical: u64) => CorruptBlock(v, disk, logical, sectorsize, copy)
  }

  /** `count` blocks of `sectorsize` bytes from `logical` on, each through
      `step`, stopping at the first abort. */
  function Blocks(step: BlockStep, disk: Disk, logical: u64, sectorsize: u32, count: nat): (r: RangeOutcome)
    ensures |r.blocks| <= count
    ensures !r.aborted ==> |r.blocks| == count
    decreases count
  {
    if count == 0 then RangeOutcome(disk, [], false)
    else
      var o := step(disk, logical);
      if o.aborted then RangeOutcome(o.disk, [logical], true)
      else
        var rest := Blocks(step, o.disk, AddU64(logical, sectorsize), sectorsize, count - 1);
        RangeOutcome(rest.disk, [logical] + rest.blocks, rest.aborted)
  }

  /** Lines 250-255: the range through the mirror loop (line 251) over one
      sector-sized block at a time. Unless a block aborts, every one of the
      `count` blocks is handed over, each one sector past the one before. */
  function CorruptBlocks(v: Volume, disk: Disk, logical: u64, sectorsize: u32, copy: i32, count: nat): (r: RangeOutcome)
    ensures !r.aborted ==> |r.blocks| == count
    ensures forall i :: 0 <= i < |r.blocks| ==> r.blocks[i] == Address(logical, i, sectorsize)
  {
    BlocksAreConsecutive(MirrorStep(v, sectorsize, copy), disk, logical, sectorsize, count);
    Blocks(MirrorStep(v, sectorsize, copy), disk, logical, sectorsize, count)
  }

  /** Wrapping once and then adding wraps like adding and then wrapping. */
  lemma AddWraps(a: nat, b: nat)
    ensures (a % U64_LIMIT + b) % U64_LIMIT == (a + b) % U64_LIMIT
  {
    var q := a / U64_LIMIT;
    assert a == q * U64_LIMIT + a % U64_LIMIT;
    var x := a % U64_LIMIT + b;
    assert x == (x / U64_LIMIT) * U64_LIMIT + x % U64_LIMIT;
    assert a + b == (q + x / U64_LIMIT) * U64_LIMIT + x % U64_LIMIT;
  }

  /** The logical address of the i-th block of a range from `logical`. */
  function Address(logical: u64, i: nat, sectorsize: u32): u64
  {
    (logical + i * sectorsize) % U64_LIMIT
  }

  /** The range from the next address is the range from `logical` shifted by
      one block. */
  lemma AddressStep(logical: u64, i: nat, sectorsize: u32)
    ensures Address(AddU64(logical, sectorsize), i, sectorsize) == Address(logical, i + 1, sectorsize)
  {
    AddWraps(logical + sectorsize, i * sectorsize);
    assert i * sectorsize + sectorsize == (i + 1) * sectorsize;
  }

  /** The i-th block handed to the step lies at `logical + i * sectorsize`
      modulo 2^64. */
  lemma {:induction false} BlocksAreConsecutive(step: BlockStep, disk: Disk, logical: u64, sectorsize: u32, count: nat)
    ensures var r := Blocks(step, disk, logical, sectorsize, count);
      forall i :: 0 <= i < |r.blocks| ==> r.blocks[i] == Address(logical, i, sectorsize)
    decreases count
  {
    if count > 0 {
      var o := step(disk, logical);
      if !o.aborted {
        var next := AddU64(logical, sectorsize);
        BlocksAreConsecutive(step, o.disk, next, sectorsize, count - 1);
        var rest := Blocks(step, o.disk, next, sectorsize, count - 1);
        var r := Blocks(step, disk, logical, sectorsize, count);
        forall i | 1 <= i < |r.blocks|
          ensures r.blocks[i] == Address(logical, i, sectorsize)
        {
          assert r.blocks[i] == rest.blocks[i - 1];
          AddressStep(logical, i - 1, sectorsize);
        }
      }
    }
  }

  /** The disk the step over the i-th block starts from. */
  function DiskBefore(step: BlockStep, disk: Disk, logical: u64, sectorsize: u32, i: nat): Disk
    decreases i
  {
    if i == 0 then disk
    else DiskBefore(step, step(disk, logical).disk, AddU64(logical, sectorsize), sectorsize, i - 1)
  }

  /** A range stops early only at an abort: the step over its last block
      aborted. */
  lemma {:induction false} RangeStopsAtAbort(step: BlockStep, disk: Disk, logical: u64, sectorsize: u32, count: nat)
    ensures var r := Blocks(step, disk, logical, sectorsize, count);
      r.aborted ==>
        && |r.blocks| > 0
        && step(DiskBefore(step, disk, logical, sectorsize, |r.blocks| - 1), r.blocks[|r.blocks| - 1]).aborted
    decreases count
  {
    if count > 0 {
      var o := step(disk, logical);
      if !o.aborted {
        var next := AddU64(logical, sectorsize);
        RangeStopsAtAbort(step, o.disk, next, sectorsize, count - 1);
        var rest := Blocks(step, o.disk, next, sectorsize, count - 1);
        var r := Blocks(step, disk, logical, sectorsize, count);
        if r.aborted {
          assert r.blocks[|r.blocks| - 1] == rest.blocks[|rest.blocks| - 1];
        }
      }
    }
  }

  /** A range whose every step leaves the disk alone leaves it alone. */
  lemma {:induction false} UnchangedBlocksLeaveDisk(step: BlockStep, disk: Disk, logical: u64, sectorsize: u32, count: nat)
    requires forall d, a :: step(d, a).disk == d
    ensures Blocks(step, disk, logical, sectorsize, count).disk == disk
    decreases count
  {
    if count > 0 && !step(disk, logical).aborted {
      UnchangedBlocksLeaveDisk(step, disk, AddU64(logical, sectorsize), sectorsize, count - 1);
    }
  }

  /** A selector above every count the mapping reports leaves the whole range
      unchanged. */
  lemma CopyBeyondCountsChangesNoBlock(v: Volume, disk: Disk, logical: u64, sectorsize: u32, copy: i32, count: nat)
    requires forall a, m :: 1 <= v.copies(a, m) < copy
    ensures CorruptBlocks(v, disk, logical, sectorsize, copy, count).disk == disk
  {
    var step := MirrorStep(v, sectorsize, copy);
    forall d, a
      ensures step(d, a).disk == d
    {
      CopyBeyondCountsChangesNothing(v, d, a, sectorsize, copy);
    }
    UnchangedBlocksLeaveDisk(step, disk, logical, sectorsize, count);
  }

  /** `left` sectors in bytes, counted one sector at a time as the loop of
      CorruptRange takes them off. */
  function SectorBytes(left: nat, sectorsize: nat): nat
  {
    if left == 0 then 0 else sectorsize + SectorBytes(left - 1, sectorsize)
  }

  lemma {:induction false} SectorBytesIsProduct(left: nat, sectorsize: nat)
    ensures SectorBytes(left, sectorsize) == left * sectorsize
  {
    if left > 0 {
      SectorBytesIsProduct(left - 1, sectorsize);
      assert (left - 1) * sectorsize + sectorsize == left * sectorsize;
    }
  }

  /** `r`'s blocks preceded by the blocks already done. */
  function PrependBlocks(done: seq<u64>, r: RangeOutcome): RangeOutcome
  {
    RangeOutcome(r.disk, done + r.blocks, r.aborted)
  }

  /** The loop of CorruptRange after one block: either that block aborted and
      the range is over, or the rest of the range starts at the next address
      from the disk that block left behind. */
  lemma RangeAdvances(total: RangeOutcome, done: seq<u64>, step: BlockStep, disk: Disk, logical: u64, sectorsize: u32, left: nat)
    requires left > 0
    requires total == PrependBlocks(done, Blocks(step, disk, logical, sectorsize, left))
    ensures var o := step(disk, logical);
      && (o.aborted ==> total == RangeOutcome(o.disk, done + [logical], true))
      && (!o.aborted ==> total == PrependBlocks(done + [logical],
            Blocks(step, o.disk, AddU64(logical, sectorsize), sectorsize, left - 1)))
  {
    var o := step(disk, logical);
    if !o.aborted {
      var next := Blocks(step, o.disk, AddU64(logical, sectorsize), sectorsize, left - 1);
      assert done + ([logical] + next.blocks) == (done + [logical]) + next.blocks;
    }
  }

  /** Lines 244-255 as written: the count rounded in wrapping u64 arithmetic,
      then one mirror loop per sector, the address advancing and the count
      shrinking by one sector each time. It computes CorruptBlocks over the
      as-written block count. */
  method CorruptRange(v: Volume, disk0: Disk, logical0: u64, bytes0: u64, sectorsize: u32, copy: i32)
    returns (disk: Disk, blocks: seq<u64>, aborted: bool)
    requires sectorsize > 0
    ensures RangeOutcome(disk, blocks, aborted)
         == CorruptBlocks(v, disk0, logical0, sectorsize, copy, AsWrittenBlockCount(bytes0, sectorsize))
  {
    var bytes: u64 := bytes0;
    if bytes == 0 {
      bytes := sectorsize;
    }
    bytes := RoundUp(bytes, sectorsize);
    var logical := logical0;
    disk, blocks, aborted := disk0, [], false;
    ghost var left := AsWrittenBlockCount(bytes0, sectorsize);
    ghost var step := MirrorStep(v, sectorsize, copy);
    ghost var total := CorruptBlocks(v, disk0, logical0, sectorsize, copy, left);
    assert total == Blocks(step, disk0, logical0, sectorsize, left);
    assert blocks + total.blocks == total.blocks;
    SectorBytesIsProduct(left, sectorsize);
    while bytes > 0
      invariant bytes == SectorBytes(left, sectorsize)
      invariant total == PrependBlocks(blocks, Blocks(step, disk, logical, sectorsize, left))
      decreases left
    {
      RangeAdvances(total, blocks, step, disk, logical, sectorsize, left);
      var passes;
      disk, passes, aborted := DebugCorruptBlock(v, disk, logical, sectorsize, copy);
      blocks := blocks + [logical];
      if aborted {
        assert RangeOutcome(disk, blocks, aborted) == total;
        return;
      }
      logical := AddU64(logical, sectorsize);
      bytes := bytes - sectorsize;
      left := left - 1;
    }
    assert left == 0;
    assert blocks + [] == blocks;
    assert RangeOutcome(disk, blocks, aborted) == total;
  }

  /** The corrected driver: the blocks that cover `bytes`, whatever its size.
      A range that does not abort visits enough sectors to cover every byte,
      and not one more. */
  function CorruptRangeFixed(v: Volume, disk: Disk, logical: u64, bytes: u64, sectorsize: u32, copy: i32): (r: RangeOutcome)
    requires sectorsize > 0
    ensures !r.aborted && bytes > 0 ==>
      |r.blocks| * sectorsize >= bytes && (|r.blocks| - 1) * sectorsize < bytes
  {
    CorruptBlocks(v, disk, logical, sectorsize, copy, BlockCount(bytes, sectorsize))
  }
}
