# btrfs-corrupt-block, modelled in Dafny

`btrfs-corrupt-block` is an offline btrfs debugging tool. It deliberately damages
metadata so that repair and recovery paths can be exercised. This project models
its three core pieces as pure functions over explicit state and proves what they
do:

- **The mirror loop** of `debug_corrupt_block` (module `MirrorCorrupt`, file
  `mirror.dfy`). For one logical block it walks mirrors 1, 2, … . It maps each
  mirror to a physical location and overwrites the block with zeros when the copy
  selector (`0` = every mirror) picks that mirror. After every pass it re-queries
  the number of copies to decide whether to continue.
- **The extent-record scan** of `corrupt_extent` (modules `ExtentKeys`,
  `ExtentLeaf` and `ExtentCorrupt`). Starting at the last possible key of a block
  address, it repeatedly searches for the nearest record at or below the search
  key. It zeroes the payload of every extent-reference record it lands on,
  lowers the offset of the key it found by one, and searches again.
- **The range driver** at the end of `main` (module `RangeDriver`). It rounds the
  byte count up to whole sectors and hands one sector-sized block after another
  to the mirror loop.

The environment enters as parameters:
- `Volume.locate` is the mapping layer's first stripe for a mirror, or None when
  mapping fails. `Volume.copies` is the copy count it reports after each pass.
- `Disk` maps physical locations to block contents.
- `fault(n)` says whether the n-th tree search returns an error.
- The extent tree is one leaf of records whose keys are kept in
  (objectid, type, offset) order.

Two behaviours of the scan that are easy to misread:
- The offsets it searches for do not strictly decrease. The next search key
  takes the type as well as the offset of the record found. So when the scan
  moves down to a lower record type, the offset can jump up. What strictly
  decreases is the search key in key order (`ExtentCorrupt.WalkSearchesDescend`).
  On a sorted leaf the scan moves down exactly one slot per step
  (`ExtentCorrupt.WalkVisitsAdjacent`).
- The scan ends as soon as the lowered offset is 0, that is, right after it
  processes a record at offset 1 or 0 (`ExtentCorrupt.DecrementOffset`).

## Model

| member | source | states |
|---|---|---|
| `Base.AddU64` | btrfs-corrupt-block.c:253 | the u64 address advance equals the sum modulo 2^64; it is the plain sum when that fits and the sum less 2^64 otherwise |
| `Base.Zeros` | btrfs-corrupt-block.c:69 | the overwrite pattern has exactly the requested length and every byte is zero |
| `Base.ZerosUnique` | btrfs-corrupt-block.c:69 | any all-zero byte string is the zero pattern of its length, so "zeroed" has one meaning |
| `MirrorCorrupt.SelectorPicksOneOrAll` | btrfs-corrupt-block.c:65 | selector 0 picks every mirror; any other selector picks at most the one mirror with its own number, so a negative selector picks none of the visited mirrors |
| `MirrorCorrupt.ExitTestKeepsWithinCount` | btrfs-corrupt-block.c:74-81 | the loop continues after a pass only when the re-queried count exceeds 1 and the next mirror lies within it; a count at or below the current mirror always stops it |
| `MirrorCorrupt.Loop` | btrfs-corrupt-block.c:51-82 | the passes number the mirrors consecutively from the starting mirror; a run that does not abort makes at least one pass |
| `MirrorCorrupt.LoopTrace` | btrfs-corrupt-block.c:51-81 | every pass maps its mirror through the volume and corrupts exactly when the selector picks it; every pass but the last is followed by a count that says to continue |
| `MirrorCorrupt.LoopEnds` | btrfs-corrupt-block.c:52-54 | a completed loop ends on a pass whose re-queried count stops it (a count of 1 or a mirror past the count); an aborted loop ends on a mirror that cannot be mapped, reached because the previous count said to continue |
| `MirrorCorrupt.LoopZeroes` | btrfs-corrupt-block.c:65-72 | afterwards exactly the locations of corrupting passes hold `len` zero bytes; every other location keeps its contents and no other location appears |
| `MirrorCorrupt.CorruptBlock` | btrfs-corrupt-block.c:35-84 | one call's passes are numbered 1, 2, … from mirror 1, and a call that does not abort makes at least one pass |
| `MirrorCorrupt.CorruptBlockBehaves` | btrfs-corrupt-block.c:44-82 | one call visits mirrors 1, 2, … in order, zeroes the selected ones, ends by the count test or a failed mapping, and changes the disk exactly at the zeroed locations |
| `MirrorCorrupt.SingleCopyStopsAfterFirstPass` | btrfs-corrupt-block.c:74-77 | when the count after mirror 1 is 1 there is exactly one pass, over mirror 1, whatever the selector |
| `MirrorCorrupt.CopyBeyondCountsChangesNothing` | btrfs-corrupt-block.c:65-81 | a selector above every count the mapping reports is never reached, so the disk is unchanged |
| `MirrorCorrupt.OnlySelectedMirrorChanges` | btrfs-corrupt-block.c:65-72 | with distinct locations per mirror and a positive selector, the selected mirror's block holds zeros afterwards, whether or not it was present before; every other visited location stays exactly as it was, present or absent |
| `MirrorCorrupt.SteadyCountVisitsEveryMirror` | btrfs-corrupt-block.c:74-81 | with a steady count n and every mirror mappable, the loop makes exactly n passes over mirrors 1..n, and with selector 0 all n blocks end up zero |
| `MirrorCorrupt.LoopStep` | btrfs-corrupt-block.c:51-81 | one turn of the loop: a failed mapping ends the run with the passes so far; otherwise the pass is recorded, and the run ends or continues with the next mirror from the updated disk, as the count test says |
| `MirrorCorrupt.DebugCorruptBlock` | btrfs-corrupt-block.c:44-82 | the imperative loop with its two breaks and the mapping abort computes exactly the functional model `CorruptBlock` |
| `ExtentKeys.LtIsLexicographic` | btrfs-corrupt-block.c:118-120 | the key order compares objectid, then type, then offset; two keys share a position only when they are equal |
| `ExtentKeys.RankBands` | btrfs-corrupt-block.c:118-120 | the keys of one object take up a band of positions in the order of their own, below every key of a larger object |
| `ExtentKeys.RefTypeFilter` | btrfs-corrupt-block.c:139-145 | the scan's chain of six inequalities accepts a record type exactly when it is one of the six reference types (168, 176, 178, 180, 182, 184) |
| `ExtentLeaf.SearchFrom` | btrfs-corrupt-block.c:123-124 | the search from a slot answers an exact slot holding the key, or an insertion slot whose predecessor (if past the start) holds a smaller key |
| `ExtentLeaf.SearchSlot` | btrfs-corrupt-block.c:123-124 | the search answers 0 with a slot holding the key, or a positive value with an insertion slot whose predecessor holds a smaller key |
| `ExtentLeaf.SearchFromFinds` | btrfs-corrupt-block.c:123-124 | on a sorted leaf, searching past smaller keys finds the key when present and otherwise the slot separating the smaller keys from the larger ones |
| `ExtentLeaf.SearchSlotFinds` | btrfs-corrupt-block.c:123-124 | on a sorted leaf the search is exact if and only if the key is present; otherwise every key before the insertion slot is smaller and every key from it on is larger |
| `ExtentLeaf.Landing` | btrfs-corrupt-block.c:128-134 | the slot the scan lands on holds a key at or below the search key |
| `ExtentLeaf.LandingIsNearestBelow` | btrfs-corrupt-block.c:128-134 | on a sorted leaf every record after the landing slot lies above the search key, and no landing means every record lies above it |
| `ExtentCorrupt.StartKey` | btrfs-corrupt-block.c:118-120 | the starting key lies at or above every key of the block address |
| `ExtentCorrupt.DecrementOffset` | btrfs-corrupt-block.c:157-160 | the scan continues exactly when the found offset exceeds 1; the next key keeps objectid and type and has the offset one lower |
| `ExtentCorrupt.PredecessorKey` | btrfs-corrupt-block.c:157-160 | the corrected stepping rule gives a strictly smaller key of the same object |
| `ExtentCorrupt.PredecessorIsGreatestBelow` | btrfs-corrupt-block.c:157-160 | no key of the same object lies strictly between the predecessor and the found key; without a predecessor the found key is the object's least |
| `ExtentCorrupt.Advance` | btrfs-corrupt-block.c:157-160 | under either stepping rule the next search key belongs to the same object and lies strictly below the record found |
| `ExtentCorrupt.ZeroPayload` | btrfs-corrupt-block.c:150-152 | the record's payload becomes zeros of the same size; all keys and every other record are untouched |
| `ExtentCorrupt.Scan` | btrfs-corrupt-block.c:122-161 | the scan never changes a key, and every slot it reports processing exists |
| `ExtentCorrupt.ScanZeroesExactly` | btrfs-corrupt-block.c:139-153 | a record's payload becomes zeros exactly when the scan processed it and its type is a reference kind; every other record stays as it was |
| `ExtentCorrupt.Walk` | btrfs-corrupt-block.c:122-161 | every slot the key-level walk processes exists in the leaf |
| `ExtentCorrupt.ScanFollowsWalk` | btrfs-corrupt-block.c:122-161 | zeroing payloads never alters the scan's control flow: its processed slots, search keys and stop reason are those of the key-level walk |
| `ExtentCorrupt.WalkSearchCount` | btrfs-corrupt-block.c:122-135 | there is one search per processed record plus the final one unless the stepping rule ran out, and the first search is for the starting key |
| `ExtentCorrupt.WalkSearchesSucceed` | btrfs-corrupt-block.c:123-126 | every search that led to a processed record returned no error |
| `ExtentCorrupt.WalkLandsOnVisited` | btrfs-corrupt-block.c:128-137 | the j-th search landed on the j-th processed record, and that record belongs to the scanned block |
| `ExtentCorrupt.WalkChains` | btrfs-corrupt-block.c:133-160 | each search key after the first is what the stepping rule made of the record processed before it |
| `ExtentCorrupt.WalkRunsOut` | btrfs-corrupt-block.c:157-160 | a scan that ran out of keys did so at its last processed record |
| `ExtentCorrupt.WalkEndsOnFault` | btrfs-corrupt-block.c:123-126 | the scan reports a search error exactly when the search after the last processed record failed |
| `ExtentCorrupt.WalkEndsOnLanding` | btrfs-corrupt-block.c:128-137 | a scan that ended on a successful search ended because it landed before slot 0 or on a record of another object |
| `ExtentCorrupt.WalkStops` | btrfs-corrupt-block.c:122-161 | every scan ends for the reason it reports, after one search per processed record plus the final one |
| `ExtentCorrupt.WalkSearchesDescend` | btrfs-corrupt-block.c:133-160 | the search keys strictly decrease in key order, which is why the scan terminates |
| `ExtentCorrupt.WalkVisitsDescend` | btrfs-corrupt-block.c:128-135 | on a sorted leaf the processed slots strictly decrease, so no record is processed twice |
| `ExtentCorrupt.WalkVisitsAdjacent` | btrfs-corrupt-block.c:128-160 | as written, on a sorted leaf each search after a processed record lands on the slot just before it, so the scan moves down one record at a time |
| `ExtentCorrupt.WalkStartsAtLastRecord` | btrfs-corrupt-block.c:118-137 | on a sorted leaf the first processed record is the last record of the block: every later record belongs to a larger object |
| `ExtentCorrupt.WalkReachesBlock` | btrfs-corrupt-block.c:118-137 | when the first search succeeds and a sorted leaf holds a record of the block, the scan processes at least one record |
| `ExtentCorrupt.OffsetSteppingTrace` | btrfs-corrupt-block.c:157-160 | as written, each next search key is the processed record with its offset one lower, which needs an offset above 1; the scan runs out of keys exactly at a record with offset 0 or 1 |
| `ExtentCorrupt.CorruptExtent` | btrfs-corrupt-block.c:104-168 | keys and sizes never change, and the only records that change are reference records of the scanned block, whose payloads become zeros |
| `ExtentCorrupt.AsWrittenZeroesBothReferences` | btrfs-corrupt-block.c:122-161 | with references of block 8192 at offsets 10 and 3, both payloads become zeros and the keys stay |
| `ExtentCorrupt.PredecessorWalkCovers` | btrfs-corrupt-block.c:122-161 | with the corrected stepping rule and no search errors, every record of the block at or below the starting key is processed |
| `ExtentCorrupt.FixedScanZeroesEveryReference` | btrfs-corrupt-block.c:139-160 | with the corrected stepping rule and no search errors, a record is zeroed if and only if it is a reference record of the scanned block |
| `ExtentCorrupt.AsWrittenMissesLowerTypes` | btrfs-corrupt-block.c:135-160 | as written, an extent item of block 8192 below a tree-block reference at offset 1 keeps its payload, although it is a reference record of that block |
| `ExtentCorrupt.FixedZeroesLowerTypes` | btrfs-corrupt-block.c:135-160 | with the corrected stepping rule the same leaf loses both payloads |
| `RangeDriver.SectorsAsWritten` | btrfs-corrupt-block.c:247 | the sector count times the sector size never exceeds the wrapped rounding sum |
| `RangeDriver.RoundUp` | btrfs-corrupt-block.c:247-248 | the rounded byte count is a multiple of the sector size lying within one sector below the wrapped sum of line 247, so the multiplication on line 248 never overflows |
| `RangeDriver.AsWrittenBlockCount` | btrfs-corrupt-block.c:244-248 | the number of sectors the driver runs for: one for a zero byte count, and never more than fit in a u64 when multiplied back into bytes |
| `RangeDriver.RoundUpIsLeastMultiple` | btrfs-corrupt-block.c:247-248 | when the rounding sum does not wrap, the rounded count is the least multiple of the sector size that is at least the byte count |
| `RangeDriver.BlockCount` | btrfs-corrupt-block.c:244-248 | the intended count covers every byte with no spare sector, and a zero byte count means one sector |
| `RangeDriver.AsWrittenCountMatchesWhenNoWrap` | btrfs-corrupt-block.c:244-248 | the driver as written processes the intended number of sectors whenever its rounding sum does not wrap |
| `RangeDriver.AsWrittenCountWrapsToZero` | btrfs-corrupt-block.c:247 | 2^64 - 1 bytes on 4096-byte sectors gives 0 sectors as written, where 2^52 are meant |
| `RangeDriver.Blocks` | btrfs-corrupt-block.c:250-255 | the driver hands at most `count` blocks to the mirror loop, and exactly `count` unless one aborted |
| `RangeDriver.AddressStep` | btrfs-corrupt-block.c:253 | advancing the address by one sector and then by i sectors lands where i + 1 sectors from the start land, modulo 2^64 |
| `RangeDriver.CorruptBlocks` | btrfs-corrupt-block.c:250-255 | the range through the mirror loop over one sector-sized block at a time hands over all `count` blocks unless one aborts, each one sector past the one before, modulo 2^64 |
| `RangeDriver.BlocksAreConsecutive` | btrfs-corrupt-block.c:250-255 | the i-th block handed to the mirror loop lies i sectors past the start, modulo 2^64 |
| `RangeDriver.RangeStopsAtAbort` | btrfs-corrupt-block.c:250-255 | a range stops early only because the mirror loop on its last block aborted |
| `RangeDriver.UnchangedBlocksLeaveDisk` | btrfs-corrupt-block.c:250-255 | if no single block changes the disk, the whole range leaves it unchanged |
| `RangeDriver.CopyBeyondCountsChangesNoBlock` | btrfs-corrupt-block.c:250-255 | a selector above every count the mapping reports leaves every block of the range unchanged |
| `RangeDriver.RangeAdvances` | btrfs-corrupt-block.c:250-255 | after one block the range is either over because that block aborted, or continues from the next address with the disk that block left |
| `RangeDriver.CorruptRange` | btrfs-corrupt-block.c:244-255 | the imperative driver, with its wrapping rounding and its per-sector loop, computes exactly `CorruptBlocks` over the as-written sector count |
| `RangeDriver.CorruptRangeFixed` | btrfs-corrupt-block.c:244-255 | the corrected driver, when it does not abort, visits enough sectors to cover every byte and not one more |

## Left out

- Device I/O is left out: reading the block before overwriting it, `fsync`, and
  the per-device `total_ios` counter (lines 57, 66, 71). The write is
  modelled as the disk update; the source ignores the read and write results, so
  the model does too.
- Diagnostic output is not modelled (lines 60-62, 67-68, 147-148).
- `btrfs_find_create_tree_block` returning NULL (lines 46-48) is not modelled.
  This is an allocation failure before any mirror is touched, and it leaves the
  disk unchanged; the model has no allocator.
- The internals of `btrfs_map_block` and `btrfs_num_copies` belong to the volume
  library, which is not part of this model. They are the abstract functions
  `Volume.locate` and `Volume.copies`.
- `BUG_ON` after a failed mapping (line 54) aborts the process. It is modelled
  as an `aborted` outcome that keeps the writes already made.
- The transaction, path allocation and release, commit, and `close_ctree` with
  its `BUG_ON` (lines 115-116, 155, 163-166) are not modelled. The modified
  leaf is what the commit would write.
- The extent tree is modelled as one leaf. Multi-level B-tree search, node
  splits, the key comparator of the ctree code and the marking of dirty buffers
  are not part of this model.
- The `copy` argument of `corrupt_extent` is unused by the source and is dropped.
- Command-line parsing (lines 170-238) is not modelled. This includes the
  uninitialised `extent_rec` flag and the missing `b` in the short-option
  string. The range driver takes its already-parsed arguments as parameters.
- `MirrorCorrupt.Loop` does not model the C `int` overflow of `mirror_num++`
  (line 79) at INT_MAX, which is undefined behaviour in C: the mirror number is
  unbounded and a count of INT_MAX stops the loop after mirror INT_MAX. The
  mapping layer reports small copy counts, so the edge is not reachable on a
  real volume. Likewise `RangeDriver.SectorsAsWritten`, `RangeDriver.RoundUp`
  and `RangeDriver.CorruptRange` require a positive sector size: line 247 does
  not guard against a zero divisor, but a valid filesystem always has a
  positive sector size.
- `MirrorCorrupt.OnlySelectedMirrorChanges` requires that distinct mirrors map
  to distinct locations. When two mirrors share a location the statement does
  not hold; `MirrorCorrupt.CorruptBlockBehaves` covers that case.
- `ExtentCorrupt.Scan` and `ExtentCorrupt.Walk` state only the key-preservation
  and slot-range facts in their own contracts. Their behaviour is stated by
  the Walk* and Scan* lemmas listed above.
- `ExtentLeaf.Landing` states the nearest-below property only on sorted leaves
  (in `ExtentLeaf.LandingIsNearestBelow`), because a tree leaf is always sorted.

## Findings

| source | as written | input that shows it | evidently intended | confidence | as-written member | corrected member |
|---|---|---|---|---|---|---|
| btrfs-corrupt-block.c:135-160 | the next search key is the found key with its offset lowered by one, and the scan stops once that offset reaches 0 | an extent item `(8192, 168, 4096)` below a tree-block back-reference `(8192, 176, 1)`, as a root-tree block has: the reference is zeroed, its offset drops to 0, and the scan ends before the extent item | every reference record of the block is zeroed, whatever its type and offset; step to the key's lexicographic predecessor | medium, not executed | `ExtentCorrupt.AsWrittenMissesLowerTypes` | `ExtentCorrupt.FixedScanZeroesEveryReference` |
| btrfs-corrupt-block.c:247 | `bytes + sectorsize - 1` is computed in u64 and wraps | `--bytes -1` parses to 2^64 - 1; with 4096-byte sectors the sum wraps to 4094, and no block is corrupted | the number of sectors covering the byte count (2^52 here) | low, not executed | `RangeDriver.AsWrittenCountWrapsToZero` | `RangeDriver.CorruptRangeFixed` |
