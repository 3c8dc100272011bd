/** The one-block write-back cache in front of the device, and the installer's logged writes and
    rollback (limine/limine.c).  The device is a file: whole blocks and perhaps the beginning of
    one more.  Reading that one fails, but only after its bytes have gone over the cached block.
    Device faults are not modelled. */
module BlockDevice {
  import opened UndoLog
  import opened Wrappers

  // ---------- block arithmetic ----------

  lemma BlockBounds(i: nat, bs: nat, b: nat)
    requires bs > 0
    ensures i / bs == b <==> b * bs <= i < b * bs + bs
    ensures i / bs == b ==> i % bs == i - b * bs
  {
    var q, r := i / bs, i % bs;
    assert i == q * bs + r && 0 <= r < bs;
    if q < b { assert (q + 1) * bs <= b * bs; }
    if q > b { assert (b + 1) * bs <= q * bs; }
  }

  /** A file of whole blocks ends at a block boundary. */
  lemma WholeBlocks(n: nat, bs: nat, b: nat)
    requires bs > 0 && n % bs == 0
    ensures b * bs < n <==> b * bs + bs <= n
  {
    var q := n / bs;
    assert n == q * bs;
    if b < q { assert (b + 1) * bs <= q * bs; }
    if b >= q { assert q * bs <= b * bs; }
  }

  function BlockOf(pos: nat, bs: nat): nat
    requires bs > 0
  {
    pos / bs
  }

  function OffsetIn(pos: nat, bs: nat): (r: nat)
    requires bs > 0
    ensures r < bs
  {
    pos % bs
  }

  /** Consecutive bytes that stay below the end of a block lie in that block. */
  lemma SameBlock(pos: nat, bs: nat, k: nat)
    requires bs > 0 && pos % bs + k < bs
    ensures (pos + k) / bs == pos / bs && (pos + k) % bs == pos % bs + k
  {
    BlockBounds(pos, bs, pos / bs);
    BlockBounds(pos + k, bs, pos / bs);
  }

  lemma PositionInBlock(bs: nat, n: nat, pos: nat)
    requires bs > 0 && n % bs == 0
    ensures pos / bs * bs < n <==> pos < n
    ensures pos % bs < bs
  {
    WholeBlocks(n, bs, pos / bs);
    BlockBounds(pos, bs, pos / bs);
  }

  // ---------- the image that the cache and the file stand for ----------

  ghost function View(bs: nat, disk: seq<Byte>, cache: seq<Byte>, cachedBlock: int): (r: seq<Byte>)
    requires bs > 0 && |cache| == bs
    ensures |r| == |disk|
    ensures forall i | 0 <= i < |disk| :: r[i] == if i / bs == cachedBlock then cache[i % bs] else disk[i]
  {
    seq(|disk|, i requires 0 <= i < |disk| => if i / bs == cachedBlock then cache[i % bs] else disk[i])
  }

  ghost predicate CacheShape(bs: nat, disk: seq<Byte>, tail: seq<Byte>, cache: seq<Byte>, cachedBlock: int, dirty: bool)
  {
    && bs > 0 && |cache| == bs && |disk| % bs == 0 && |tail| < bs
    && (cachedBlock == NO_BLOCK || (0 <= cachedBlock && cachedBlock * bs < |disk|))
    && (dirty ==> cachedBlock != NO_BLOCK)
  }

  /** A clean cache holds what the device does. */
  ghost predicate Coherent(bs: nat, disk: seq<Byte>, cache: seq<Byte>, cachedBlock: int, dirty: bool)
    requires bs > 0 && |cache| == bs
  {
    dirty || View(bs, disk, cache, cachedBlock) == disk
  }

  /** cached_block after it was set to (uint64_t) -1. */
  const NO_BLOCK: int := -1

  lemma WholePart(n: nat, bs: nat)
    requires 0 < bs <= n
    ensures bs <= n - n % bs && (n - n % bs) % bs == 0 && n % bs < bs
  {
    var q := n / bs;
    assert n - n % bs == q * bs;
    BlockBounds(n, bs, 0);
    assert q * bs >= bs;
    BlockBounds(q * bs, bs, q);
  }

  lemma FlushedView(bs: nat, disk: seq<Byte>, cache: seq<Byte>, b: nat)
    requires bs > 0 && |cache| == bs && |disk| % bs == 0 && b * bs < |disk|
    ensures b * bs + bs <= |disk|
    ensures disk[..b * bs] + cache + disk[b * bs + bs..] == View(bs, disk, cache, b)
  {
    WholeBlocks(|disk|, bs, b);
    var r := disk[..b * bs] + cache + disk[b * bs + bs..];
    forall i | 0 <= i < |disk| ensures r[i] == View(bs, disk, cache, b)[i] {
      BlockBounds(i, bs, b);
    }
  }

  /** With the block of the file in the cache, the view is the file. */
  lemma LoadedView(bs: nat, disk: seq<Byte>, b: nat)
    requires bs > 0 && |disk| % bs == 0 && b * bs < |disk|
    ensures b * bs + bs <= |disk|
    ensures View(bs, disk, disk[b * bs..b * bs + bs], b) == disk
  {
    WholeBlocks(|disk|, bs, b);
    forall i | 0 <= i < |disk| ensures View(bs, disk, disk[b * bs..b * bs + bs], b)[i] == disk[i] {
      BlockBounds(i, bs, b);
    }
  }

  /** Changing bytes of the cached block changes exactly those bytes of the view. */
  lemma PatchedView(bs: nat, disk: seq<Byte>, cache: seq<Byte>, cache': seq<Byte>, b: nat, pos: nat, chunk: seq<Byte>)
    requires bs > 0 && |cache| == bs && |cache'| == bs && pos / bs == b && pos % bs + |chunk| <= bs
    requires cache' == cache[..pos % bs] + chunk + cache[pos % bs + |chunk|..]
    ensures View(bs, disk, cache', b) == Overwrite(View(bs, disk, cache, b), pos, chunk)
  {
    forall i | 0 <= i < |disk|
      ensures View(bs, disk, cache', b)[i] == Overwrite(View(bs, disk, cache, b), pos, chunk)[i]
    {
      BlockBounds(i, bs, b);
      BlockBounds(pos, bs, b);
    }
  }

  /** Reading from the cached block reads the view. */
  lemma ReadView(bs: nat, disk: seq<Byte>, cache: seq<Byte>, b: nat, pos: nat, n: nat)
    requires bs > 0 && |cache| == bs && |disk| % bs == 0 && b * bs < |disk|
    requires pos / bs == b && pos % bs + n <= bs
    ensures pos + n <= |disk|
    ensures View(bs, disk, cache, b)[pos..pos + n] == cache[pos % bs..pos % bs + n]
  {
    WholeBlocks(|disk|, bs, b);
    BlockBounds(pos, bs, b);
    var read, expected := View(bs, disk, cache, b)[pos..pos + n], cache[pos % bs..pos % bs + n];
    forall k | 0 <= k < n ensures read[k] == expected[k] {
      SameBlock(pos, bs, k);
    }
  }

  // ---------- the partial last block ----------

  /** Asking for this block reads the tail. */
  predicate AtTail(bs: nat, size: nat, tail: seq<Byte>, block: nat)
  {
    tail != [] && block * bs == size
  }

  /** A request gets as far as the partial block, or begins within it. */
  predicate ReachesTail(bs: nat, size: nat, tail: seq<Byte>, loc: nat, count: nat)
  {
    tail != [] && 0 < count && loc < size + bs && size < loc + count
  }

  /** The block that was cached happens to begin with the tail's bytes. */
  predicate TailShows(bs: nat, tail: seq<Byte>, disk: seq<Byte>, b: int)
  {
    b == NO_BLOCK || (0 <= b && b * bs + |tail| <= |disk| && disk[b * bs..b * bs + |tail|] == tail)
  }

  /** Reading the tail over a clean cache puts its bytes on the image, and keeps the cache clean exactly when
      they are the same as those there. */
  lemma TailOverCache(bs: nat, disk: seq<Byte>, tail: seq<Byte>, cache: seq<Byte>, b: int)
    requires CacheShape(bs, disk, tail, cache, b, false) && View(bs, disk, cache, b) == disk
    ensures b != NO_BLOCK ==> View(bs, disk, tail + cache[|tail|..], b) == Overwrite(disk, b * bs, tail)
    ensures View(bs, disk, tail + cache[|tail|..], b) == disk <==> TailShows(bs, tail, disk, b)
  {
    var cache' := tail + cache[|tail|..];
    if b == NO_BLOCK {
      assert View(bs, disk, cache', b) == disk;
    } else {
      hide View;
      WholeBlocks(|disk|, bs, b);
      BlockBounds(b * bs, bs, b);
      PatchedView(bs, disk, cache, cache', b, b * bs, tail);
      OverwriteSame(disk, b * bs, tail);
    }
  }

  lemma OverwriteSame(image: seq<Byte>, loc: nat, data: seq<Byte>)
    requires loc + |data| <= |image|
    ensures Overwrite(image, loc, data) == image <==> image[loc..loc + |data|] == data
  {
    if Overwrite(image, loc, data) == image {
      forall k | 0 <= k < |data| ensures image[loc..loc + |data|][k] == data[k] {
        assert Overwrite(image, loc, data)[loc + k] == data[k];
      }
    } else {
      var i :| 0 <= i < |image| && Overwrite(image, loc, data)[i] != image[i];
      assert image[loc..loc + |data|][i - loc] != data[i - loc];
    }
  }

  /** Where a request stops for want of a whole block, that block is the tail's exactly when the request reaches it. */
  lemma StopsAtTail(bs: nat, size: nat, tail: seq<Byte>, loc: nat, count: nat, p: nat)
    requires bs > 0 && size % bs == 0 && p < count && size <= loc + p && (p > 0 ==> loc + p <= size)
    ensures AtTail(bs, size, tail, BlockOf(loc + p, bs)) <==> ReachesTail(bs, size, tail, loc, count)
  {
    var b := size / bs;
    assert size == b * bs;
    BlockBounds(loc + p, bs, b);
    if (loc + p) / bs * bs == size {
      BlockBounds(loc + p, bs, (loc + p) / bs);
    }
  }

  lemma BeforeTail(bs: nat, size: nat, tail: seq<Byte>, pos: nat)
    requires bs > 0 && size % bs == 0 && pos < size
    ensures !AtTail(bs, size, tail, BlockOf(pos, bs))
  {
    PositionInBlock(bs, size, pos);
  }

  lemma ServedBeforeTail(bs: nat, size: nat, tail: seq<Byte>, loc: nat, count: nat)
    requires InRange(size, loc, count)
    ensures !ReachesTail(bs, size, tail, loc, count)
  {
  }

  /** A log entry begins in the whole blocks and goes into the tail. */
  predicate Straddles(size: nat, tail: seq<Byte>, e: Entry)
  {
    tail != [] && e.loc < size < e.loc + |e.data|
  }

  lemma TailCases(bs: nat, size: nat, tail: seq<Byte>, e: Entry)
    requires bs > 0
    ensures Straddles(size, tail, e) <==> ReachesTail(bs, size, tail, e.loc, |e.data|) && e.loc < size
    ensures ReachesTail(bs, size, tail, e.loc, |e.data|) ==> !InRange(size, e.loc, |e.data|)
  {
  }

  lemma InLastBlock(bs: nat, size: nat, b: nat, pos: nat)
    requires bs > 0 && b * bs + bs == size && pos < size
    ensures BlockOf(pos, bs) == b <==> size - bs <= pos
  {
    BlockBounds(pos, bs, b);
  }

  lemma LastBlockBefore(bs: nat, size: nat, b: nat)
    requires bs > 0 && size % bs == 0 && size > 0 && BlockOf(size - 1, bs) == b
    ensures b * bs + bs == size
  {
    WholeBlocks(size, bs, b);
    BlockBounds(size - 1, bs, b);
  }

  /** UNINSTALL_DATA_MAX */
  const LOG_MAX: nat := 256

  /** A request is served if it is empty or ends within the device. */
  predicate InRange(size: nat, loc: nat, count: nat)
  {
    count == 0 || loc + count <= size
  }

  ghost predicate LogInRange(size: nat, log: seq<Entry>)
  {
    forall k | 0 <= k < |log| :: InRange(size, log[k].loc, |log[k].data|)
  }

  lemma ReversedInRange(size: nat, log: seq<Entry>)
    ensures LogInRange(size, Reversed(log)) <==> LogInRange(size, log)
  {
    var rev := Reversed(log);
    forall k | 0 <= k < |log| && LogInRange(size, rev) ensures InRange(size, log[k].loc, |log[k].data|) {
      assert log[k] == rev[|log| - 1 - k];
    }
  }

  lemma ServedClearOfTail(size: nat, tail: seq<Byte>, log: seq<Entry>)
    ensures LogInRange(size, log) ==> forall k | 0 <= k < |log| :: !Straddles(size, tail, log[k])
  {
  }

  lemma AgreeingSize(origin: seq<Byte>, image: seq<Byte>, log: seq<Entry>)
    requires AgreesOff(origin, image, log)
    ensures |origin| == |image|
  {
  }

  // ---------- uninstalling over a partial last block ----------

  /** The image an uninstallation has got to, and whether the tail's bytes lie over the last block in the cache. */
  datatype Worn = Worn(image: seq<Byte>, marked: bool)

  ghost predicate WornState(bs: nat, disk: seq<Byte>, tail: seq<Byte>, cache: seq<Byte>, b: int, dirty: bool, w: Worn)
    requires bs > 0 && |cache| == bs
  {
    if w.marked then
      && disk == w.image && !dirty && 0 <= |disk| - bs == b * bs
      && View(bs, disk, cache, b) == Overwrite(disk, |disk| - bs, tail)
    else Coherent(bs, disk, cache, b, dirty) && View(bs, disk, cache, b) == w.image
  }

  /** What an entry is written over: an entry that begins in a marked last block brings the tail's bytes along. */
  ghost function RestoreBase(bs: nat, tail: seq<Byte>, w: Worn, e: Entry): (r: seq<Byte>)
    ensures |r| == |w.image|
  {
    if w.marked && 0 <= |w.image| - bs <= e.loc < |w.image| then Overwrite(w.image, |w.image| - bs, tail) else w.image
  }

  /** Writing an entry back: an entry that runs into the tail marks the last block, any other that is not empty
      leaves it unmarked. */
  ghost function RestoreOn(bs: nat, tail: seq<Byte>, w: Worn, e: Entry): (r: Worn)
    ensures |r.image| == |w.image|
  {
    if e.data == [] then w
    else Worn(Overwrite(RestoreBase(bs, tail, w, e), e.loc, e.data), Straddles(|w.image|, tail, e))
  }

  ghost function ReplayOn(bs: nat, tail: seq<Byte>, w: Worn, log: seq<Entry>): (r: Worn)
    ensures |r.image| == |w.image|
  {
    if log == [] then w else RestoreOn(bs, tail, ReplayOn(bs, tail, w, log[..|log| - 1]), log[|log| - 1])
  }

  lemma NothingReplayed(bs: nat, tail: seq<Byte>, w: Worn, size: nat)
    ensures ReplayOn(bs, tail, w, []) == w && LogInRange(size, [])
  {
  }

  lemma OneEntryMore(bs: nat, tail: seq<Byte>, w: Worn, log: seq<Entry>, i: nat)
    requires i < |log|
    ensures ReplayOn(bs, tail, w, log[..i + 1]) == RestoreOn(bs, tail, ReplayOn(bs, tail, w, log[..i]), log[i])
    ensures forall size: nat ::
      LogInRange(size, log[..i + 1]) <==> LogInRange(size, log[..i]) && InRange(size, log[i].loc, |log[i].data|)
  {
    hide InRange, RestoreOn;
    assert log[..i + 1][..i] == log[..i] && log[..i + 1][i] == log[i];
    forall size: nat
      ensures LogInRange(size, log[..i + 1])
        <==> LogInRange(size, log[..i]) && InRange(size, log[i].loc, |log[i].data|)
    {
      assert forall k | 0 <= k < i :: log[..i + 1][k] == log[..i][k];
    }
  }

  /** Without an entry that runs into the tail it is the plain replay. */
  lemma {:induction false} ReplayUnmarked(bs: nat, tail: seq<Byte>, d: seq<Byte>, log: seq<Entry>)
    requires forall k | 0 <= k < |log| :: !Straddles(|d|, tail, log[k])
    ensures ReplayOn(bs, tail, Worn(d, false), log) == Worn(Replay(d, log), false) && |Replay(d, log)| == |d|
    decreases |log|
  {
    hide Overwrite, Straddles;
    if log != [] {
      var k := |log| - 1;
      assert log == log[..k] + [log[k]];
      ReplayUnmarked(bs, tail, d, log[..k]);
      ReplayLast(d, log[..k], log[k]);
      OverwriteNothing(Replay(d, log[..k]), log[k].loc, log[k].data);
    }
  }

  /** With one, the next entry that begins behind the start of the last block carries the tail's bytes onto the
      device. */
  lemma TailWrittenBack(bs: nat, tail: seq<Byte>, d: seq<Byte>, e: Entry, e': Entry)
    requires 0 < bs <= |d| && Straddles(|d|, tail, e) && e'.data != [] && |d| - bs < e'.loc < |d|
    ensures ReplayOn(bs, tail, Worn(d, false), [e, e']).image[|d| - bs] == tail[0]
  {
    var start, log := Worn(d, false), [e, e'];
    assert log[..0] == [] && log[..2] == log;
    OneEntryMore(bs, tail, start, log, 0);
    OneEntryMore(bs, tail, start, log, 1);
    NothingReplayed(bs, tail, start, |d|);
    var w := RestoreOn(bs, tail, start, e);
    assert w.marked && |w.image| == |d|;
    assert RestoreBase(bs, tail, w, e')[|d| - bs] == tail[0];
    hide ReplayOn;
  }

  lemma OverwriteNothing(image: seq<Byte>, loc: nat, data: seq<Byte>)
    ensures data == [] ==> Overwrite(image, loc, data) == image
  {
  }

  lemma OverwriteBeyond(image: seq<Byte>, loc: nat, data: seq<Byte>)
    requires |image| <= loc
    ensures Overwrite(image, loc, data) == image
  {
  }

  class Device {
    const bs: nat
    const tail: seq<Byte>
    var disk: seq<Byte>
    const cache: array<Byte>
    var cachedBlock: int
    var dirty: bool
    var uninstalling: bool
    const uninstallData: array<Entry>
    const uninstallDataRev: array<Entry>
    var uninstallDataI: nat

    /** What holds whatever has been read. */
    ghost predicate Shape()
      reads this, cache
    {
      && bs > 0 && cache.Length == bs
      && CacheShape(bs, disk, tail, cache[..], cachedBlock, dirty) && LogShape()
    }

    ghost predicate Valid()
      reads this, cache
    {
      Shape() && Coherent(bs, disk, cache[..], cachedBlock, dirty)
    }

    ghost predicate LogShape()
      reads this
    {
      && uninstallData != uninstallDataRev
      && uninstallData.Length == uninstallDataRev.Length == LOG_MAX
      && uninstallDataI <= LOG_MAX
    }

    /** The flat disk that the cache and the device stand for together. */
    ghost function Image(): (image: seq<Byte>)
      requires Shape()
      reads this, cache
      ensures |image| == |disk|
    {
      View(bs, disk, cache[..], cachedBlock)
    }

    ghost function Log(): seq<Entry>
      requires Shape()
      reads this, cache, uninstallData
    {
      uninstallData[..uninstallDataI]
    }

    ghost predicate Stands(image: seq<Byte>)
      reads this, cache
    {
      Valid() && Image() == image
    }

    /** The tail has been read over the clean block that is cached; the device itself holds the image. */
    ghost predicate TailOver(image: seq<Byte>)
      reads this, cache
    {
      && Shape() && disk == image && !dirty && cache[..|tail|] == tail
      && (cachedBlock != NO_BLOCK ==> Image() == Overwrite(disk, cachedBlock * bs, tail))
      && (Valid() <==> TailShows(bs, tail, disk, cachedBlock))
    }

    ghost predicate HitsTail(pos: nat)
      requires bs > 0
      reads this
    {
      AtTail(bs, |disk|, tail, BlockOf(pos, bs))
    }

    /** After a request at `loc` has read the tail over the cached block: the cache still stands for the
        device exactly when that block begins with the tail's bytes. */
    ghost predicate TailRead(loc: nat, was: int)
      reads this, cache
    {
      && Shape() && !dirty && cache[..|tail|] == tail
      && (if loc < |disk| then cachedBlock * bs + bs == |disk| else cachedBlock == was)
      && (cachedBlock != NO_BLOCK ==> Image() == Overwrite(disk, cachedBlock * bs, tail))
      && (Valid() <==> TailShows(bs, tail, disk, cachedBlock))
    }

    /** What a request at pos finds: the cached block if it is that one, else the device, brought up to date. */
    ghost function Base(pos: nat): seq<Byte>
      requires Shape()
      reads this, cache
    {
      if dirty || cachedBlock == BlockOf(pos, bs) then Image() else disk
    }

    /** A write of the buffer over that image has been made, up to the tail if it reaches it. */
    ghost predicate Wrote(image: seq<Byte>, loc: nat, buffer: seq<Byte>, was: int)
      reads this, cache
    {
      if ReachesTail(bs, |disk|, tail, loc, |buffer|)
      then disk == Overwrite(image, loc, buffer) && TailRead(loc, was)
      else Stands(Overwrite(image, loc, buffer))
    }

    /** device_init once it has settled on a block size: the first block is cached. */
    constructor (file: seq<Byte>, blockSize: nat)
      requires 0 < blockSize <= |file|
      ensures Valid() && disk == Image() && disk + tail == file && bs == blockSize && cachedBlock == 0
      ensures Log() == [] && !uninstalling && Recoverable(disk)
      ensures fresh(cache) && fresh(uninstallData) && fresh(uninstallDataRev)
    {
      var whole := |file| - |file| % blockSize;
      bs, disk, tail := blockSize, file[..whole], file[whole..];
      cache := new Byte[blockSize](k requires 0 <= k < blockSize && k < |file| => file[k]);
      cachedBlock, dirty, uninstalling := 0, false, false;
      uninstallData := new Entry[LOG_MAX];
      uninstallDataRev := new Entry[LOG_MAX];
      uninstallDataI := 0;
      new;
      WholePart(|file|, blockSize);
      LoadedView(blockSize, disk, 0);
      assert cache[..] == disk[0 * blockSize..0 * blockSize + blockSize];
    }

    method FlushCache() returns (ok: bool)
      requires Shape()
      modifies this`disk, this`dirty
      ensures Shape() && Image() == old(Image()) && !dirty && ok && |disk| == |old(disk)|
      ensures disk == if old(dirty) then old(Image()) else old(disk)
      ensures old(Valid()) ==> Valid() && disk == Image()
    {
      if !dirty {
        return true;
      }
      var pos := cachedBlock * bs;
      FlushedView(bs, disk, cache[..], cachedBlock);
      disk := disk[..pos] + cache[..] + disk[pos + bs..];
      dirty := false;
      ok := true;
    }

    method CacheBlock(block: nat) returns (ok: bool)
      requires Shape()
      modifies this`disk, this`dirty, this`cachedBlock, cache
      ensures Shape() && |disk| == |old(disk)|
      ensures ok <==> block * bs < |disk|
      ensures ok ==> cachedBlock == block
      ensures old(cachedBlock) == block ==> cache[..] == old(cache[..])
      ensures !ok ==> cachedBlock == old(cachedBlock) && !dirty
      ensures !ok ==> disk == if old(dirty) then old(Image()) else old(disk)
      ensures ok ==> Image() == if old(dirty || cachedBlock == block) then old(Image()) else old(disk)
      ensures disk == old(disk) || disk == old(Image())
      ensures old(Valid()) ==>
        if AtTail(bs, |disk|, tail, block) then TailOver(old(Image())) else Stands(old(Image()))
    {
      if cachedBlock == block {
        return true;
      }
      if dirty {
        ok := FlushCache();
      }
      WholeBlocks(|disk|, bs, block);
      if block * bs + bs > |disk| {
        if block * bs == |disk| {
          ReadTail();
        }
        return false;
      }
      LoadedView(bs, disk, block);
      ghost var piece := disk[block * bs..block * bs + bs];
      forall k | 0 <= k < bs { cache[k] := disk[block * bs + k]; }
      assert cache[..] == piece;
      cachedBlock := block;
      ok := true;
    }

    /** fread of a block that the file holds only the beginning of. */
    method ReadTail()
      requires Shape() && !dirty
      modifies cache
      ensures Shape() && cache[..|tail|] == tail && (tail == [] ==> cache[..] == old(cache[..]))
      ensures old(Valid()) ==> (Valid() <==> TailShows(bs, tail, disk, cachedBlock))
      ensures old(Valid()) && cachedBlock != NO_BLOCK ==> Image() == Overwrite(disk, cachedBlock * bs, tail)
    {
      hide View;
      ghost var c := cache[..];
      forall k | 0 <= k < |tail| { cache[k] := tail[k]; }
      assert cache[..] == tail + c[|tail|..];
      if old(Valid()) {
        TailOverCache(bs, disk, tail, c, cachedBlock);
      }
    }

    ghost predicate InCache(loc: nat, count: nat)
      requires Shape()
      reads this, cache
    {
      cachedBlock == BlockOf(loc, bs) && OffsetIn(loc, bs) + count <= bs
    }

    /** The cache holds `chunk` of the `want` bytes at pos, up to the end of the block, from `offset` on. */
    ghost predicate Located(pos: nat, want: nat, offset: nat, chunk: nat)
      requires Shape() && chunk > 0
      reads this, cache
    {
      && cachedBlock == BlockOf(pos, bs) == BlockOf(pos + chunk - 1, bs) && offset == OffsetIn(pos, bs)
      && 0 < chunk <= want && offset + chunk <= bs && (chunk == want || offset + chunk == bs) && pos + chunk <= |disk|
      && Image()[pos..pos + chunk] == cache[offset..offset + chunk]
    }

    /** Brings the block of byte pos into the cache and says which of the next `want` bytes it
        holds: the part that _device_read and _device_write share. */
    method Locate(pos: nat, want: nat) returns (ok: bool, offset: nat, chunk: nat)
      requires Shape() && want > 0
      modifies this`disk, this`dirty, this`cachedBlock, cache
      ensures Shape() && |disk| == |old(disk)|
      ensures ok <==> pos < |disk|
      ensures ok ==> chunk > 0 && Located(pos, want, offset, chunk)
      ensures !ok ==> cachedBlock == old(cachedBlock) && !dirty
      ensures !ok ==> disk == if old(dirty) then old(Image()) else old(disk)
      ensures ok ==> Image() == old(Base(pos))
      ensures old(cachedBlock) == BlockOf(pos, bs) ==> cache[..] == old(cache[..])
      ensures disk == old(disk) || disk == old(Image())
      ensures old(Valid()) ==> if HitsTail(pos) then !ok && TailOver(old(Image())) else Stands(old(Image()))
    {
      hide View, Coherent, Stands, TailOver;
      var block := pos / bs;
      offset, chunk := 0, 0;
      ok := CacheBlock(block);
      PositionInBlock(bs, |disk|, pos);
      if ok {
        chunk := want;
        offset := pos % bs;
        if chunk > bs - offset {
          chunk := bs - offset;
        }
        ReadView(bs, disk, cache[..], block, pos, chunk);
        SameBlock(pos, bs, chunk - 1);
      }
    }

    /** One turn of the loop of _device_read: the bytes at pos, up to the end of the block. */
    method Fetch(pos: nat, want: nat) returns (ok: bool, piece: seq<Byte>)
      requires Shape() && want > 0
      modifies this`disk, this`dirty, this`cachedBlock, cache
      ensures Shape() && |disk| == |old(disk)|
      ensures ok <==> pos < |disk|
      ensures ok ==> 0 < |piece| <= want && pos + |piece| <= |disk| && cachedBlock == BlockOf(pos + |piece| - 1, bs)
      ensures ok ==> piece == Image()[pos..pos + |piece|]
      ensures old(InCache(pos, want)) ==> piece == old(cache[OffsetIn(pos, bs)..OffsetIn(pos, bs) + want])
      ensures !ok ==> cachedBlock == old(cachedBlock)
      ensures disk == old(disk) || disk == old(Image())
      ensures old(Valid()) ==> if HitsTail(pos) then !ok && TailOver(old(Image())) else Stands(old(Image()))
    {
      hide View, CacheShape, Valid, Stands, Base, BlockOf, OffsetIn, HitsTail, TailOver, LogShape, Image;
      if InCache(pos, want) {
        CachedIsServed(pos, want);
      }
      var offset, chunk;
      ok, offset, chunk := Locate(pos, want);
      piece := [];
      if ok {
        piece := cache[offset..offset + chunk];
      }
    }

    /** Reads what an uncached flat disk of the whole blocks would hold, and fails exactly past its end.
        A request that reaches the tail leaves its mark on the cache. */
    method Read(loc: nat, count: nat) returns (ok: bool, buffer: seq<Byte>)
      requires Shape()
      modifies this`disk, this`dirty, this`cachedBlock, cache
      ensures Shape() && |disk| == |old(disk)|
      ensures ok <==> InRange(|disk|, loc, count)
      ensures old(Valid()) && !ReachesTail(bs, |disk|, tail, loc, count) ==> Stands(old(Image()))
      ensures old(Valid()) && ok ==> buffer == Slice(old(Image()), loc, count)
      ensures old(Valid()) ==> disk == old(disk) || disk == old(Image())
      ensures old(Valid()) && ReachesTail(bs, |disk|, tail, loc, count) ==>
        disk == old(Image()) && TailRead(loc, old(cachedBlock))
      ensures old(InCache(loc, count)) ==> ok && buffer == old(cache[OffsetIn(loc, bs)..OffsetIn(loc, bs) + count])
    {
      hide View, CacheShape, Valid, Stands, BlockOf, OffsetIn, ReachesTail, HitsTail, TailOver, TailRead, LogShape;
      hide Copied, Image, InCache;
      ghost var image, c, valid, cached := Image(), cache[..], Valid(), InCache(loc, count);
      ghost var bytes: seq<Byte> := [];
      if cached {
        CachedIsServed(loc, count);
        bytes := c[OffsetIn(loc, bs)..OffsetIn(loc, bs) + count];
      }
      StandsOrNot(image);
      NothingCopied(image, loc);
      buffer := [];
      var progress := 0;
      while progress < count
        invariant Shape() && |disk| == |image| && progress <= count
        invariant progress > 0 ==> loc + progress <= |image| && cachedBlock == BlockOf(loc + progress - 1, bs)
        invariant progress == 0 ==> cachedBlock == old(cachedBlock) && cache[..] == c && InCache(loc, count) == cached
        invariant valid ==> Stands(image) && (disk == old(disk) || disk == image)
        invariant valid ==> Copied(buffer, image, loc, progress)
        invariant |buffer| == progress
        invariant cached && progress > 0 ==> progress == count && buffer == bytes
      {
        StandsOrNot(image);
        var piece;
        ok, piece := Fetch(loc + progress, count - progress);
        if !ok {
          RequestStops(loc, count, progress, old(cachedBlock), image);
          return;
        }
        StandsOrNot(image);
        StillServed(loc + progress);
        if valid {
          CopyMore(buffer, image, loc, progress, piece);
        }
        assert [] + piece == piece;
        buffer := buffer + piece;
        progress := progress + |piece|;
      }
      if valid {
        AllCopied(buffer, image, loc, count);
      }
      ServedBeforeTail(bs, |disk|, tail, loc, count);
      ok := true;
    }

    /** One turn of the loop of _device_write: as many bytes as go into the block at pos. */
    method Deliver(pos: nat, rest: seq<Byte>) returns (ok: bool, chunk: nat)
      requires Shape() && rest != []
      modifies this`disk, this`dirty, this`cachedBlock, cache
      ensures Shape() && |disk| == |old(disk)|
      ensures ok <==> pos < |disk|
      ensures ok ==> 0 < chunk <= |rest| && pos + chunk <= |disk| && cachedBlock == BlockOf(pos + chunk - 1, bs)
      ensures ok ==> Stands(Overwrite(old(Base(pos)), pos, rest[..chunk]))
      ensures !ok ==> cachedBlock == old(cachedBlock) && !dirty
      ensures !ok ==> disk == if old(dirty) then old(Image()) else old(disk)
      ensures disk == old(disk) || disk == old(Image())
      ensures old(Valid()) && !ok ==> if HitsTail(pos) then TailOver(old(Image())) else Stands(old(Image()))
    {
      hide View, CacheShape, Valid, Base, BlockOf, OffsetIn, HitsTail, TailOver, LogShape, Image, Overwrite;
      var offset;
      ok, offset, chunk := Locate(pos, |rest|);
      if ok {
        PutChunk(pos, offset, rest[..chunk]);
      }
    }

    /** The loop of _device_write: the image becomes the old one with the buffer in place, and the
        device itself changes outside the written range only by catching up with the old image. */
    method WriteThrough(buffer: seq<Byte>, loc: nat) returns (ok: bool)
      requires Shape()
      modifies this`disk, this`dirty, this`cachedBlock, cache
      ensures Shape() && |disk| == |old(disk)|
      ensures ok <==> InRange(|disk|, loc, |buffer|)
      ensures old(Valid()) ==> CaughtUp(old(disk), old(Image()), disk, loc, |buffer|)
      ensures old(Valid()) ==> Wrote(old(Image()), loc, buffer, old(cachedBlock))
      ensures buffer != [] && loc < |disk| ==> Wrote(old(Base(loc)), loc, buffer, old(cachedBlock))
      ensures buffer == [] ==>
        disk == old(disk) && dirty == old(dirty) && cachedBlock == old(cachedBlock) && cache[..] == old(cache[..])
      ensures buffer != [] && loc >= |disk| && !old(dirty) ==> disk == old(disk) && !dirty
    {
      hide View, CacheShape, Valid, Stands, Image, Base, Overwrite, BlockOf, ReachesTail, HitsTail, TailOver, TailRead;
      hide CaughtUp, LogShape;
      ghost var base, d, valid := Base(loc), disk, Valid();
      BaseOfValid(loc);
      var count := |buffer|;
      var progress := 0;
      NothingWritten(base, loc, buffer);
      StandsOrNot(base);
      CaughtUpFirst(d, base, loc, count);
      while progress < count
        invariant Shape() && progress <= count && |disk| == |base| == |d|
        invariant progress > 0 ==> loc + progress <= |disk| && cachedBlock == BlockOf(loc + progress - 1, bs)
        invariant progress == 0 ==> disk == d && dirty == old(dirty) && cachedBlock == old(cachedBlock)
        invariant progress == 0 ==> cache[..] == old(cache[..]) && Base(loc) == base
        invariant valid || progress > 0 ==> Stands(Overwrite(base, loc, buffer[..progress]))
        invariant valid ==> CaughtUp(d, base, disk, loc, count)
      {
        ghost var before := disk;
        ghost var written := Overwrite(base, loc, buffer[..progress]);
        BaseOfValid(loc + progress);
        StandsOrNot(written);
        var chunk;
        ok, chunk := Deliver(loc + progress, buffer[progress..]);
        if valid {
          StillCaughtUp(d, base, before, loc, buffer, progress);
        }
        if !ok {
          RequestStops(loc, count, progress, old(cachedBlock), written);
          OverwritePastEnd(base, loc, buffer, progress);
          return;
        }
        assert buffer[progress..][..chunk] == buffer[progress..progress + chunk];
        OverwriteAppend(base, loc, buffer, progress, progress + chunk);
        progress := progress + chunk;
      }
      assert buffer[..count] == buffer;
      ServedBeforeTail(bs, |disk|, tail, loc, count);
      ok := true;
    }

    lemma BaseOfValid(pos: nat)
      requires Shape()
      ensures Valid() ==> Base(pos) == Image()
      ensures |Base(pos)| == |disk|
    {
    }

    lemma StandsOrNot(image: seq<Byte>)
      requires Shape()
      ensures Stands(image) <==> Valid() && Image() == image
    {
    }

    lemma CachedIsServed(loc: nat, count: nat)
      requires Shape() && InCache(loc, count)
      ensures loc < |disk| && OffsetIn(loc, bs) + count <= bs
    {
      PositionInBlock(bs, |disk|, loc);
    }

    lemma StillServed(pos: nat)
      requires Shape() && pos < |disk|
      ensures !HitsTail(pos)
    {
      BeforeTail(bs, |disk|, tail, pos);
    }

    /** A request that stops after p bytes has read the tail exactly if it reaches that far. */
    lemma RequestStops(loc: nat, count: nat, p: nat, was: int, image: seq<Byte>)
      requires Shape() && p < count && |disk| <= loc + p
      requires if p > 0 then loc + p <= |disk| && cachedBlock == BlockOf(loc + p - 1, bs) else cachedBlock == was
      ensures HitsTail(loc + p) <==> ReachesTail(bs, |disk|, tail, loc, count)
      ensures TailOver(image) ==> TailRead(loc, was) && disk == image
    {
      hide View, Coherent, BlockOf;
      StopsAtTail(bs, |disk|, tail, loc, count, p);
      if loc < |disk| {
        LastBlockBefore(bs, |disk|, cachedBlock);
      }
    }

    /** memcpy into the cached block. */
    method PutChunk(ghost pos: nat, offset: nat, chunk: seq<Byte>)
      requires Shape() && cachedBlock == BlockOf(pos, bs) && offset == OffsetIn(pos, bs) && offset + |chunk| <= bs
      modifies this`dirty, cache
      ensures Valid() && Image() == Overwrite(old(Image()), pos, chunk)
    {
      ghost var c := cache[..];
      forall k | 0 <= k < |chunk| { cache[offset + k] := chunk[k]; }
      assert cache[..] == c[..offset] + chunk + c[offset + |chunk|..];
      PatchedView(bs, disk, c, cache[..], cachedBlock, pos, chunk);
      dirty := true;
    }

    /** Rollback gives back `origin`: the log is sound for it, and the device does not differ from it
        where no logged write went.  What the cache holds does not matter. */
    ghost predicate Undoable(origin: seq<Byte>)
      requires Shape()
      reads this, cache, uninstallData
    {
      Sound(origin, Log()) && AgreesOff(origin, disk, Log()) && LogInRange(|disk|, Log())
    }

    /** ... and it still will after more requests: the image does not differ either. */
    ghost predicate Recoverable(origin: seq<Byte>)
      requires Shape()
      reads this, cache, uninstallData
    {
      Undoable(origin) && AgreesOff(origin, Image(), Log())
    }

    /** The saving half of _device_write: what the range holds goes into the next log slot, which
        does not count yet. */
    method Save(loc: nat, count: nat) returns (ok: bool)
      requires Shape()
      modifies this`disk, this`dirty, this`cachedBlock, cache, uninstallData
      ensures Shape() && |disk| == |old(disk)| && Log() == old(Log())
      ensures ok <==> InRange(|disk|, loc, count) && uninstallDataI < LOG_MAX
      ensures old(Valid()) && ok ==> uninstallData[uninstallDataI] == Entry(loc, Slice(old(Image()), loc, count))
      ensures old(Valid()) ==> disk == old(disk) || disk == old(Image())
      ensures old(Valid()) && (uninstallDataI < LOG_MAX ==> !ReachesTail(bs, |disk|, tail, loc, count)) ==>
        Valid() && Image() == old(Image())
      ensures old(Valid()) && uninstallDataI < LOG_MAX && ReachesTail(bs, |disk|, tail, loc, count) ==>
        disk == old(Image()) && TailRead(loc, old(cachedBlock))
    {
      hide View, CacheShape, Coherent, TailShows;
      if uninstallDataI >= LOG_MAX {
        return false;
      }
      var data;
      ok, data := Read(loc, count);
      if !ok {
        return false;
      }
      uninstallData[uninstallDataI] := Entry(loc, data);
    }

    /** Whether a write gets as far as the tail: a full log stops it before. */
    ghost predicate WriteReachesTail(loc: nat, count: nat)
      reads this
    {
      ReachesTail(bs, |disk|, tail, loc, count) && (uninstalling || uninstallDataI < LOG_MAX)
    }

    /** _device_write: logs the bytes it is about to replace, unless uninstalling.  A write that is
        refused changes neither the image nor the log, unless it reaches the tail. */
    method Write(buffer: seq<Byte>, loc: nat, ghost origin: seq<Byte>) returns (ok: bool)
      requires Shape()
      modifies this`disk, this`dirty, this`cachedBlock, this`uninstallDataI, cache, uninstallData
      ensures Shape() && |disk| == |old(disk)|
      ensures ok <==> InRange(|disk|, loc, |buffer|) && (uninstalling || |old(Log())| < LOG_MAX)
      ensures !ok || uninstalling ==> Log() == old(Log())
      ensures old(Valid()) && ok && !uninstalling ==>
        Log() == old(Log()) + [Entry(loc, Slice(old(Image()), loc, |buffer|))]
      ensures old(Valid() && !WriteReachesTail(loc, |buffer|)) ==>
        Valid() && Image() == if ok || uninstalling then Overwrite(old(Image()), loc, buffer) else old(Image())
      ensures old(Valid() && WriteReachesTail(loc, |buffer|)) ==>
        && TailRead(loc, old(cachedBlock))
        && disk == if uninstalling then Overwrite(old(Image()), loc, buffer) else old(Image())
      ensures old(Valid() && !WriteReachesTail(loc, |buffer|) && !uninstalling && Recoverable(origin)) ==>
        Recoverable(origin)
      ensures uninstalling && old(Valid()) ==> Wrote(old(Image()), loc, buffer, old(cachedBlock))
      ensures uninstalling && buffer != [] && loc < |disk| ==> Wrote(old(Base(loc)), loc, buffer, old(cachedBlock))
      ensures uninstalling && buffer == [] ==>
        disk == old(disk) && dirty == old(dirty) && cachedBlock == old(cachedBlock) && cache[..] == old(cache[..])
      ensures uninstalling && buffer != [] && loc >= |disk| && !old(dirty) ==> disk == old(disk) && !dirty
    {
      hide View, CacheShape, Coherent, Overwrite, Slice, Sound, AgreesOff, CaughtUp, LogInRange, TailShows;
      if !uninstalling {
        ok := Save(loc, |buffer|);
        if !ok {
          return false;
        }
        ServedBeforeTail(bs, |disk|, tail, loc, |buffer|);
      }
      ghost var d, image, log, valid := disk, Image(), Log(), Valid();
      ok := WriteThrough(buffer, loc);
      if !uninstalling {
        if valid && Sound(origin, log) && AgreesOff(origin, d, log) && AgreesOff(origin, image, log)
          && LogInRange(|d|, log) {
          WriteIsRecoverable(origin, d, image, disk, log, loc, buffer);
        }
        uninstallDataI := uninstallDataI + 1;
      }
    }

    method ReverseUninstallData()
      requires Shape()
      modifies uninstallData, uninstallDataRev
      ensures Shape() && Log() == Reversed(old(Log()))
    {
      ghost var log := Log();
      var n := uninstallDataI;
      var i := 0;
      while i < n
        invariant i <= n
        invariant uninstallData[..n] == log
        invariant forall k | n - i <= k < n :: uninstallDataRev[k] == log[n - 1 - k]
      {
        uninstallDataRev[n - 1 - i] := uninstallData[i];
        i := i + 1;
      }
      forall k | 0 <= k < n { uninstallData[k] := uninstallDataRev[k]; }
      assert uninstallData[..n] == Reversed(log);
    }

    /** Forgets the cached block, dirty or not. */
    method DropCache()
      requires Shape()
      modifies this`dirty, this`cachedBlock
      ensures Valid() && Image() == disk && cachedBlock == NO_BLOCK
    {
      dirty := false;
      cachedBlock := NO_BLOCK;
      assert View(bs, disk, cache[..], NO_BLOCK) == disk;
    }

    /** The state in the middle of an uninstallation. */
    ghost predicate IsAt(w: Worn)
      reads this, cache
    {
      Shape() && WornState(bs, disk, tail, cache[..], cachedBlock, dirty, w)
    }

    /** Writes one entry back, with one retry on a fresh cache. */
    method Restore(e: Entry, ghost w: Worn) returns (failed: bool)
      requires Shape() && uninstalling
      modifies this`disk, this`dirty, this`cachedBlock, this`uninstallDataI, cache, uninstallData
      ensures Shape() && |disk| == |old(disk)| && Log() == old(Log())
      ensures failed <==> !InRange(|disk|, e.loc, |e.data|)
      ensures old(IsAt(w)) ==> IsAt(RestoreOn(bs, tail, w, e))
    {
      hide View, CacheShape, Coherent, Overwrite, ReachesTail, TailRead, Stands, WornState, RestoreOn, Wrote;
      ghost var at, next := IsAt(w), RestoreOn(bs, tail, w, e);
      failed := false;
      var retry := false;
      if at { RestoreBegins(w, e); }
      var ok := Write(e.data, e.loc, []);
      if at { FirstTry(w, e, old(Base(e.loc)), old(cachedBlock)); }
      while !ok
        invariant Shape() && |disk| == |old(disk)| && Log() == old(Log()) && !failed
        invariant ok <==> InRange(|disk|, e.loc, |e.data|)
        invariant at && (ok || retry) ==> IsAt(next)
        invariant at && !ok ==> next.image == if dirty then Image() else disk
        decreases !retry, !ok
      {
        if retry {
          failed := true;
          break;
        }
        var flushed := FlushCache();
        DropCache();
        retry := true;
        ok := Write(e.data, e.loc, []);
        if at { SecondTry(w, e); }
      }
    }

    /** What the first try finds. */
    lemma RestoreBegins(w: Worn, e: Entry)
      requires IsAt(w)
      ensures |w.image| == |disk|
      ensures e.loc < |disk| ==> Base(e.loc) == RestoreBase(bs, tail, w, e)
      ensures if w.marked then !dirty && disk == w.image else Valid() && Image() == w.image
    {
      hide View, Overwrite, BlockOf;
      if w.marked && e.loc < |disk| {
        InLastBlock(bs, |disk|, cachedBlock, e.loc);
      }
    }

    /** What it leaves. */
    lemma FirstTry(w: Worn, e: Entry, base: seq<Byte>, was: int)
      requires Shape() && |w.image| == |disk|
      requires e.data != [] && e.loc < |disk| ==>
        base == RestoreBase(bs, tail, w, e) && Wrote(base, e.loc, e.data, was)
      requires e.data != [] && e.loc >= |disk| && w.marked ==> disk == w.image && !dirty
      requires e.data != [] && e.loc >= |disk| && !w.marked ==> Wrote(w.image, e.loc, e.data, was)
      requires e.data == [] ==> IsAt(w)
      ensures InRange(|disk|, e.loc, |e.data|) ==> IsAt(RestoreOn(bs, tail, w, e))
      ensures !InRange(|disk|, e.loc, |e.data|) ==>
        RestoreOn(bs, tail, w, e).image == if dirty then Image() else disk
    {
      hide View, CacheShape, Overwrite, TailShows;
      TailCases(bs, |disk|, tail, e);
      if e.loc >= |disk| {
        OverwriteBeyond(w.image, e.loc, e.data);
      }
    }

    /** What the second try leaves, on a fresh cache. */
    lemma SecondTry(w: Worn, e: Entry)
      requires Shape() && |w.image| == |disk| && !InRange(|disk|, e.loc, |e.data|)
      requires Wrote(RestoreOn(bs, tail, w, e).image, e.loc, e.data, NO_BLOCK)
      ensures IsAt(RestoreOn(bs, tail, w, e))
      ensures RestoreOn(bs, tail, w, e).image == if dirty then Image() else disk
    {
      hide View, CacheShape, Overwrite, TailShows;
      TailCases(bs, |disk|, tail, e);
      OverwriteTwice(RestoreBase(bs, tail, w, e), e.loc, e.data);
      if ReachesTail(bs, |disk|, tail, e.loc, |e.data|) && e.loc >= |disk| {
        NothingCached();
      }
    }

    lemma NothingCached()
      requires Shape() && cachedBlock == NO_BLOCK
      ensures Stands(disk)
    {
      assert View(bs, disk, cache[..], NO_BLOCK) == disk;
    }

    /** uninstall: drops the cache, whatever it holds, replays the log and flushes. */
    method Uninstall() returns (ret: bool)
      requires Shape()
      modifies this`disk, this`dirty, this`cachedBlock, this`uninstalling, this`uninstallDataI, cache, uninstallData
      ensures Shape() && Log() == old(Log()) && !dirty && |disk| == |old(disk)|
      ensures ret <==> LogInRange(|disk|, old(Log()))
      ensures disk == ReplayOn(bs, tail, Worn(old(disk), false), old(Log())).image
      ensures (forall k | 0 <= k < |old(Log())| :: !Straddles(|disk|, tail, old(Log())[k])) ==>
        Valid() && disk == Image() == Replay(old(disk), old(Log()))
    {
      hide View, CacheShape, Coherent, Overwrite, InRange, LogInRange, Straddles, WornState;
      hide RestoreOn, ReplayOn, Replay, IsAt, Valid, Image;
      ghost var d, log := disk, Log();
      ghost var start := Worn(d, false);
      uninstalling := true;
      DropCache();
      FreshlyWorn();
      var writeFail := false;
      var i := 0;
      assert log[..0] == [];
      NothingReplayed(bs, tail, start, |d|);
      while i < uninstallDataI
        invariant Shape() && uninstalling && Log() == log && |disk| == |d| && i <= |log|
        invariant IsAt(ReplayOn(bs, tail, start, log[..i]))
        invariant writeFail <==> !LogInRange(|d|, log[..i])
        decreases |log| - i
      {
        assert uninstallData[i] == log[i];
        var failed := Restore(uninstallData[i], ReplayOn(bs, tail, start, log[..i]));
        OneEntryMore(bs, tail, start, log, i);
        writeFail := writeFail || failed;
        i := i + 1;
      }
      assert log[..i] == log;
      ghost var end := ReplayOn(bs, tail, start, log);
      WornHolds(end);
      var flushed := FlushCache();
      ret := !writeFail;
      if forall k | 0 <= k < |log| :: !Straddles(|d|, tail, log[k]) {
        ReplayUnmarked(bs, tail, d, log);
      }
    }

    lemma FreshlyWorn()
      requires Valid() && Image() == disk
      ensures IsAt(Worn(disk, false))
    {
    }

    lemma WornHolds(w: Worn)
      requires IsAt(w)
      ensures w.image == if dirty then Image() else disk
      ensures !w.marked ==> Valid()
    {
      hide View;
    }

    /** The cleanup path of a failed installation.  Whatever was written, whatever of it had reached
        the device, and whatever the cache holds, the device ends up as it was if and only if it does
        not differ from that off the log. */
    method UndoInstall(ghost origin: seq<Byte>) returns (ret: bool)
      requires Shape()
      modifies this`disk, this`dirty, this`cachedBlock, this`uninstalling, this`uninstallDataI, cache, uninstallData,
          uninstallDataRev
      ensures Shape() && |disk| == |old(disk)| && (ret <==> old(LogInRange(|disk|, Log())))
      ensures old(Sound(origin, Log()) && LogInRange(|disk|, Log())) && |disk| == |origin| ==>
        Valid() && disk == Image() && (disk == origin <==> old(AgreesOff(origin, disk, Log())))
      ensures old(Undoable(origin)) ==> Valid() && ret && disk == Image() == origin
    {
      hide View, CacheShape, Coherent, Overwrite, Sound, AgreesOff, LogInRange, Straddles, Replay, Reversed;
      ghost var d, log := disk, Log();
      ReversedInRange(|d|, log);
      ServedClearOfTail(|d|, tail, Reversed(log));
      if AgreesOff(origin, d, log) {
        AgreeingSize(origin, d, log);
      }
      if Sound(origin, log) && |d| == |origin| {
        RollbackRestoresExactly(origin, d, log);
      }
      ReverseUninstallData();
      ret := Uninstall();
    }

    lemma NothingLogged(origin: seq<Byte>)
      requires Shape() && Log() == [] && disk == Image() == origin
      ensures Recoverable(origin)
    {
    }

    /** An installation: requests are made until one is refused or the installer gives up, and then
        everything is undone.  Wherever that happens, at the partial last block or before, the device
        ends up as it was; otherwise every request was answered as by a flat disk. */
    method Install(ops: seq<Op>, giveUp: bool) returns (ok: bool, undone: bool, replies: seq<Reply>)
      requires Valid() && !uninstalling && Log() == [] && disk == Image()
      modifies this`disk, this`dirty, this`cachedBlock, this`uninstalling, this`uninstallDataI, cache, uninstallData,
          uninstallDataRev
      ensures Valid()
      ensures !ok ==> undone && disk == Image() == old(disk)
      ensures ok ==> (replies, Flat(Image(), |Log()|)) == FlatRun(old(Flat(Image(), 0)), ops)
      ensures ok ==> Recoverable(old(disk))
      ensures ok <==> !giveUp && Refused !in FlatRun(old(Flat(Image(), 0)), ops).0
    {
      hide View, CacheShape, Coherent, Overwrite, InRange, Sound, AgreesOff, LogInRange, GetsToTail, FlatStep;
      ghost var origin, start := disk, Flat(Image(), 0);
      NothingLogged(origin);
      replies, undone := [], false;
      assert ops[..0] == [];
      for i := 0 to |ops|
        invariant Valid() && !uninstalling && Recoverable(origin) && Refused !in replies
        invariant (replies, Flat(Image(), |Log()|)) == FlatRun(start, ops[..i])
      {
        OneMore(bs, tail, start, ops, i);
        ghost var s := Flat(Image(), |Log()|);
        TailIsRefused(bs, tail, s, ops[i]);
        var reply := Serve(ops[i], origin);
        if reply == Refused {
          RefusalStays(start, ops, i);
          undone := UndoInstall(origin);
          return false, undone, replies;
        }
        replies := replies + [reply];
      }
      assert ops[..|ops|] == ops;
      ok := !giveUp;
      if giveUp {
        undone := UndoInstall(origin);
      }
    }

    /** Serves a mix of reads, writes and flushes as a flat disk of the whole blocks would, refusals
        included, and stays able to roll back to the origin, as long as none of them reaches the tail.
        The answers are those of a flat disk up to the first that does, which is refused as well. */
    method Run(ops: seq<Op>, ghost origin: seq<Byte>) returns (replies: seq<Reply>)
      requires Valid() && !uninstalling && Recoverable(origin)
      modifies this`disk, this`dirty, this`cachedBlock, this`uninstallDataI, cache, uninstallData
      ensures Shape() && |disk| == |old(disk)| && |replies| == |ops|
      ensures old(StaysClear(bs, tail, Flat(Image(), |Log()|), ops)) ==>
        && Valid() && Recoverable(origin)
        && (replies, Flat(Image(), |Log()|)) == FlatRun(old(Flat(Image(), |Log()|)), ops)
      ensures forall n | 0 <= n < |ops| && old(StaysClear(bs, tail, Flat(Image(), |Log()|), ops[..n])) ::
        Answered(old(Flat(Image(), |Log()|)), ops, replies, n)
    {
      hide View, CacheShape, Coherent, Overwrite, InRange, Sound, AgreesOff, LogInRange, GetsToTail, FlatStep;
      replies := [];
      ghost var start, size := Flat(Image(), |Log()|), |disk|;
      assert ops[..0] == [];
      for i := 0 to |ops|
        invariant Shape() && !uninstalling && |disk| == size && |replies| == i
        invariant StaysClear(bs, tail, start, ops[..i]) ==>
          Valid() && Recoverable(origin) && (replies, Flat(Image(), |Log()|)) == FlatRun(start, ops[..i])
        invariant forall n | 0 <= n < i && StaysClear(bs, tail, start, ops[..n]) :: Answered(start, ops, replies, n)
      {
        OneMore(bs, tail, start, ops, i);
        TailIsRefused(bs, tail, FlatRun(start, ops[..i]).1, ops[i]);
        var reply := Serve(ops[i], origin);
        StillAnswered(start, ops, replies, reply);
        replies := replies + [reply];
        assert replies[..i + 1] == replies;
      }
      assert ops[..|ops|] == ops;
    }

    /** One operation: as on a flat disk if it does not reach the tail; else it is refused, with the
        tail's bytes left on the block that is cached. */
    method Serve(op: Op, ghost origin: seq<Byte>) returns (reply: Reply)
      requires Shape() && !uninstalling
      modifies this`disk, this`dirty, this`cachedBlock, this`uninstallDataI, cache, uninstallData
      ensures Shape() && |disk| == |old(disk)|
      ensures old(Valid() && Recoverable(origin) && !GetsToTail(bs, tail, Flat(Image(), |Log()|), op)) ==>
        && Valid() && Recoverable(origin)
        && (reply, Flat(Image(), |Log()|)) == FlatStep(old(Flat(Image(), |Log()|)), op)
      ensures old(Valid() && GetsToTail(bs, tail, Flat(Image(), |Log()|), op)) ==>
        reply == Refused && Log() == old(Log()) && TailOver(old(Image()))
      ensures old(Valid() && Recoverable(origin)) ==> Undoable(origin)
    {
      hide View, CacheShape, Coherent, Overwrite, Sound, AgreesOff, LogInRange, TailShows;
      match op
      case ReadOp(loc, count) =>
        var ok, data := Read(loc, count);
        reply := if ok then Data(data) else Refused;
      case WriteOp(loc, data) =>
        var ok := Write(data, loc, origin);
        reply := if ok then Done else Refused;
      case FlushOp =>
        var ok := FlushCache();
        reply := if ok then Done else Refused;
    }

    /** fwrite of zero bytes reports no item written, so a log with an empty record is refused. */
    method StoreUninstallData() returns (ok: bool, file: seq<Byte>)
      requires Shape()
      ensures ok <==> forall k | 0 <= k < |Log()| :: Log()[k].data != []
      ensures ok ==> file == Encode(Log())
    {
      hide Le, EncodeEntry;
      ghost var log := Log();
      file := Le(uninstallDataI, 8);
      var i := 0;
      assert log[..0] == [];
      while i < uninstallDataI
        invariant i <= uninstallDataI && file == Le(|log|, 8) + EncodeEntries(log[..i])
        invariant forall k | 0 <= k < i :: log[k].data != []
      {
        var e := uninstallData[i];
        assert log[..i + 1] == log[..i] + [log[i]] && e == log[i];
        EncodeEntriesLast(log[..i], e);
        EntryParts(e);
        file := file + Le(e.loc, 8);
        file := file + Le(|e.data|, 8);
        if |e.data| == 0 {
          assert Log()[i].data == [];
          return false, file;
        }
        file := file + e.data;
        i := i + 1;
      }
      assert log[..i] == log;
      ok := true;
    }

    /** The record count of the file is taken on trust: uninstall_data has room for LOG_MAX. */
    method LoadUninstallData(file: seq<Byte>) returns (ok: bool)
      requires Shape() && (|file| >= 8 ==> FromLe(file[..8]) <= LOG_MAX)
      modifies this`uninstallDataI, uninstallData
      ensures Shape() && disk == old(disk) && (old(Valid()) ==> Valid())
      ensures ok <==> Decode(file).Some?
      ensures ok ==> Log() == Decode(file).value
    {
      hide FromLe, DecodeEntry, View;
      if |file| < 8 {
        return false;
      }
      uninstallDataI := FromLe(file[..8]);
      var rest := file[8..];
      var i := 0;
      PrependNothing(DecodeEntries(rest, uninstallDataI));
      assert uninstallData[..0] == [];
      while i < uninstallDataI
        invariant i <= uninstallDataI && uninstallDataI == FromLe(file[..8]) && Shape()
        invariant Decode(file) == Prepend(uninstallData[..i], DecodeEntries(rest, uninstallDataI - i))
      {
        var first := DecodeEntry(rest);
        if first.None? {
          return false;
        }
        uninstallData[i] := first.value.0;
        assert uninstallData[..i + 1] == uninstallData[..i] + [first.value.0];
        PrependOne(uninstallData[..i], first.value.0, DecodeEntries(first.value.1, uninstallDataI - i - 1));
        rest := first.value.1;
        i := i + 1;
      }
      ok := true;
    }
  }

  datatype Op = ReadOp(loc: nat, count: nat) | WriteOp(loc: nat, data: seq<Byte>) | FlushOp
  datatype Reply = Data(data: seq<Byte>) | Done | Refused

  /** A disk without a cache, and how many writes it has logged. */
  datatype Flat = Flat(image: seq<Byte>, logged: nat)

  ghost function FlatStep(s: Flat, op: Op): (Reply, Flat)
  {
    match op
    case ReadOp(loc, count) =>
      (if InRange(|s.image|, loc, count) then Data(Slice(s.image, loc, count)) else Refused, s)
    case WriteOp(loc, data) =>
      if InRange(|s.image|, loc, |data|) && s.logged < LOG_MAX
      then (Done, Flat(Overwrite(s.image, loc, data), s.logged + 1))
      else (Refused, s)
    case FlushOp => (Done, s)
  }

  ghost function FlatRun(s: Flat, ops: seq<Op>): (seq<Reply>, Flat)
  {
    if ops == [] then ([], s)
    else
      var k := |ops| - 1;
      var (replies, s') := FlatRun(s, ops[..k]);
      var (reply, s'') := FlatStep(s', ops[k]);
      (replies + [reply], s'')
  }

  /** The request of an operation gets as far as the tail; a full log stops a write before. */
  predicate GetsToTail(bs: nat, tail: seq<Byte>, s: Flat, op: Op)
  {
    match op
    case ReadOp(loc, count) => ReachesTail(bs, |s.image|, tail, loc, count)
    case WriteOp(loc, data) => ReachesTail(bs, |s.image|, tail, loc, |data|) && s.logged < LOG_MAX
    case FlushOp => false
  }

  /** A flat disk of the whole blocks refuses a request that gets to the tail. */
  lemma TailIsRefused(bs: nat, tail: seq<Byte>, s: Flat, op: Op)
    ensures GetsToTail(bs, tail, s, op) ==> FlatStep(s, op) == (Refused, s)
  {
  }

  /** What was refused early on is among the answers to the whole run. */
  lemma {:induction false} RefusalStays(s: Flat, ops: seq<Op>, i: nat)
    requires i < |ops| && FlatStep(FlatRun(s, ops[..i]).1, ops[i]).0 == Refused
    ensures Refused in FlatRun(s, ops).0
    decreases |ops|
  {
    hide FlatStep;
    var k := |ops| - 1;
    if i < k {
      assert ops[..k][..i] == ops[..i] && ops[..k][i] == ops[i];
      RefusalStays(s, ops[..k], i);
    }
  }

  /** No operation of the run gets to the tail. */
  ghost predicate StaysClear(bs: nat, tail: seq<Byte>, s: Flat, ops: seq<Op>)
  {
    ops == [] ||
    var k := |ops| - 1;
    StaysClear(bs, tail, s, ops[..k]) && !GetsToTail(bs, tail, FlatRun(s, ops[..k]).1, ops[k])
  }

  /** The answers to the first n + 1 operations are those of a flat disk. */
  ghost predicate Answered(s: Flat, ops: seq<Op>, replies: seq<Reply>, n: nat)
  {
    n < |ops| && n < |replies| && replies[..n + 1] == FlatRun(s, ops[..n + 1]).0
  }

  lemma StillAnswered(s: Flat, ops: seq<Op>, replies: seq<Reply>, reply: Reply)
    ensures forall n | Answered(s, ops, replies, n) :: Answered(s, ops, replies + [reply], n)
  {
    forall n | Answered(s, ops, replies, n) ensures Answered(s, ops, replies + [reply], n) {
      assert (replies + [reply])[..n + 1] == replies[..n + 1];
    }
  }

  lemma OneMore(bs: nat, tail: seq<Byte>, s: Flat, ops: seq<Op>, i: nat)
    requires i < |ops|
    ensures StaysClear(bs, tail, s, ops[..i + 1])
      <==> StaysClear(bs, tail, s, ops[..i]) && !GetsToTail(bs, tail, FlatRun(s, ops[..i]).1, ops[i])
    ensures var (replies, s') := FlatRun(s, ops[..i]);
      var (reply, s'') := FlatStep(s', ops[i]);
      FlatRun(s, ops[..i + 1]) == (replies + [reply], s'')
  {
    hide GetsToTail, FlatStep;
    assert ops[..i + 1][..i] == ops[..i] && ops[..i + 1][i] == ops[i];
  }

  ghost function Prepend(log: seq<Entry>, rest: Option<seq<Entry>>): Option<seq<Entry>>
  {
    if rest.None? then None else Some(log + rest.value)
  }

  lemma PrependNothing(rest: Option<seq<Entry>>)
    ensures Prepend([], rest) == rest
  {
    if rest.Some? { assert [] + rest.value == rest.value; }
  }

  lemma PrependOne(log: seq<Entry>, e: Entry, rest: Option<seq<Entry>>)
    ensures Prepend(log, Prepend([e], rest)) == Prepend(log + [e], rest)
  {
    if rest.Some? { assert log + ([e] + rest.value) == log + [e] + rest.value; }
  }

  lemma EntryParts(e: Entry)
    ensures EncodeEntry(e) == Le(e.loc, 8) + Le(|e.data|, 8) + e.data
  {
  }

  ghost function Slice(image: seq<Byte>, loc: nat, count: nat): seq<Byte>
  {
    if loc + count <= |image| then image[loc..loc + count] else []
  }

  /** Completing a logged write keeps the rollback able to restore the origin. */
  lemma WriteIsRecoverable(origin: seq<Byte>, d: seq<Byte>, image: seq<Byte>, d': seq<Byte>, log: seq<Entry>, loc: nat,
      data: seq<Byte>)
    requires Sound(origin, log) && AgreesOff(origin, d, log) && AgreesOff(origin, image, log) && LogInRange(|d|, log)
    requires InRange(|image|, loc, |data|) && CaughtUp(d, image, d', loc, |data|)
    ensures var log' := log + [Entry(loc, Slice(image, loc, |data|))];
      && Sound(origin, log') && AgreesOff(origin, d', log') && AgreesOff(origin, Overwrite(image, loc, data), log')
      && LogInRange(|d'|, log')
  {
    var e := Entry(loc, Slice(image, loc, |data|));
    var log' := log + [e];
    assert log'[..|log|] == log;
    if loc + |data| <= |image| {
      LogWrite(origin, image, log, loc, data);
    } else {
      LogNothing(origin, image, log, loc);
      assert Overwrite(image, loc, data) == image;
    }
    forall i | 0 <= i < |origin| && !Covered(log', i) ensures d'[i] == origin[i] {
      CoveredSplit(log', i);
    }
  }

  lemma LogNothing(origin: seq<Byte>, image: seq<Byte>, log: seq<Entry>, loc: nat)
    requires Sound(origin, log) && AgreesOff(origin, image, log)
    ensures Sound(origin, log + [Entry(loc, [])]) && AgreesOff(origin, image, log + [Entry(loc, [])])
  {
    var log' := log + [Entry(loc, [])];
    assert log'[..|log|] == log;
    WiderLog(origin, image, log, Entry(loc, []));
    forall k, i | 0 <= k < |log'| && log'[k].Covers(i) && !Covered(log'[..k], i) && i < |origin|
      ensures log'[k].data[i - log'[k].loc] == origin[i]
    {
      assert log'[..k] == log[..k];
      assert log[k].Covers(i);
    }
  }

  /** Outside [loc, loc + count) every byte of d' is that of d or that of the image. */
  ghost predicate CaughtUp(d: seq<Byte>, image: seq<Byte>, d': seq<Byte>, loc: nat, count: nat)
  {
    && |d'| == |d| == |image|
    && forall i | 0 <= i < |d| && !(loc <= i < loc + count) :: d'[i] == d[i] || d'[i] == image[i]
  }

  lemma CaughtUpFirst(d: seq<Byte>, image: seq<Byte>, loc: nat, count: nat)
    requires |d| == |image|
    ensures CaughtUp(d, image, d, loc, count)
  {
  }

  lemma StillCaughtUp(d: seq<Byte>, image: seq<Byte>, d': seq<Byte>, loc: nat, buffer: seq<Byte>, p: nat)
    requires p <= |buffer| && CaughtUp(d, image, d', loc, |buffer|)
    ensures CaughtUp(d, image, Overwrite(image, loc, buffer[..p]), loc, |buffer|)
  {
  }

  lemma NothingWritten(image: seq<Byte>, loc: nat, buffer: seq<Byte>)
    ensures Overwrite(image, loc, buffer[..0]) == image
  {
  }

  /** The first p bytes from `at` on have been copied. */
  ghost predicate Copied(buffer: seq<Byte>, source: seq<Byte>, at: nat, p: nat)
  {
    |buffer| == p && (p > 0 ==> at + p <= |source| && buffer == source[at..at + p])
  }

  lemma NothingCopied(source: seq<Byte>, at: nat)
    ensures Copied([], source, at, 0)
  {
  }

  lemma CopyMore(buffer: seq<Byte>, source: seq<Byte>, at: nat, p: nat, piece: seq<Byte>)
    requires Copied(buffer, source, at, p) && at + p + |piece| <= |source|
    requires piece == source[at + p..at + p + |piece|]
    ensures Copied(buffer + piece, source, at, p + |piece|)
  {
  }

  lemma AllCopied(buffer: seq<Byte>, source: seq<Byte>, at: nat, count: nat)
    requires Copied(buffer, source, at, count)
    ensures buffer == Slice(source, at, count)
    ensures at + count <= |source| ==> buffer == source[at..at + count]
  {
  }

  /** For any file with a partial last block: asking for its first byte is refused, and after that
      the device's first byte reads as that byte, whatever it is. */
  method TailMistakenForBlock(file: seq<Byte>, blockSize: nat) returns (refused: bool, again: seq<Byte>)
    requires 0 < blockSize <= |file| && |file| % blockSize != 0
    ensures refused && again == [file[|file| - |file| % blockSize]]
  {
    hide View, Coherent, TailShows;
    var device := new Device(file, blockSize);
    SplitFile(file, blockSize, device.disk, device.tail);
    var ok, data := device.Read(|device.disk|, 1);
    refused := !ok;
    ok, again := device.Read(0, 1);
    assert again == device.tail[..1];
  }

  lemma SplitFile(file: seq<Byte>, bs: nat, disk: seq<Byte>, tail: seq<Byte>)
    requires 0 < bs <= |file| && |file| % bs != 0 && file == disk + tail && |disk| % bs == 0 && |tail| < bs
    ensures tail != [] && tail[0] == file[|file| - |file| % bs]
    ensures ReachesTail(bs, |disk|, tail, |disk|, 1) && BlockOf(0, bs) == OffsetIn(0, bs) == 0
  {
    var q := |disk| / bs;
    assert |disk| == q * bs;
    BlockBounds(|file|, bs, q);
    BlockBounds(0, bs, 0);
  }

  /** Storing the log of an installation, loading it in a later one and uninstalling: whatever the file
      has become by then where the log goes, the device gets its original contents back. */
  method UninstallLater(device: Device, later: seq<Byte>, ghost origin: seq<Byte>)
    returns (stored: bool, restored: bool, after: seq<Byte>)
    requires device.Shape() && Sound(origin, device.Log()) && LogInRange(|origin|, device.Log())
    requires AgreesOff(origin, later, device.Log()) && |later| < TWO64
    requires |later| % device.bs == 0 && device.bs <= |later|
    modifies device.uninstallData, device.uninstallDataRev
    ensures stored <==> forall e | e in old(device.Log()) :: e.data != []
    ensures stored ==> restored && after == origin
  {
    hide View, Coherent, Sound, AgreesOff, Encode, Decode, LogInRange, Straddles, Replay, Reversed;
    ghost var log := device.Log();
    AgreeingSize(origin, later, log);
    device.ReverseUninstallData();
    ReversedMembers(log);
    ReversedInRange(|origin|, log);
    var file;
    stored, file := device.StoreUninstallData();
    after, restored := [], false;
    if stored {
      StoredFits(|origin|, log);
      StoredLogRestores(origin, later, log);
      FileRoundTrip(Reversed(log));
      StoredCount(Reversed(log));
      ServedClearOfTail(|origin|, device.tail, Reversed(log));
      var next := new Device(later + device.tail, device.bs);
      SplitAgain(later, device.tail, next.disk, next.tail, device.bs);
      var loaded := next.LoadUninstallData(file);
      restored := next.Uninstall();
      after := next.disk;
    }
  }

  lemma ReversedMembers(log: seq<Entry>)
    ensures forall e :: e in Reversed(log) <==> e in log
  {
    forall k | 0 <= k < |log| ensures log[k] in Reversed(log) {
      assert log[k] == Reversed(log)[|log| - 1 - k];
    }
  }

  lemma StoredFits(size: nat, log: seq<Entry>)
    requires LogInRange(size, log) && size < TWO64 && forall e | e in log :: e.data != []
    ensures forall i | 0 <= i < |log| :: Fits(log[i]) && log[i].data != []
    ensures forall i | 0 <= i < |log| :: Fits(Reversed(log)[i]) && Reversed(log)[i].data != []
  {
    forall i | 0 <= i < |log| ensures Fits(log[i]) && log[i].data != [] {
      assert log[i] in log;
    }
  }

  lemma StoredCount(log: seq<Entry>)
    requires |log| <= LOG_MAX
    ensures |Encode(log)| >= 8 && FromLe(Encode(log)[..8]) == |log|
  {
    LimitIs64Bits();
    LeRoundTrip(|log|, 8);
    assert Encode(log)[..8] == Le(|log|, 8);
  }

  lemma SplitAgain(whole: seq<Byte>, rest: seq<Byte>, disk: seq<Byte>, tail: seq<Byte>, bs: nat)
    requires bs > 0 && |whole| % bs == 0 && |rest| < bs && |disk| % bs == 0 && |tail| < bs
    requires whole + rest == disk + tail
    ensures disk == whole && tail == rest
  {
    var q, r := |whole| / bs, |disk| / bs;
    assert |whole| == q * bs && |disk| == r * bs;
    BlockBounds(|whole| + |rest|, bs, q);
    BlockBounds(|whole| + |rest|, bs, r);
    assert disk == (disk + tail)[..|disk|] && whole == (whole + rest)[..|whole|];
    assert tail == (disk + tail)[|disk|..] && rest == (whole + rest)[|whole|..];
  }
}
