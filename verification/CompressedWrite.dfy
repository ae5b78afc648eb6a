/** Filling up a compression block: compress it, write it, free what was saved. The block is then
  * recognised as compressed, and what was written decodes to the text. */
module CompressedWrite {
  import opened Bytes
  import opened Lznt1Compress
  import opened CompressionSet
  import opened Runlist
  import opened SavedClusters
  import opened RunlistChecks
  import opened GatherRead
  import opened ClusterWrite

  /** A multiset of n clusters. */
  lemma FreedCount(runs: seq<Run>, v: int)
    requires v < End(runs, 0)
    ensures |multiset(ClustersFrom(runs, v))| == End(runs, 0) - v
  {
  }

  lemma CountOf(x: nat, q: nat, m: nat)
    requires m > 0 && x == q * m
    ensures x / m == q && x % m == 0
  {
    Unpack(q, 0, m);
  }

  lemma FewerMultiples(u: int, n: int, m: int)
    requires m > 0 && u * m <= n * m - m
    ensures u < n
  {
    Multiples(u - n, m);
    assert (u - n) * m == u * m - n * m;
  }

  lemma Sum(u: int, d: int, m: int, size: int)
    requires size == u * m
    ensures size + d * m == (u + d) * m
  {
  }

  /** A block of cb clusters, and an offset of d clusters. */
  ghost predicate BlockCounted(d: nat, roffs: nat, cb: nat, clusterSize: nat, blockSize: nat) {
    clusterSize > 0 && cb > 0 && blockSize == cb * clusterSize && roffs == d * clusterSize
  }

  /** An all-zero block needs no cluster, which leaves one free. */
  lemma NoBytes(d: nat, roffs: nat, cb: nat, clusterSize: nat, blockSize: nat)
    requires BlockCounted(d, roffs, cb, clusterSize, blockSize)
    ensures WholeClusters(0, clusterSize) && 0 <= blockSize - clusterSize
  {
    Multiples(cb, clusterSize);
  }

  /** The bytes used and the bytes reserved, seen as clusters. */
  lemma Reserved(d: nat, roffs: nat, cb: nat, clusterSize: nat, blockSize: nat, size: nat)
    requires BlockCounted(d, roffs, cb, clusterSize, blockSize)
    requires WholeClusters(size, clusterSize) && size <= blockSize - clusterSize
    ensures clusterSize > 0 && InClusters(size + roffs, blockSize + roffs, clusterSize)
    ensures VcnOf(blockSize + roffs, clusterSize) == cb + d
    ensures VcnOf(size + roffs, clusterSize) == VcnOf(size, clusterSize) + d
    ensures 0 <= VcnOf(size, clusterSize) < cb
  {
    var u, z := Divide(size, clusterSize);
    FewerMultiples(u, cb, clusterSize);
    Sum(u, d, clusterSize, size);
    Sum(cb, d, clusterSize, blockSize);
    CountOf(size + roffs, u + d, clusterSize);
    CountOf(blockSize + roffs, cb + d, clusterSize);
  }

  /** Run r starts d clusters before the last compression block, which ends the runlist. */
  ghost predicate LastBlock(runs: seq<Run>, r: nat, d: nat, cb: nat) {
    && cb > 0 && r < |runs| && Allocated(runs[r..])
    && AtBlockEnd(End(runs, 0), cb) && runs[r].vcn + d + cb == End(runs, 0)
  }

  /** The block is a hole, and its text is zero. */
  ghost predicate Hollow(runs: seq<Run>, start: int, cb: nat, text: seq<byte>) {
    (forall v :: start <= v < start + cb ==> Lcn(runs, v) == LCN_HOLE) && AllZero(text)
  }

  /** The block holds the compressed text, and behind it a hole. */
  ghost predicate Packed(runs: seq<Run>, vol: Volume, start: int, cb: nat, text: seq<byte>, image: seq<byte>)
    requires vol.clusterSize > 0
  {
    && 0 < |image| <= cb * vol.clusterSize - vol.clusterSize && WholeClusters(|image|, vol.clusterSize)
    && Stored(runs, vol, ByteOf(start, vol.clusterSize), image, |image|)
    && (forall v :: start + VcnOf(|image|, vol.clusterSize) <= v < start + cb ==> Lcn(runs, v) == LCN_HOLE)
    && Readable(image, text)
  }

  /** The block holds the text, and is allocated as a whole. */
  ghost predicate Plain(runs: seq<Run>, vol: Volume, start: int, cb: nat, text: seq<byte>, data: seq<byte>)
    requires vol.clusterSize > 0
  {
    && text <= data && |data| <= cb * vol.clusterSize
    && Stored(runs, vol, ByteOf(start, vol.clusterSize), data, |data|)
    && Full(runs, start, start + cb)
  }

  /** The text is in the block, in one way or another. */
  ghost predicate BlockHolds(runs: seq<Run>, vol: Volume, start: int, cb: nat, text: seq<byte>)
    requires vol.clusterSize > 0
  {
    || Hollow(runs, start, cb, text)
    || (exists image :: Packed(runs, vol, start, cb, text, image))
    || (exists data :: Plain(runs, vol, start, cb, text, data))
  }

  /** Where the last block is, in bytes, and that it has room. */
  lemma BlockBytes(runs: seq<Run>, r: nat, d: nat, cb: nat, roffs: nat, clusterSize: nat, blockSize: nat)
    requires LastBlock(runs, r, d, cb) && BlockCounted(d, roffs, cb, clusterSize, blockSize)
    ensures clusterSize > 0 && cb > 0
    ensures ByteOf(runs[r].vcn, clusterSize) + roffs == ByteOf(End(runs, 0) - cb, clusterSize)
    ensures ByteOf(End(runs, 0) - cb, clusterSize) + blockSize == ByteOf(End(runs, 0), clusterSize)
    ensures forall k :: r <= k < |runs| ==> runs[k].lcn >= 0
  {
    ByteOfSum(runs[r].vcn, d, clusterSize);
    ByteOfSum(runs[r].vcn + d, cb, clusterSize);
    assert forall k :: r <= k < |runs| ==> runs[k] == runs[r..][k - r];
  }

  /** The last block is allocated. */
  lemma LastIsFull(runs: seq<Run>, r: nat, d: nat, cb: nat)
    requires Contiguous(runs, 0) && LastBlock(runs, r, d, cb)
    ensures Full(runs, End(runs, 0) - cb, End(runs, 0))
  {
    forall v | End(runs, 0) - cb <= v < End(runs, 0) ensures Lcn(runs, v) >= 0 {
      Next(runs, 0, r);
      var k := RunOf(runs, 0, v);
      if k < r {
        InFront(runs, k, r);
      }
      assert runs[k] == runs[r..][k - r];
      LcnAt(runs, 0, k, v);
    }
  }

  /** What is stored in front of the hole stays stored. */
  lemma StoredKept(now: seq<Run>, runs: seq<Run>, v: int, vol: Volume, pos: int, data: seq<byte>)
    requires vol.clusterSize > 0 && HoleFrom(now, runs, v) && Stored(runs, vol, pos, data, |data|)
    requires pos + |data| <= ByteOf(v, vol.clusterSize)
    ensures Stored(now, vol, pos, data, |data|)
  {
    hide Contiguous, End, Lcn, ByteOf, VcnOf, InCluster;
    var size := vol.clusterSize;
    forall i | 0 <= i < |data| ensures StoredAt(now, vol, pos + i, data[i]) {
      assert StoredAt(runs, vol, pos + i, data[i]);
      var w := VcnOf(pos + i, size);
      Position(pos + i, size);
      ByteOfLess(w, v, size);
    }
  }

  /** The number of clusters of whole clusters. */
  lemma WholeBytes(start: int, n: nat, clusterSize: nat)
    requires WholeClusters(n, clusterSize)
    ensures clusterSize > 0 && ByteOf(start + VcnOf(n, clusterSize), clusterSize) == ByteOf(start, clusterSize) + n
  {
    var q, z := Divide(n, clusterSize);
    ByteOfSum(start, q, clusterSize);
  }

  /** After writing and freeing, the block holds the text compressed. */
  lemma NowPacked(now: seq<Run>, runs: seq<Run>, vol: Volume, start: int, cb: nat, text: seq<byte>, image: seq<byte>)
    requires vol.clusterSize > 0 && start + cb == End(runs, 0)
    requires 0 < |image| <= cb * vol.clusterSize - vol.clusterSize && WholeClusters(|image|, vol.clusterSize)
    requires Stored(runs, vol, ByteOf(start, vol.clusterSize), image, |image|) && Readable(image, text)
    requires HoleFrom(now, runs, start + VcnOf(|image|, vol.clusterSize))
    ensures BlockHolds(now, vol, start, cb, text)
  {
    hide Readable, Stored;
    var v := start + VcnOf(|image|, vol.clusterSize);
    WholeBytes(start, |image|, vol.clusterSize);
    StoredKept(now, runs, v, vol, ByteOf(start, vol.clusterSize), image);
    assert Packed(now, vol, start, cb, text, image);
  }

  lemma NowHollow(now: seq<Run>, runs: seq<Run>, vol: Volume, start: int, cb: nat, text: seq<byte>)
    requires vol.clusterSize > 0 && start + cb == End(runs, 0) && SeenAsZero(text)
    requires HoleFrom(now, runs, start + VcnOf(0, vol.clusterSize))
    ensures BlockHolds(now, vol, start, cb, text)
  {
    assert Hollow(now, start, cb, text);
  }

  lemma NowPlain(runs: seq<Run>, vol: Volume, start: int, cb: nat, text: seq<byte>, data: seq<byte>)
    requires vol.clusterSize > 0 && text <= data && |data| <= cb * vol.clusterSize
    requires Stored(runs, vol, ByteOf(start, vol.clusterSize), data, |data|) && Full(runs, start, start + cb)
    ensures BlockHolds(runs, vol, start, cb, text)
  {
    assert Plain(runs, vol, start, cb, text, data);
  }

  /** Whole clusters for the first `count` bytes of a block. */
  lemma RoundedInBlock(count: nat, clusterSize: nat, cb: nat)
    requires 0 < count <= cb * clusterSize && clusterSize > 0
    ensures count <= RoundUp(count, clusterSize) <= cb * clusterSize
  {
    var q := RoundUpMultiple(count, clusterSize);
    ByteOfLess(q, cb, clusterSize);
    Multiples(cb - (q + 1), clusterSize);
    assert (cb - (q + 1)) * clusterSize == cb * clusterSize - (q + 1) * clusterSize;
  }

  /** Free the clusters of the block behind the `written` bytes. */
  method FreeSaved(a: array<Run>, r: nat, written: nat, roffs: nat, blockSize: nat, clusterSize: nat, cb: nat,
                   freeOk: bool, updateFrom0: int, ghost runs: seq<Run>, ghost d: nat)
    returns (done: bool, freed: multiset<int>, updateFrom: int, ghost now: seq<Run>)
    requires Holds(a[..], runs) && |runs| + 1 < a.Length && LastBlock(runs, r, d, cb)
    requires BlockCounted(d, roffs, cb, clusterSize, blockSize)
    requires WholeClusters(written, clusterSize) && written <= blockSize - clusterSize
    modifies a
    ensures clusterSize > 0 && done == freeOk
    ensures done ==>
              && Holds(a[..], now) && Terminated(a[..], now)
              && HoleFrom(now, runs, End(runs, 0) - cb + VcnOf(written, clusterSize))
    ensures done ==> HasHole(now, End(runs, 0) - cb, cb) && |freed| == cb - VcnOf(written, clusterSize) > 0
    ensures done ==> SameBefore(now, runs, updateFrom)
  {
    assert cb > 0 && r < |runs| && Allocated(runs[r..]) && AtBlockEnd(End(runs, 0), cb)
      && runs[r].vcn + d + cb == End(runs, 0);
    hide *;
    Reserved(d, roffs, cb, clusterSize, blockSize, written);
    var freeRes;
    freeRes, freed, updateFrom, now :=
      CompressFree(a, r, written + roffs, blockSize + roffs, clusterSize, cb, updateFrom0, freeOk, runs);
    done := freeRes == 0;
    if done {
      ghost var v := runs[r].vcn + VcnOf(written + roffs, clusterSize);
      CompressedHole(now, runs, v, cb);
      SavedBlockIsCompressed(now, runs, v, cb);
      FreedCount(runs, v);
    }
  }

  lemma CompressedHole(now: seq<Run>, runs: seq<Run>, v: int, cb: nat)
    requires cb > 0 && Compressed(now, runs, v, cb)
    ensures HoleFrom(now, runs, v)
  {
  }

  /** Write some data through run r at offset roffs, the beginning of the last block. */
  method WriteBlock(dev: array<byte>, a: array<Run>, r: nat, roffs: nat, data: seq<byte>, clusterSize: nat, cb: nat,
                    accepted: seq<bool>, ghost runs: seq<Run>, ghost d: nat, ghost blockSize: nat)
    returns (ok: bool)
    requires Holds(a[..], runs) && LastBlock(runs, r, d, cb) && BlockCounted(d, roffs, cb, clusterSize, blockSize)
    requires Separate(runs) && OnVolume(runs, dev.Length, clusterSize) && 0 < |data| <= blockSize
    modifies dev
    ensures clusterSize > 0
    ensures ok ==> Stored(runs, Volume(dev[..], clusterSize), ByteOf(End(runs, 0) - cb, clusterSize), data, |data|)
    ensures OnlyOwned(dev[..], old(dev[..]), runs, clusterSize)
    ensures accepted == [] && roffs <= ByteOf(runs[r].length, clusterSize) ==> ok
  {
    assert r < |runs|;
    BlockBytes(runs, r, d, cb, roffs, clusterSize, blockSize);
    hide *;
    var put := WriteClusters(dev, a[..], r, roffs, data, clusterSize, accepted, runs);
    ok := put == |data|;
  }

  /** What flushing leaves: the text in the last block, and everything in front of it mapped as before. */
  ghost predicate Flushed(now: seq<Run>, runs: seq<Run>, vol: Volume, cb: nat, text: seq<byte>)
    requires vol.clusterSize > 0
  {
    && Contiguous(now, 0) && End(now, 0) == End(runs, 0)
    && (forall v :: v < End(runs, 0) - cb ==> Lcn(now, v) == Lcn(runs, v))
    && (forall v :: Lcn(now, v) >= 0 ==> Lcn(now, v) == Lcn(runs, v))
    && BlockHolds(now, vol, End(runs, 0) - cb, cb, text)
  }

  lemma FlushedNow(now: seq<Run>, runs: seq<Run>, vol: Volume, cb: nat, text: seq<byte>, v: int)
    requires vol.clusterSize > 0 && BlockHolds(now, vol, End(runs, 0) - cb, cb, text)
    requires HoleFrom(now, runs, v) && End(runs, 0) - cb <= v
    ensures Flushed(now, runs, vol, cb, text)
  {
    hide BlockHolds;
    forall u | Lcn(now, u) >= 0 ensures Lcn(now, u) == Lcn(runs, u) {
      LcnRange(now, 0, u);
    }
  }

  lemma FlushedPlain(runs: seq<Run>, vol: Volume, cb: nat, text: seq<byte>)
    requires vol.clusterSize > 0 && Contiguous(runs, 0) && BlockHolds(runs, vol, End(runs, 0) - cb, cb, text)
    ensures Flushed(runs, runs, vol, cb, text)
  {
  }

  lemma SameAsBefore(runs: seq<Run>, u: int)
    ensures SameBefore(runs, runs, u)
  {
  }

  lemma ClustersUsed(n: nat, clusterSize: nat)
    requires clusterSize > 0
    ensures VcnOf(n, clusterSize) >= 0 && VcnOf(0, clusterSize) == 0 && WholeClusters(0, clusterSize)
  {
  }

  /** ntfs_flush, when the block is to be compressed and can be: the image is written, and the clusters saved are
    * freed. */
  method FlushCompressed(dev: array<byte>, a: array<Run>, r: nat, roffs: nat, image: seq<byte>, blockSize: nat,
                         clusterSize: nat, cb: nat, accepted: seq<bool>, freeOk: bool, updateFrom0: int,
                         ghost runs: seq<Run>, ghost d: nat, ghost text: seq<byte>)
    returns (written: int, freed: multiset<int>, updateFrom: int, ghost now: seq<Run>)
    requires Holds(a[..], runs) && |runs| + 1 < a.Length && LastBlock(runs, r, d, cb)
    requires BlockCounted(d, roffs, cb, clusterSize, blockSize)
    requires Separate(runs) && OnVolume(runs, dev.Length, clusterSize)
    requires WholeClusters(|image|, clusterSize) && |image| <= blockSize - clusterSize
    requires if image == [] then SeenAsZero(text) else Readable(image, text)
    modifies dev, a
    ensures clusterSize > 0
    ensures written >= 0 ==>
              && written == |image| && Holds(a[..], now) && Terminated(a[..], now)
              && Flushed(now, runs, Volume(dev[..], clusterSize), cb, text)
              && |freed| == cb - VcnOf(written, clusterSize) > 0 && SameBefore(now, runs, updateFrom)
    ensures OnlyOwned(dev[..], old(dev[..]), runs, clusterSize)
    ensures freeOk && accepted == [] && roffs <= ByteOf(runs[r].length, clusterSize) ==> written >= 0
  {
    ghost var first, start := dev[..], End(runs, 0) - cb;
    assert r < |runs| && clusterSize > 0 && blockSize == cb * clusterSize && cb > 0;
    hide *;
    NothingStored(runs, Volume(first, clusterSize), 0, []);
    freed, updateFrom, now := multiset{}, updateFrom0, runs;
    if image != [] {
      var ok := WriteBlock(dev, a, r, roffs, image, clusterSize, cb, accepted, runs, d, blockSize);
      if !ok {
        return -2, freed, updateFrom, now;
      }
    }
    ghost var vol := Volume(dev[..], clusterSize);
    var done;
    done, freed, updateFrom, now :=
      FreeSaved(a, r, |image|, roffs, blockSize, clusterSize, cb, freeOk, updateFrom, runs, d);
    written := if done then |image| else -1;
    if done {
      if image != [] {
        NowPacked(now, runs, vol, start, cb, text, image);
      } else {
        NowHollow(now, runs, vol, start, cb, text);
      }
      ClustersUsed(written, clusterSize);
      FlushedNow(now, runs, vol, cb, text, start + VcnOf(written, clusterSize));
    }
  }

  /** ntfs_flush: fills the last compression block with the first `count` bytes of the buffer, compressed, if this
    * is wanted and saves a cluster, or else as they are. The number of bytes written, or a negative number. The
    * block is reached through run r at offset roffs. */
  method FlushBlock(dev: array<byte>, a: array<Run>, r: nat, roffs: nat, buf: seq<byte>, count: nat, clusterSize: nat,
                    cb: nat, compress: bool, accepted: seq<bool>, freeOk: bool, updateFrom0: int,
                    ghost runs: seq<Run>, ghost d: nat)
    returns (written: int, freed: multiset<int>, updateFrom: int, ghost now: seq<Run>)
    requires Holds(a[..], runs) && Terminated(a[..], runs) && |runs| + 1 < a.Length && LastBlock(runs, r, d, cb)
    requires Geometry(|buf|, clusterSize) && 0 < count <= |buf| && BlockCounted(d, roffs, cb, clusterSize, |buf|)
    requires Separate(runs) && OnVolume(runs, dev.Length, clusterSize)
    modifies dev, a
    ensures clusterSize > 0
    ensures written >= 0 ==>
              && Holds(a[..], now) && Terminated(a[..], now)
              && Flushed(now, runs, Volume(dev[..], clusterSize), cb, buf[..count])
    ensures written >= 0 ==> now == runs || |freed| == cb - VcnOf(written, clusterSize) > 0
    ensures written >= 0 ==> SameBefore(now, runs, updateFrom)
    ensures OnlyOwned(dev[..], old(dev[..]), runs, clusterSize)
    ensures freeOk && accepted == [] && roffs <= ByteOf(runs[r].length, clusterSize) ==> written >= 0
  {
    assert r < |runs| && clusterSize > 0 && |buf| == cb * clusterSize && cb > 0 && Contiguous(runs, 0);
    LastIsFull(runs, r, d, cb);
    hide *;
    if compress {
      var res, image;
      ghost var prefix, done;
      res, image, prefix, done := CompSet(|buf|, clusterSize, buf[..count], true);
      if !res.NotCompressible? {
        ClustersUsed(0, clusterSize);
        NoBytes(d, roffs, cb, clusterSize, |buf|);
        written, freed, updateFrom, now :=
          FlushCompressed(dev, a, r, roffs, image, |buf|, clusterSize, cb, accepted, freeOk, updateFrom0, runs, d,
                          buf[..count]);
        return;
      }
    }
    RoundedInBlock(count, clusterSize, cb);
    var rounded := RoundUp(count, clusterSize);
    freed, updateFrom, now := multiset{}, updateFrom0, runs;
    var ok := WriteBlock(dev, a, r, roffs, buf[..rounded], clusterSize, cb, accepted, runs, d, |buf|);
    written := if ok then rounded else -1;
    if ok {
      ghost var vol, start := Volume(dev[..], clusterSize), End(runs, 0) - cb;
      NowPlain(runs, vol, start, cb, buf[..count], buf[..rounded]);
      FlushedPlain(runs, vol, cb, buf[..count]);
      SameAsBefore(runs, updateFrom);
    }
  }
}
