/** Reading a compression block back, whether it was stored compressed, as it is, or as a hole. */
module CompressedRead {
  import opened Bytes
  import opened Lznt1Format
  import opened Lznt1Compress
  import opened Lznt1Decompress
  import opened CompressionSet
  import opened Runlist
  import opened RunlistChecks
  import opened GatherRead
  import opened ClusterWrite
  import opened CompressedWrite

  /** The attribute as it is read: as if it were plain, and initialized as far as it is allocated. */
  ghost predicate AsAllocated(na: Attribute, vol: Volume) {
    && vol.clusterSize > 0 && Mapped(na) && OnVolume(na.runs, |vol.dev|, vol.clusterSize)
    && na.dataSize == na.initializedSize == ByteOf(End(na.runs, 0), vol.clusterSize)
  }

  lemma AllocatedIsComplete(na: Attribute, vol: Volume)
    requires AsAllocated(na, vol)
    ensures Complete(na, vol)
  {
    forall k | 0 <= k < |na.runs| && na.runs[k].lcn >= 0
      ensures ByteOf(na.runs[k].lcn, vol.clusterSize) + ByteOf(na.runs[k].length, vol.clusterSize) <= |vol.dev|
    {
      RunOnVolume(na.runs, |vol.dev|, vol.clusterSize, k);
    }
  }

  /** A byte that is stored is the byte that is read, and in a hole it is zero. */
  lemma ReadsStored(na: Attribute, vol: Volume, p: int, x: byte, y: byte)
    requires vol.clusterSize > 0 && IsByte(na, vol, p, x) && p < na.initializedSize
    ensures StoredAt(na.runs, vol, p, y) ==> x == y
    ensures p >= 0 && Lcn(na.runs, VcnOf(p, vol.clusterSize)) == LCN_HOLE ==> x == 0
  {
  }

  /** What was read of a block that holds a compressed text. */
  lemma ReadsPacked(na: Attribute, vol: Volume, start: nat, cb: nat, text: seq<byte>, image: seq<byte>, b: seq<byte>)
    requires AsAllocated(na, vol) && Packed(na.runs, vol, start, cb, text, image) && start + cb <= End(na.runs, 0)
    requires |b| == ByteOf(cb, vol.clusterSize) && Gathered(na, vol, ByteOf(start, vol.clusterSize), b, 0, |b|)
    ensures |image| <= |b| && b == image + Zeros(|b| - |image|)
  {
    var size := vol.clusterSize;
    var pos, used := ByteOf(start, size), VcnOf(|image|, size);
    ByteOfSum(start, cb, size);
    ByteOfSum(start + cb, End(na.runs, 0) - (start + cb), size);
    Nonnegative(End(na.runs, 0) - (start + cb), size);
    Nonnegative(start, size);
    WholeBytes(start, |image|, size);
    assert |image| <= |b|;
    var all := image + Zeros(|b| - |image|);
    hide IsByte, StoredAt, AsAllocated, End, Contiguous, Lcn, VcnOf, ByteOf, Readable, Zeros;
    forall i | 0 <= i < |b| ensures b[i] == all[i] {
      var p := pos + i;
      assert IsByte(na, vol, p, b[i]);
      if i < |image| {
        ReadsStored(na, vol, p, b[i], image[i]);
      } else {
        InsideClusters(start + used, cb - used, p, size) by {
          ByteOfSum(start, used, size);
          ByteOfSum(start + used, cb - used, size);
        }
        ReadsStored(na, vol, p, b[i], 0);
      }
    }
  }

  lemma ReadsPlain(na: Attribute, vol: Volume, start: nat, cb: nat, text: seq<byte>, data: seq<byte>, b: seq<byte>)
    requires AsAllocated(na, vol) && Plain(na.runs, vol, start, cb, text, data) && start + cb <= End(na.runs, 0)
    requires |b| == ByteOf(cb, vol.clusterSize) && Gathered(na, vol, ByteOf(start, vol.clusterSize), b, 0, |b|)
    ensures text <= b
  {
    var size := vol.clusterSize;
    ByteOfSum(start, cb, size);
    ByteOfSum(start + cb, End(na.runs, 0) - (start + cb), size);
    Nonnegative(End(na.runs, 0) - (start + cb), size);
    hide IsByte, StoredAt, AsAllocated, End, Contiguous, Lcn, VcnOf;
    forall i | 0 <= i < |text| ensures b[i] == text[i] {
      assert IsByte(na, vol, ByteOf(start, size) + i, b[i]);
      ReadsStored(na, vol, ByteOf(start, size) + i, b[i], data[i]);
    }
  }

  lemma PackedFirst(runs: seq<Run>, vol: Volume, start: nat, cb: nat, text: seq<byte>, image: seq<byte>)
    requires vol.clusterSize > 0 && cb > 0 && Packed(runs, vol, start, cb, text, image)
    ensures Lcn(runs, start) >= 0 && HasHole(runs, start, cb)
  {
    var size := vol.clusterSize;
    hide Readable, Lcn, IsByte;
    assert StoredAt(runs, vol, ByteOf(start, size) + 0, image[0]);
    ClusterOf(start, 0, size);
    var used, z := Divide(|image|, size);
    FewerMultiples(used, cb, size);
    assert Lcn(runs, start + used) == LCN_HOLE;
  }

  lemma PlainFirst(runs: seq<Run>, vol: Volume, start: nat, cb: nat, text: seq<byte>, data: seq<byte>)
    requires vol.clusterSize > 0 && cb > 0 && Plain(runs, vol, start, cb, text, data)
    ensures Lcn(runs, start) >= 0 && !HasHole(runs, start, cb)
  {
    hide Stored, Lcn;
  }

  lemma HollowFirst(runs: seq<Run>, start: nat, cb: nat, text: seq<byte>)
    requires cb > 0 && Hollow(runs, start, cb, text)
    ensures Lcn(runs, start) == LCN_HOLE && AllZero(text)
  {
  }

  /** In which way the block is stored, seen from its first cluster. */
  lemma FirstCluster(runs: seq<Run>, vol: Volume, start: nat, cb: nat, text: seq<byte>)
    requires vol.clusterSize > 0 && cb > 0 && BlockHolds(runs, vol, start, cb, text)
    ensures Lcn(runs, start) >= LCN_HOLE
    ensures Lcn(runs, start) == LCN_HOLE ==> AllZero(text)
    ensures Lcn(runs, start) >= 0 && HasHole(runs, start, cb) ==>
            exists image :: Packed(runs, vol, start, cb, text, image)
    ensures Lcn(runs, start) >= 0 && !HasHole(runs, start, cb) ==>
            exists data :: Plain(runs, vol, start, cb, text, data)
  {
    hide Packed, Plain, Hollow, HasHole, Lcn, AllZero;
    if Hollow(runs, start, cb, text) {
      HollowFirst(runs, start, cb, text);
    } else if image :| Packed(runs, vol, start, cb, text, image) {
      PackedFirst(runs, vol, start, cb, text, image);
    } else {
      var data :| Plain(runs, vol, start, cb, text, data);
      PlainFirst(runs, vol, start, cb, text, data);
    }
  }

  lemma BlockInside(na: Attribute, start: nat, cb: nat, clusterSize: nat)
    requires clusterSize > 0 && cb > 0 && start + cb <= End(na.runs, 0)
    requires na.dataSize == ByteOf(End(na.runs, 0), clusterSize)
    ensures 0 <= ByteOf(start, clusterSize) && 0 < ByteOf(cb, clusterSize)
    ensures Covered(na, ByteOf(start, clusterSize), ByteOf(cb, clusterSize)) == ByteOf(cb, clusterSize)
  {
    var e := End(na.runs, 0);
    hide End, ByteOf;
    Nonnegative(start, clusterSize);
    ByteOfGrows(cb, clusterSize);
    ByteOfSum(start, cb, clusterSize);
    ByteOfSum(start + cb, e - (start + cb), clusterSize);
    Nonnegative(e - (start + cb), clusterSize);
  }

  lemma MapsOne(runs: seq<Run>, k: nat, v: int)
    requires Contiguous(runs, 0) && k < |runs| && Maps(runs[k], v)
    ensures LCN_HOLE == -1 && runs[k].lcn >= LCN_HOLE
    ensures runs[k].lcn == LCN_HOLE <==> Lcn(runs, v) == LCN_HOLE
    ensures runs[k].lcn >= 0 <==> Lcn(runs, v) >= 0
  {
    LcnAt(runs, 0, k, v);
    Next(runs, 0, k);
  }

  lemma ZeroText(text: seq<byte>, size: nat)
    requires AllZero(text) && |text| <= size
    ensures text <= Zeros(size)
  {
  }

  lemma Unpacks(runs: seq<Run>, vol: Volume, start: int, cb: nat, text: seq<byte>, image: seq<byte>, b: seq<byte>,
                size: nat)
    requires vol.clusterSize > 0 && Packed(runs, vol, start, cb, text, image)
    requires |image| <= |b| == size && b == image + Zeros(size - |image|) && size % SB_SIZE == 0 && |text| <= size
    ensures Stream(b, 0, size) == Whole(Padded(text)) == Reading(Some(Padded(text)), None, false)
    ensures |Padded(text)| <= size
  {
    hide Stream, Readable, Padded;
    ReadBack(image, text, Zeros(size - |image|), size);
  }

  lemma BeginsWith(text: seq<byte>, all: seq<byte>, out: seq<byte>)
    requires text <= all && |all| <= |out| && out[..|all|] == all
    ensures text <= out
  {
    assert forall i :: 0 <= i < |text| ==> out[i] == out[..|all|][i];
  }

  /** Read the compression block of cb clusters at vcn `start`. */
  method ReadBlock(a: array<Run>, dev: seq<byte>, clusterSize: nat, start: nat, cb: nat, allocSize: nat,
                   ghost runs: seq<Run>, ghost text: seq<byte>)
    returns (ok: bool, out: seq<byte>)
    requires Holds(a[..], runs) && Terminated(a[..], runs) && clusterSize > 0 && cb > 0
    requires Geometry(ByteOf(cb, clusterSize), clusterSize) && OnVolume(runs, |dev|, clusterSize)
    requires start + cb <= End(runs, 0) && allocSize == ByteOf(End(runs, 0), clusterSize)
    requires BlockHolds(runs, Volume(dev, clusterSize), start, cb, text) && |text| <= ByteOf(cb, clusterSize)
    ensures ok && text <= out && |out| == ByteOf(cb, clusterSize)
  {
    var vol := Volume(dev, clusterSize);
    var na := Attribute(a[..], runs, allocSize, allocSize);
    AllocatedIsComplete(na, vol);
    FirstCluster(runs, vol, start, cb, text);
    BlockInside(na, start, cb, clusterSize);
    var size := ByteOf(cb, clusterSize);
    assert size % SB_SIZE == 0 && a[..][..|runs|] == runs && Contiguous(runs, 0);
    hide *;
    var found := FindVcn(na, start);
    if !found.At? {
      return false, [];
    }
    var k := found.k;
    MapsOne(runs, k, start);
    assert a[k] == a[..][k] == a[..][..|runs|][k];
    if a[k].lcn == LCN_HOLE {
      ZeroText(text, size);
      return true, Zeros(size);
    }
    var compressed := IsCbCompressed(a, k, start, cb, runs);
    var buf := new byte[size];
    var n := Pread(na, vol, ByteOf(start, clusterSize), size, buf, []);
    if n != size {
      return false, [];
    }
    if !compressed {
      ghost var data :| Plain(runs, vol, start, cb, text, data);
      ReadsPlain(na, vol, start, cb, text, data, buf[..]);
      return true, buf[..];
    }
    ghost var image :| Packed(runs, vol, start, cb, text, image);
    ReadsPacked(na, vol, start, cb, text, image, buf[..]);
    Unpacks(runs, vol, start, cb, text, image, buf[..], size);
    var dest := new byte[size];
    assert buf[..][..size] == buf[..];
    var res, peeked := Decompress(dest, size, buf[..], size, 0);
    BeginsWith(text, Padded(text), dest[..]);
    return res == 0, dest[..];
  }

  /** The law of compressed files: what is flushed to the last block is read back through the new runlist, and
    * what was in front of it is mapped as before. */
  method FlushThenRead(dev: array<byte>, a: array<Run>, r: nat, roffs: nat, buf: seq<byte>, count: nat,
                       clusterSize: nat, cb: nat, compress: bool, accepted: seq<bool>, freeOk: bool, start: nat,
                       ghost runs: seq<Run>, ghost d: nat)
    returns (written: int, out: seq<byte>, ghost now: seq<Run>)
    requires Holds(a[..], runs) && Terminated(a[..], runs) && |runs| + 1 < a.Length && LastBlock(runs, r, d, cb)
    requires Geometry(|buf|, clusterSize) && 0 < count <= |buf| && BlockCounted(d, roffs, cb, clusterSize, |buf|)
    requires Separate(runs) && OnVolume(runs, dev.Length, clusterSize) && start + cb == End(runs, 0)
    modifies dev, a
    ensures written >= 0 ==> buf[..count] <= out
    ensures freeOk && accepted == [] && roffs <= ByteOf(runs[r].length, clusterSize) ==> written >= 0
    ensures written >= 0 ==> End(now, 0) == End(runs, 0) && forall v :: v < start ==> Lcn(now, v) == Lcn(runs, v)
    ensures OnlyOwned(dev[..], old(dev[..]), runs, clusterSize)
  {
    assert clusterSize > 0 && cb > 0 && |buf| == ByteOf(cb, clusterSize);
    hide Separate, LastBlock, Holds, Terminated, Geometry, OnVolume, OnlyOwned, Lcn, End, BlockHolds, Contiguous;
    ghost var freed, updateFrom;
    written, freed, updateFrom, now :=
      FlushBlock(dev, a, r, roffs, buf, count, clusterSize, cb, compress, accepted, freeOk, 0, runs, d);
    out := [];
    if written >= 0 {
      StillOnVolume(now, runs, Volume(dev[..], clusterSize), cb, buf[..count]);
      var ok;
      ok, out := ReadBlock(a, dev[..], clusterSize, start, cb, (start + cb) * clusterSize, now, buf[..count]);
    }
  }

  lemma StillOnVolume(now: seq<Run>, runs: seq<Run>, vol: Volume, cb: nat, text: seq<byte>)
    requires vol.clusterSize > 0 && OnVolume(runs, |vol.dev|, vol.clusterSize) && Flushed(now, runs, vol, cb, text)
    ensures OnVolume(now, |vol.dev|, vol.clusterSize)
  {
  }
}
