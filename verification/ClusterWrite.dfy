/** Writing data to the clusters of a runlist, on a device of bytes. */
module ClusterWrite {
  import opened Bytes
  import opened Runlist
  import opened GatherRead

  /** No cluster is used twice. */
  ghost predicate Separate(runs: seq<Run>) {
    forall v, w :: Lcn(runs, v) >= 0 && Lcn(runs, w) == Lcn(runs, v) ==> v == w
  }

  /** All clusters are on the device. */
  ghost predicate OnVolume(runs: seq<Run>, size: nat, clusterSize: nat) {
    forall v :: Lcn(runs, v) >= 0 ==> ByteOf(Lcn(runs, v), clusterSize) + clusterSize <= size
  }

  /** So are those of one run. */
  lemma RunOnVolume(runs: seq<Run>, size: nat, clusterSize: nat, k: nat)
    requires Contiguous(runs, 0) && OnVolume(runs, size, clusterSize) && k < |runs| && runs[k].lcn >= 0
    ensures ByteOf(runs[k].lcn, clusterSize) + ByteOf(runs[k].length, clusterSize) <= size
  {
    hide Contiguous, ByteOf;
    Next(runs, 0, k);
    LcnAt(runs, 0, k, runs[k].vcn + runs[k].length - 1);
    ByteOfSum(runs[k].lcn, runs[k].length - 1, clusterSize);
    ByteOfSum(runs[k].length - 1, 1, clusterSize);
    One(clusterSize);
  }

  /** The first n bytes of the data are on the device, where the runs map positions from pos on. */
  ghost predicate Stored(runs: seq<Run>, vol: Volume, pos: int, data: seq<byte>, n: nat)
    requires vol.clusterSize > 0
  {
    n <= |data| && forall i :: 0 <= i < n ==> StoredAt(runs, vol, pos + i, data[i])
  }

  ghost predicate Owned(runs: seq<Run>, cluster: int) {
    exists v :: Lcn(runs, v) == cluster
  }

  /** Nothing has changed but in clusters of the runs. */
  ghost predicate OnlyOwned(now: seq<byte>, was: seq<byte>, runs: seq<Run>, clusterSize: nat)
    requires clusterSize > 0
  {
    |now| == |was| && forall q :: 0 <= q < |now| && now[q] != was[q] ==> Owned(runs, VcnOf(q, clusterSize))
  }

  ghost predicate Written(now: seq<byte>, was: seq<byte>, off: int, data: seq<byte>) {
    && |now| == |was| && 0 <= off <= off + |data| <= |now|
    && forall q :: 0 <= q < |now| ==> now[q] == if off <= q < off + |data| then data[q - off] else was[q]
  }

  /** Write to the device: all of the data, or nothing when the device fails. */
  method DeviceWrite(dev: array<byte>, off: nat, data: seq<byte>, accepted: bool) returns (put: int)
    requires off + |data| <= dev.Length
    modifies dev
    ensures put == if accepted then |data| else -1
    ensures if accepted then Written(dev[..], old(dev[..]), off, data) else dev[..] == old(dev[..])
  {
    if !accepted {
      return -1;
    }
    ghost var was := dev[..];
    for i := 0 to |data|
      invariant Written(dev[..], was, off, data[..i])
    {
      dev[off + i] := data[i];
    }
    assert data[..|data|] == data;
    put := |data|;
  }

  /** The cluster of a byte of the device. */
  lemma ClusterOf(c: nat, z: nat, size: nat)
    requires size > 0 && z < size
    ensures VcnOf(ByteOf(c, size) + z, size) == c
  {
    Unpack(c, z, size);
  }

  /** The bytes written in run k are where the runs map them. */
  lemma NewlyStored(runs: seq<Run>, was: seq<byte>, vol: Volume, k: nat, ofs: nat, data: seq<byte>)
    requires Contiguous(runs, 0) && vol.clusterSize > 0 && k < |runs| && runs[k].lcn >= 0
    requires ofs + |data| <= ByteOf(runs[k].length, vol.clusterSize)
    requires Written(vol.dev, was, ByteOf(runs[k].lcn, vol.clusterSize) + ofs, data)
    ensures Stored(runs, vol, ByteOf(runs[k].vcn, vol.clusterSize) + ofs, data, |data|)
    ensures OnlyOwned(vol.dev, was, runs, vol.clusterSize)
  {
    var size := vol.clusterSize;
    hide Contiguous, End, Lcn, ByteOf, StoredAt, VcnOf;
    forall i | 0 <= i < |data| ensures StoredAt(runs, vol, ByteOf(runs[k].vcn, size) + ofs + i, data[i]) {
      RunStored(runs, vol, k, ofs + i, data[i]);
    }
    forall q | 0 <= q < |was| && vol.dev[q] != was[q] ensures Owned(runs, VcnOf(q, size)) {
      InsideClusters(runs[k].lcn, runs[k].length, q, size);
      var v := runs[k].vcn + (VcnOf(q, size) - runs[k].lcn);
      LcnAt(runs, 0, k, v);
    }
  }

  /** What was written before, in front of run k, stays. */
  lemma StaysStored(runs: seq<Run>, was: Volume, now: Volume, k: nat, off: nat, data: seq<byte>, p: int, x: byte)
    requires Contiguous(runs, 0) && Separate(runs) && k < |runs| && runs[k].lcn >= 0
    requires now.clusterSize == was.clusterSize > 0
    requires ByteOf(runs[k].lcn, now.clusterSize) <= off
    requires off + |data| <= ByteOf(runs[k].lcn, now.clusterSize) + ByteOf(runs[k].length, now.clusterSize)
    requires Written(now.dev, was.dev, off, data)
    requires StoredAt(runs, was, p, x) && p < ByteOf(runs[k].vcn, now.clusterSize)
    ensures StoredAt(runs, now, p, x)
  {
    hide Contiguous, End, Lcn, ByteOf, VcnOf, InCluster;
    var size := now.clusterSize;
    var v := VcnOf(p, size);
    var c := Lcn(runs, v);
    var q := ByteOf(c, size) + InCluster(p, size);
    Position(p, size);
    if off <= q < off + |data| {
      InsideClusters(runs[k].lcn, runs[k].length, q, size);
      ClusterOf(c, InCluster(p, size), size);
      var w := runs[k].vcn + (c - runs[k].lcn);
      LcnAt(runs, 0, k, w);
      assert v == w;
      Nonnegative(v - runs[k].vcn, size);
      ByteOfSum(runs[k].vcn, v - runs[k].vcn, size);
      assert false;
    }
  }

  /** The bytes so far and those of run k. */
  lemma StoredMore(runs: seq<Run>, was: Volume, now: Volume, k: nat, ofs: nat, pos: int, data: seq<byte>, n: nat,
                   more: nat)
    requires Contiguous(runs, 0) && Separate(runs) && k < |runs| && runs[k].lcn >= 0
    requires now.clusterSize == was.clusterSize > 0
    requires n + more <= |data| && ofs + more <= ByteOf(runs[k].length, now.clusterSize)
    requires Written(now.dev, was.dev, ByteOf(runs[k].lcn, now.clusterSize) + ofs, data[n..n + more])
    requires Stored(runs, was, pos, data, n) && pos + n == ByteOf(runs[k].vcn, now.clusterSize) + ofs
             && (n > 0 ==> ofs == 0)
    ensures Stored(runs, now, pos, data, n + more)
    ensures OnlyOwned(now.dev, was.dev, runs, now.clusterSize)
  {
    hide Contiguous, Separate, ByteOf, StoredAt, Written;
    var part := data[n..n + more];
    NewlyStored(runs, was.dev, now, k, ofs, part);
    forall i | 0 <= i < n + more ensures StoredAt(runs, now, pos + i, data[i]) {
      if i < n {
        Nonnegative(runs[k].lcn, now.clusterSize);
        StaysStored(runs, was, now, k, ByteOf(runs[k].lcn, now.clusterSize) + ofs, part, pos + i, data[i]);
      } else {
        assert part[i - n] == data[i];
      }
    }
  }

  /** The data can be written through the runs, and the first n bytes of it have been; the rest of the device is
    * as it was at first. */
  ghost predicate Writing(runs: seq<Run>, dev: seq<byte>, first: seq<byte>, clusterSize: nat, pos: int,
                          data: seq<byte>, n: nat)
  {
    && clusterSize > 0 && Contiguous(runs, 0) && Separate(runs) && OnVolume(runs, |dev|, clusterSize)
    && Stored(runs, Volume(dev, clusterSize), pos, data, n) && OnlyOwned(dev, first, runs, clusterSize)
  }

  /** Write to run k at offset ofs, as much of the data as goes in. */
  method WriteRun(dev: array<byte>, run: Run, ofs: int, data: seq<byte>, put: nat, clusterSize: nat, accepted: bool,
                  ghost runs: seq<Run>, ghost k: nat, ghost pos: int, ghost first: seq<byte>)
    returns (ok: bool, count: int)
    requires Writing(runs, dev[..], first, clusterSize, pos, data, put) && put < |data|
    requires k < |runs| && run == runs[k] && run.lcn >= 0
    requires pos + put == ByteOf(run.vcn, clusterSize) + ofs && ofs >= 0 && (put > 0 ==> ofs == 0)
    modifies dev
    ensures count == Min(ByteOf(run.length, clusterSize) - ofs, |data| - put)
    ensures ok <==> accepted && count >= 0
    ensures Writing(runs, dev[..], first, clusterSize, pos, data, if ok then put + count else put)
  {
    ghost var was := dev[..];
    assert dev.Length == |was|;
    RunOnVolume(runs, dev.Length, clusterSize, k);
    count := Min(ByteOf(run.length, clusterSize) - ofs, |data| - put);
    hide Contiguous, End, Lcn, ByteOf, StoredAt, VcnOf, Separate, Stored, OnlyOwned, Written, OnVolume;
    if count < 0 {
      return false, count;
    }
    Nonnegative(run.lcn, clusterSize);
    var xput := DeviceWrite(dev, ByteOf(run.lcn, clusterSize) + ofs, data[put..put + count], accepted);
    ok := xput == count;
    if ok {
      StoredMore(runs, Volume(was, clusterSize), Volume(dev[..], clusterSize), k, ofs, pos, data, put, count);
      OwnedChain(dev[..], was, first, runs, clusterSize);
    }
  }

  /** write_clusters: writes the data from offset offs of run r on; the number of bytes written. `accepted` tells
    * which writes the device accepts, from the first on; it accepts all further ones. */
  method WriteClusters(dev: array<byte>, a: seq<Run>, r: nat, offs: nat, data: seq<byte>, clusterSize: nat,
                       accepted: seq<bool>, ghost runs: seq<Run>)
    returns (put: nat)
    requires Holds(a, runs) && r < |runs| && clusterSize > 0 && data != []
    requires forall k :: r <= k < |runs| ==> runs[k].lcn >= 0
    requires Separate(runs) && OnVolume(runs, dev.Length, clusterSize)
    requires ByteOf(runs[r].vcn, clusterSize) + offs + |data| <= ByteOf(End(runs, 0), clusterSize)
    modifies dev
    ensures put <= |data|
    ensures Stored(runs, Volume(dev[..], clusterSize), ByteOf(runs[r].vcn, clusterSize) + offs, data, put)
    ensures OnlyOwned(dev[..], old(dev[..]), runs, clusterSize)
    ensures accepted == [] && offs <= ByteOf(runs[r].length, clusterSize) ==> put == |data|
  {
    HeldAt(a, runs);
    var pos := ByteOf(a[r].vcn, clusterSize) + offs;
    ghost var first := dev[..];
    NothingStored(runs, Volume(first, clusterSize), pos, data);
    assert Writing(runs, first, first, clusterSize, pos, data, 0);
    hide Contiguous, End, ByteOf, Writing, Holds, Separate, OnVolume, Stored, OnlyOwned;
    put := 0;
    var k, ofs, ok, calls := r, offs, true, accepted;
    while ok && put < |data|
      invariant put <= |data| && r <= k && (accepted == [] ==> calls == [])
      invariant Writing(runs, dev[..], first, clusterSize, pos, data, put)
      invariant ok && put < |data| ==>
                  k < |runs| && pos + put == ByteOf(runs[k].vcn, clusterSize) + ofs && ofs >= 0
                    && (put > 0 ==> ofs == 0)
      invariant accepted == [] && offs <= ByteOf(runs[r].length, clusterSize) ==>
                  ok && (put < |data| ==> ofs <= ByteOf(runs[k].length, clusterSize))
      decreases if ok then |runs| - k + 1 else 0
    {
      var count;
      ok, count := WriteRun(dev, a[k], ofs, data, put, clusterSize, calls == [] || calls[0], runs, k, pos, first);
      calls := if calls == [] then [] else calls[1..];
      if ok {
        NextPosition(runs, k, ofs, clusterSize, pos + put, count);
        put := put + count;
        k := k + 1;
      }
      ofs := 0;
    }
    WritingIs(runs, dev[..], first, clusterSize, pos, data, put);
  }

  lemma WritingIs(runs: seq<Run>, dev: seq<byte>, first: seq<byte>, clusterSize: nat, pos: int, data: seq<byte>, n: nat)
    requires Writing(runs, dev, first, clusterSize, pos, data, n)
    ensures clusterSize > 0
    ensures Stored(runs, Volume(dev, clusterSize), pos, data, n) && OnlyOwned(dev, first, runs, clusterSize)
  {
  }

  lemma NothingStored(runs: seq<Run>, vol: Volume, pos: int, data: seq<byte>)
    requires vol.clusterSize > 0
    ensures Stored(runs, vol, pos, data, 0) && OnlyOwned(vol.dev, vol.dev, runs, vol.clusterSize)
  {
  }

  lemma OwnedChain(now: seq<byte>, was: seq<byte>, first: seq<byte>, runs: seq<Run>, clusterSize: nat)
    requires clusterSize > 0 && OnlyOwned(now, was, runs, clusterSize) && OnlyOwned(was, first, runs, clusterSize)
    ensures OnlyOwned(now, first, runs, clusterSize)
  {
  }

  /** Behind run k comes the next one, or the end of the list. */
  lemma NextPosition(runs: seq<Run>, k: nat, ofs: nat, clusterSize: nat, p: int, count: nat)
    requires Contiguous(runs, 0) && k < |runs| && clusterSize > 0 && p == ByteOf(runs[k].vcn, clusterSize) + ofs
    ensures count == ByteOf(runs[k].length, clusterSize) - ofs && k + 1 < |runs| ==>
              p + count == ByteOf(runs[k + 1].vcn, clusterSize) && 0 < ByteOf(runs[k + 1].length, clusterSize)
    ensures count == ByteOf(runs[k].length, clusterSize) - ofs && k + 1 == |runs| ==>
              p + count == ByteOf(End(runs, 0), clusterSize)
  {
    hide Contiguous, End, ByteOf;
    Next(runs, 0, k);
    ByteOfSum(runs[k].vcn, runs[k].length, clusterSize);
    if k + 1 < |runs| {
      Next(runs, 0, k + 1);
      ByteOfGrows(runs[k + 1].length, clusterSize);
    }
  }
}
