/** Reading a plain non-resident attribute: the bytes come from the runs of its runlist, from its
  * holes, and from beyond its initialized size, and are gathered in one buffer. */
module GatherRead {
  import opened Bytes
  import opened Runlist

  /** What a device read does: it is interrupted, it fails, or it gives at most n bytes. */
  datatype Outcome = Interrupted | Failure | AtMost(n: nat)

  datatype Volume = Volume(dev: seq<byte>, clusterSize: nat)

  /** The runlist array, the runs in it before the terminator, and the sizes of the attribute. */
  datatype Attribute = Attribute(rl: seq<Run>, ghost runs: seq<Run>, dataSize: nat, initializedSize: nat)

  datatype Found = At(k: nat) | NoEntry | Invalid

  /** The byte position where a cluster starts. */
  function ByteOf(cluster: int, clusterSize: nat): int {
    cluster * clusterSize
  }

  function InCluster(pos: nat, clusterSize: nat): (o: nat)
    requires clusterSize > 0
  {
    pos % clusterSize
  }

  /** All runs are mapped and the list ends with the end of the attribute. */
  ghost predicate Mapped(na: Attribute) {
    && Holds(na.rl, na.runs)
    && Terminated(na.rl, na.runs)
  }

  /** x is the byte of the attribute at position p: zero beyond the initialized size and in a hole, else
    * the byte of the device. */
  ghost predicate IsByte(na: Attribute, vol: Volume, p: int, x: byte)
    requires vol.clusterSize > 0
  {
    if p < 0 then false
    else if p >= na.initializedSize then x == 0
    else
      var c := Lcn(na.runs, VcnOf(p, vol.clusterSize));
      if c == LCN_HOLE then x == 0 else StoredAt(na.runs, vol, p, x)
  }

  /** The device has the byte x where the runs map position p. */
  ghost predicate StoredAt(runs: seq<Run>, vol: Volume, p: int, x: byte)
    requires vol.clusterSize > 0
  {
    && p >= 0 && Lcn(runs, VcnOf(p, vol.clusterSize)) >= 0
    && DeviceByte(vol.dev,
                  ByteOf(Lcn(runs, VcnOf(p, vol.clusterSize)), vol.clusterSize) + InCluster(p, vol.clusterSize), x)
  }

  ghost predicate DeviceByte(dev: seq<byte>, q: int, x: byte) {
    0 <= q < |dev| && dev[q] == x
  }

  /** The number of bytes of the attribute that a read of count bytes at pos covers. */
  function Covered(na: Attribute, pos: int, count: int): (n: int)
    ensures pos >= 0 && count >= 0 ==> 0 <= n <= count
  {
    if count <= 0 || pos >= na.dataSize then 0 else Min(count, na.dataSize - pos)
  }

  /** Every run is on the device and every byte with contents is in a run. */
  ghost predicate Complete(na: Attribute, vol: Volume) {
    && (forall k :: 0 <= k < |na.runs| && na.runs[k].lcn >= 0 ==>
          ByteOf(na.runs[k].lcn, vol.clusterSize) + ByteOf(na.runs[k].length, vol.clusterSize) <= |vol.dev|)
    && Min(na.dataSize, na.initializedSize) <= ByteOf(End(na.runs, 0), vol.clusterSize)
  }

  // ----- clusters and bytes -----

  lemma ByteOfSum(a: int, b: int, size: nat)
    ensures ByteOf(a + b, size) == ByteOf(a, size) + ByteOf(b, size)
  {
  }

  lemma ByteOfGrows(n: int, size: nat)
    requires n > 0 && size > 0
    ensures ByteOf(n, size) > 0
  {
  }

  lemma ByteOfLess(a: int, b: int, size: nat)
    requires size > 0 && ByteOf(a, size) < ByteOf(b, size)
    ensures a < b
  {
    if a >= b {
      ByteOfSum(b, a - b, size);
      Nonnegative(a - b, size);
    }
  }

  lemma Position(p: nat, size: nat)
    requires size > 0
    ensures p == ByteOf(VcnOf(p, size), size) + InCluster(p, size) && InCluster(p, size) < size
  {
  }

  /** A byte offset inside n clusters lies in one of them. */
  lemma InsideClusters(vcn: int, n: int, p: nat, size: nat)
    requires size > 0
    requires ByteOf(vcn, size) <= p < ByteOf(vcn, size) + ByteOf(n, size)
    ensures vcn <= VcnOf(p, size) < vcn + n
  {
    hide VcnOf, InCluster, ByteOf;
    Position(p, size);
    var v := VcnOf(p, size);
    ByteOfSum(vcn, n, size);
    ByteOfSum(v, 1, size);
    assert ByteOf(1, size) == size by {
      One(size);
    }
    ByteOfLess(v, vcn + n, size);
    ByteOfLess(vcn, v + 1, size);
  }

  lemma One(size: nat)
    ensures ByteOf(1, size) == size
  {
  }

  /** A byte of the device in an allocated run. */
  lemma RunStored(runs: seq<Run>, vol: Volume, k: nat, ofs: nat, x: byte)
    requires Contiguous(runs, 0) && vol.clusterSize > 0 && k < |runs| && runs[k].lcn >= 0
    requires ofs < ByteOf(runs[k].length, vol.clusterSize)
    requires DeviceByte(vol.dev, ByteOf(runs[k].lcn, vol.clusterSize) + ofs, x)
    ensures StoredAt(runs, vol, ByteOf(runs[k].vcn, vol.clusterSize) + ofs, x)
  {
    hide ByteOf, VcnOf, InCluster, DeviceByte, Contiguous, End;
    var r, size := runs[k], vol.clusterSize;
    Next(runs, 0, k);
    Nonnegative(r.vcn, size);
    var p := ByteOf(r.vcn, size) + ofs;
    InsideClusters(r.vcn, r.length, p, size);
    var v := VcnOf(p, size);
    LcnAt(runs, 0, k, v);
    Position(p, size);
    ByteOfSum(r.vcn, v - r.vcn, size);
    ByteOfSum(r.lcn, v - r.vcn, size);
    assert ByteOf(r.lcn + (v - r.vcn), size) + InCluster(p, size) == ByteOf(r.lcn, size) + ofs;
  }

  /** The bytes of run k: the run holds the byte at offset ofs of it where the device has it. */
  lemma RunByte(na: Attribute, vol: Volume, k: nat, ofs: nat, x: byte)
    requires Mapped(na) && vol.clusterSize > 0 && k < |na.runs|
    requires ofs < ByteOf(na.runs[k].length, vol.clusterSize)
    requires ByteOf(na.runs[k].vcn, vol.clusterSize) + ofs < na.initializedSize
    requires if na.runs[k].lcn < 0 then x == 0
             else DeviceByte(vol.dev, ByteOf(na.runs[k].lcn, vol.clusterSize) + ofs, x)
    ensures IsByte(na, vol, ByteOf(na.runs[k].vcn, vol.clusterSize) + ofs, x)
  {
    hide ByteOf, VcnOf, InCluster, DeviceByte, Contiguous, End, StoredAt;
    var r, size := na.runs[k], vol.clusterSize;
    Next(na.runs, 0, k);
    Nonnegative(r.vcn, size);
    var p := ByteOf(r.vcn, size) + ofs;
    InsideClusters(r.vcn, r.length, p, size);
    LcnAt(na.runs, 0, k, VcnOf(p, size));
    if r.lcn >= 0 {
      RunStored(na.runs, vol, k, ofs, x);
    }
  }

  lemma Nonnegative(n: int, size: nat)
    requires n >= 0
    ensures ByteOf(n, size) >= 0
  {
  }

  // ----- finding a run -----

  /** The run with the given vcn. */
  method FindVcn(na: Attribute, vcn: int) returns (r: Found)
    requires Mapped(na)
    ensures r.Invalid? <==> vcn < 0
    ensures r.NoEntry? <==> vcn >= End(na.runs, 0)
    ensures r.At? ==> r.k < |na.runs| && Maps(na.runs[r.k], vcn)
  {
    if vcn < 0 {
      EndGrows(na.runs, 0);
      return Invalid;
    }
    var rl := na.rl;
    HeldAt(rl, na.runs);
    EndGrows(na.runs, 0);
    var k := 0;
    while rl[k].length != 0
      invariant k <= |na.runs|
      invariant rl == na.rl
      invariant k < |na.runs| ==> rl[k].vcn <= vcn
      invariant k == |na.runs| ==> End(na.runs, 0) <= vcn
      decreases |na.runs| - k
    {
      Next(na.runs, 0, k);
      if vcn < rl[k + 1].vcn {
        return At(k);
      }
      k := k + 1;
    }
    r := NoEntry;
  }

  // ----- reading -----

  /** The bytes [from, to) of the buffer are those of the attribute at pos + from and on. */
  ghost predicate Gathered(na: Attribute, vol: Volume, pos: int, b: seq<byte>, from: int, to: int)
    requires vol.clusterSize > 0
  {
    0 <= from <= to <= |b| && forall i :: from <= i < to ==> IsByte(na, vol, pos + i, b[i])
  }

  ghost predicate Same(b: seq<byte>, was: seq<byte>, from: int, to: int) {
    0 <= from <= to <= |b| == |was| && forall i :: from <= i < to ==> b[i] == was[i]
  }

  ghost predicate ZeroIn(b: seq<byte>, from: int, to: int) {
    0 <= from <= to <= |b| && forall i :: from <= i < to ==> b[i] == 0
  }

  ghost predicate Copied(b: seq<byte>, from: int, dev: seq<byte>, off: int, n: int) {
    && 0 <= from <= from + n <= |b| && (n > 0 ==> 0 <= off && off + n <= |dev|)
    && forall i :: from <= i < from + n ==> b[i] == dev[off + (i - from)]
  }

  method Clear(b: array<byte>, from: nat, to: nat)
    requires from <= to <= b.Length
    modifies b
    ensures Same(b[..], old(b[..]), 0, from) && ZeroIn(b[..], from, to) && Same(b[..], old(b[..]), to, b.Length)
  {
    for i := from to to
      invariant Same(b[..], old(b[..]), 0, from) && ZeroIn(b[..], from, i) && Same(b[..], old(b[..]), i, b.Length)
    {
      b[i] := 0;
    }
  }

  /** One read of the device, begun again while it is interrupted: the number of bytes got, or -1. */
  method DeviceRead(dev: seq<byte>, off: nat, n: nat, b: array<byte>, at: nat, outcomes: seq<Outcome>)
      returns (br: int, rest: seq<Outcome>)
    requires at + n <= b.Length
    modifies b
    ensures -1 <= br <= n
    ensures br >= 0 ==> Copied(b[..], at, dev, off, br)
    ensures Same(b[..], old(b[..]), 0, at) && Same(b[..], old(b[..]), at + n, b.Length)
    ensures outcomes == [] ==> rest == [] && (off + n <= |dev| ==> br == n)
  {
    rest := outcomes;
    while rest != [] && rest[0] == Interrupted
      invariant outcomes == [] ==> rest == []
      decreases |rest|
    {
      rest := rest[1..];
    }
    br := n;
    if rest != [] {
      if rest[0] == Failure {
        return -1, rest[1..];
      }
      br := Min(n, rest[0].n);
      rest := rest[1..];
    }
    br := if off >= |dev| then 0 else Min(br, |dev| - off);
    for i := 0 to br
      invariant Copied(b[..], at, dev, off, i)
      invariant Same(b[..], old(b[..]), 0, at) && Same(b[..], old(b[..]), at + n, b.Length)
    {
      b[at + i] := dev[off + i];
    }
  }

  /** Where the read stands: total bytes are gathered, and byte total is at offset ofs of run k. */
  ghost predicate Cursor(na: Attribute, vol: Volume, pos: int, total: int, k: int, ofs: int)
    requires vol.clusterSize > 0
  {
    && 0 <= k <= |na.runs|
    && 0 <= ofs
    && pos + total == ByteOf(if k < |na.runs| then na.runs[k].vcn else End(na.runs, 0), vol.clusterSize) + ofs
    && (k < |na.runs| ==> ofs < ByteOf(na.runs[k].length, vol.clusterSize))
  }

  lemma StartCursor(na: Attribute, vol: Volume, pos: nat, k: nat)
    requires Mapped(na) && vol.clusterSize > 0 && k < |na.runs| && Maps(na.runs[k], VcnOf(pos, vol.clusterSize))
    ensures Cursor(na, vol, pos, 0, k, pos - ByteOf(na.runs[k].vcn, vol.clusterSize))
  {
    hide ByteOf, VcnOf, InCluster;
    var r, size, v := na.runs[k], vol.clusterSize, VcnOf(pos, vol.clusterSize);
    Position(pos, size);
    ByteOfSum(r.vcn, v - r.vcn, size);
    Nonnegative(v - r.vcn, size);
    ByteOfSum(v + 1, r.vcn + r.length - (v + 1), size);
    Nonnegative(r.vcn + r.length - (v + 1), size);
    ByteOfSum(v, 1, size);
    One(size);
    ByteOfSum(r.vcn, r.length, size);
  }

  /** At the end of run k comes the next run. */
  lemma NextCursor(na: Attribute, vol: Volume, pos: nat, total: nat, k: nat, ofs: nat, n: nat)
    requires Mapped(na) && vol.clusterSize > 0 && k < |na.runs| && Cursor(na, vol, pos, total, k, ofs)
    requires n == ByteOf(na.runs[k].length, vol.clusterSize) - ofs
    ensures Cursor(na, vol, pos, total + n, k + 1, 0)
  {
    hide ByteOf, Contiguous, End;
    var r, size := na.runs[k], vol.clusterSize;
    Next(na.runs, 0, k);
    ByteOfSum(r.vcn, r.length, size);
    if k + 1 < |na.runs| {
      Next(na.runs, 0, k + 1);
      ByteOfGrows(na.runs[k + 1].length, size);
    }
  }

  /** The bytes got from run k are the next bytes of the attribute. */
  lemma GatheredMore(na: Attribute, vol: Volume, pos: nat, total: nat, k: nat, ofs: nat, n: nat, was: seq<byte>,
                     b: seq<byte>)
    requires Mapped(na) && vol.clusterSize > 0 && k < |na.runs| && Cursor(na, vol, pos, total, k, ofs)
    requires n <= ByteOf(na.runs[k].length, vol.clusterSize) - ofs && pos + total + n <= na.initializedSize
    requires Gathered(na, vol, pos, was, 0, total) && Same(b, was, 0, total)
    requires if na.runs[k].lcn < 0 then ZeroIn(b, total, total + n)
             else Copied(b, total, vol.dev, ByteOf(na.runs[k].lcn, vol.clusterSize) + ofs, n)
    ensures Gathered(na, vol, pos, b, 0, total + n)
  {
    hide ByteOf, IsByte, Mapped;
    ArrayView(na);
    forall i | 0 <= i < total + n ensures IsByte(na, vol, pos + i, b[i]) {
      if i >= total {
        RunByte(na, vol, k, ofs + (i - total), b[i]);
      }
    }
  }

  /** The zeros beyond the initialized size. */
  lemma GatheredTail(na: Attribute, vol: Volume, pos: nat, from: nat, to: nat, b: seq<byte>)
    requires vol.clusterSize > 0 && from <= to && na.initializedSize <= pos + from && ZeroIn(b, from, to)
    ensures Gathered(na, vol, pos, b, from, to)
  {
  }

  lemma GatheredSame(na: Attribute, vol: Volume, pos: nat, from: nat, to: nat, was: seq<byte>, b: seq<byte>)
    requires vol.clusterSize > 0 && Gathered(na, vol, pos, was, from, to) && Same(b, was, from, to)
    ensures Gathered(na, vol, pos, b, from, to)
  {
  }

  /** Beyond the last run there is nothing to read. */
  lemma CompleteCursor(na: Attribute, vol: Volume, pos: nat, total: nat, ofs: nat)
    requires vol.clusterSize > 0 && Complete(na, vol) && Cursor(na, vol, pos, total, |na.runs|, ofs)
    ensures Min(na.dataSize, na.initializedSize) <= pos + total
  {
  }

  /** Gathers the bytes in front of the initialized size, run by run. */
  method Gather(na: Attribute, vol: Volume, pos: nat, wanted: nat, b: array<byte>, outcomes: seq<Outcome>)
    returns (r: int)
    requires Mapped(na) && vol.clusterSize > 0 && 0 < wanted <= b.Length
    requires pos + wanted <= Min(na.dataSize, na.initializedSize)
    modifies b
    ensures r == -1 || 0 < r <= wanted
    ensures r > 0 ==> Gathered(na, vol, pos, b[..], 0, r)
    ensures Same(b[..], old(b[..]), wanted, b.Length)
    ensures Complete(na, vol) && outcomes == [] ==> r == wanted
  {
    hide ByteOf, Gathered, Complete, Mapped, IsByte, Copied, ZeroIn, VcnOf;
    var size := vol.clusterSize;
    ArrayView(na);
    var found := FindVcn(na, VcnOf(pos, size));
    if !found.At? {
      MissingVcn(na, vol, pos, wanted);
      return -1;
    }
    var k := found.k;
    var rl := na.rl;
    StartCursor(na, vol, pos, k);
    var ofs := pos - ByteOf(rl[k].vcn, size);
    GatheredNothing(na, vol, pos, b[..]);
    var total, count, rest := 0, wanted, outcomes;
    while count > 0
      invariant total >= 0 && count >= 0 && total + count == wanted
      invariant count > 0 ==> Cursor(na, vol, pos, total, k, ofs)
      invariant Gathered(na, vol, pos, b[..], 0, total)
      invariant Same(b[..], old(b[..]), wanted, b.Length)
      invariant outcomes == [] ==> rest == []
      decreases count
    {
      if rl[k].length == 0 {
        if Complete(na, vol) {
          CompleteCursor(na, vol, pos, total, ofs);
        }
        return if total > 0 then total else -1;
      }
      var toRead := Min(count, ByteOf(rl[k].length, size) - ofs);
      var got := toRead;
      ghost var was := b[..];
      if rl[k].lcn < 0 {
        Clear(b, total, total + toRead);
      } else {
        Nonnegative(rl[k].lcn, size);
        if Complete(na, vol) {
          CompleteRun(na, vol, k);
        }
        got, rest := DeviceRead(vol.dev, ByteOf(rl[k].lcn, size) + ofs, toRead, b, total, rest);
      }
      GatheredSame(na, vol, pos, 0, total, was, b[..]);
      if got > 0 {
        GatheredMore(na, vol, pos, total, k, ofs, got, was, b[..]);
        if got == ByteOf(rl[k].length, size) - ofs {
          NextCursor(na, vol, pos, total, k, ofs, got);
        }
        total := total + got;
        count := count - got;
      }
      if got != toRead {
        return if total > 0 then total else -1;
      }
      k := k + 1;
      ofs := 0;
    }
    r := total;
  }

  /** A position without a run is beyond what a complete attribute holds. */
  lemma MissingVcn(na: Attribute, vol: Volume, pos: nat, wanted: nat)
    requires Mapped(na) && vol.clusterSize > 0 && VcnOf(pos, vol.clusterSize) >= End(na.runs, 0)
    requires wanted > 0 && pos + wanted <= Min(na.dataSize, na.initializedSize)
    ensures !Complete(na, vol)
  {
    hide ByteOf, VcnOf, InCluster, End, Mapped;
    var size, v, e := vol.clusterSize, VcnOf(pos, vol.clusterSize), End(na.runs, 0);
    Position(pos, size);
    ByteOfSum(e, v - e, size);
    Nonnegative(v - e, size);
  }

  lemma ArrayView(na: Attribute)
    requires Mapped(na)
    ensures |na.runs| < |na.rl| && na.rl[|na.runs|].length == 0
    ensures forall k :: 0 <= k < |na.runs| ==>
            na.rl[k] == na.runs[k] && na.runs[k].length > 0 && na.runs[k].lcn >= LCN_HOLE
  {
    HeldAt(na.rl, na.runs);
  }

  lemma CompleteRun(na: Attribute, vol: Volume, k: nat)
    requires Complete(na, vol) && k < |na.runs| && na.runs[k].lcn >= 0
    ensures ByteOf(na.runs[k].lcn, vol.clusterSize) + ByteOf(na.runs[k].length, vol.clusterSize) <= |vol.dev|
  {
  }

  lemma GatheredNothing(na: Attribute, vol: Volume, pos: int, b: seq<byte>)
    requires vol.clusterSize > 0
    ensures Gathered(na, vol, pos, b, 0, 0)
  {
  }

  /** ntfs_attr_pread: what is returned counts bytes of the attribute, and the buffer behind them is left alone. */
  method Pread(na: Attribute, vol: Volume, pos: int, count: int, b: array<byte>, outcomes: seq<Outcome>)
    returns (r: int)
    requires Mapped(na) && vol.clusterSize > 0 && count <= b.Length
    modifies b
    ensures -1 <= r
    ensures pos < 0 || count < 0 ==> r == -1 && b[..] == old(b[..])
    ensures pos >= 0 && count >= 0 ==> r <= Covered(na, pos, count)
    ensures r > 0 ==> Gathered(na, vol, pos, b[..], 0, r)
    ensures pos >= 0 && count >= 0 ==> Same(b[..], old(b[..]), Covered(na, pos, count), b.Length)
    ensures pos >= 0 && count >= 0 && Complete(na, vol) && outcomes == [] ==> r == Covered(na, pos, count)
  {
    hide Gathered, Complete, Mapped, IsByte, Contiguous, End, Lcn;
    if pos < 0 || count < 0 {
      return -1;
    }
    if count == 0 || pos >= na.dataSize {
      return 0;
    }
    var n := Min(count, na.dataSize - pos);
    if pos >= na.initializedSize {
      Clear(b, 0, n);
      GatheredTail(na, vol, pos, 0, n, b[..]);
      return n;
    }
    var wanted := Min(n, na.initializedSize - pos);
    Clear(b, wanted, n);
    ghost var was := b[..];
    r := Gather(na, vol, pos, wanted, b, outcomes);
    if r == wanted {
      if wanted < n {
        ZeroSame(was, b[..], wanted, n);
        GatheredTail(na, vol, pos, wanted, n, b[..]);
        GatheredJoin(na, vol, pos, wanted, n, b[..]);
      }
      return n;
    }
  }

  lemma ZeroSame(was: seq<byte>, b: seq<byte>, from: int, to: int)
    requires ZeroIn(was, from, to) && Same(b, was, from, |b|)
    ensures ZeroIn(b, from, to)
  {
  }

  lemma GatheredJoin(na: Attribute, vol: Volume, pos: int, m: int, n: int, b: seq<byte>)
    requires vol.clusterSize > 0 && Gathered(na, vol, pos, b, 0, m) && Gathered(na, vol, pos, b, m, n)
    ensures Gathered(na, vol, pos, b, 0, n)
  {
  }
}
