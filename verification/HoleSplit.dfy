/** Splitting a hole of a compressed attribute before part of it is written: the part in the
  * compression block to be written gets a run of its own. */
module HoleSplit {
  import opened Bytes
  import opened Runlist

  /** The first vcn of the compression block of vcn v. */
  function BlockStart(v: int, cb: nat): int
    requires cb > 0
  {
    v - v % cb
  }

  /** hs are holes that follow each other from vcn v0 on. */
  ghost predicate AreHoles(hs: seq<Run>) {
    forall i :: 0 <= i < |hs| ==> hs[i].lcn == LCN_HOLE
  }

  lemma {:induction false} LcnHoles(hs: seq<Run>, v0: int, v: int)
    requires Contiguous(hs, v0) && AreHoles(hs)
    ensures Lcn(hs, v) == if v0 <= v < End(hs, v0) then LCN_HOLE else LCN_ENOENT
    decreases |hs|
  {
    if hs != [] {
      EndGrows(hs[1..], v0 + hs[0].length);
      LcnHoles(hs[1..], v0 + hs[0].length, v);
    }
  }

  function Replace(runs: seq<Run>, r: nat, hs: seq<Run>): seq<Run>
    requires r < |runs|
  {
    runs[..r] + hs + runs[r + 1..]
  }

  /** The new list means the same, vcn by vcn. */
  ghost predicate SameMapping(now: seq<Run>, runs: seq<Run>) {
    Contiguous(now, 0) && End(now, 0) == End(runs, 0) && forall v :: Lcn(now, v) == Lcn(runs, v)
  }

  /** Cutting a hole in pieces changes nothing. */
  lemma SplitKeeps(runs: seq<Run>, r: nat, hs: seq<Run>)
    requires Contiguous(runs, 0) && r < |runs| && runs[r].lcn == LCN_HOLE
    requires hs != [] && Contiguous(hs, runs[r].vcn) && End(hs, runs[r].vcn) == runs[r].vcn + runs[r].length
             && AreHoles(hs)
    ensures SameMapping(Replace(runs, r, hs), runs)
  {
    Cut(runs, 0, r);
    var hole := [runs[r]];
    assert hole[1..] == [];
    assert runs == Replace(runs, r, hole);
    var v0, v1, a, b := runs[r].vcn, runs[r].vcn + runs[r].length, runs[..r], runs[r + 1..];
    OneHole(hole, v0, v1);
    hide Contiguous, End, AreHoles, Lcn;
    SplitMeans(a, hs, b, v0, v1);
    SplitMeans(a, hole, b, v0, v1);
    forall v ensures Lcn(Replace(runs, r, hs), v) == Lcn(runs, v) {
      LcnSplit(a, hs, b, v0, v1, v);
      LcnSplit(a, hole, b, v0, v1, v);
    }
  }

  lemma SplitMeans(a: seq<Run>, hs: seq<Run>, b: seq<Run>, v: int, w: int)
    requires Contiguous(a, 0) && End(a, 0) == v && Contiguous(hs, v) && End(hs, v) == w && Contiguous(b, w)
    ensures Contiguous(a + hs + b, 0) && End(a + hs + b, 0) == End(b, w)
    ensures Contiguous(a + hs, 0) && End(a + hs, 0) == w
  {
    Concat(a, hs, 0);
    Concat(a + hs, b, 0);
  }

  lemma LcnSplit(a: seq<Run>, hs: seq<Run>, b: seq<Run>, v: int, w: int, u: int)
    requires Contiguous(a, 0) && End(a, 0) == v && Contiguous(hs, v) && End(hs, v) == w && Contiguous(b, w)
             && AreHoles(hs)
    requires v < w
    ensures Lcn(a + hs + b, u) == if u < v then Lcn(a, u) else if u < w then LCN_HOLE else Lcn(b, u)
  {
    SplitMeans(a, hs, b, v, w);
    LcnConcat(a + hs, b, 0, u);
    LcnConcat(a, hs, 0, u);
    LcnHoles(hs, v, u);
  }

  /** Shift the runs behind position r, terminator included, by n slots. */
  method ShiftRuns(a: array<Run>, r: nat, n: nat, ghost e: nat)
    requires r < e && n > 0 && e + n < a.Length
    requires a[e].length == 0 && forall i :: r <= i < e ==> a[i].length != 0
    modifies a
    ensures forall i :: r + 1 + n <= i <= e + n ==> a[i] == old(a[i - n])
    ensures forall i :: 0 <= i <= r + n ==> a[i] == old(a[i])
  {
    var x := r;
    while a[x].length != 0
      invariant r <= x <= e
      decreases e - x
    {
      x := x + 1;
    }
    while x != r
      invariant r <= x <= e
      invariant forall i :: x + 1 + n <= i <= e + n ==> a[i] == old(a[i - n])
      invariant forall i :: 0 <= i <= x + n ==> a[i] == old(a[i])
      decreases x
    {
      a[x + n] := a[x];
      x := x - 1;
    }
  }

  lemma BelowMultiple(x: nat, n: nat, d: nat, cb: nat)
    requires cb > 0 && n > 0 && d < cb && x == n * cb - d
    ensures x % cb == if d == 0 then 0 else cb - d
  {
    if d == 0 {
      Unpack(n, 0, cb);
    } else {
      assert (n - 1) * cb == n * cb - cb;
      Unpack(n - 1, cb - d, cb);
    }
  }

  lemma AboveMultiple(x: nat, n: nat, y: nat, cb: nat)
    requires cb > 0 && x == n * cb + y
    ensures x % cb <= y
  {
    var q, z := Divide(y, cb);
    assert (n + q) * cb == n * cb + q * cb;
    Unpack(n + q, z, cb);
  }

  lemma BlockBounds(v: nat, length: nat, pv: nat, cb: nat) returns (n: nat)
    requires cb > 0 && v <= pv < v + length && AtBlockEnd(v + length, cb)
    ensures n > 0 && v + length == BlockStart(pv, cb) + n * cb
    ensures BlockStart(pv, cb) <= pv < BlockStart(pv, cb) + cb <= v + length
  {
    var q, w := pv / cb, (v + length) / cb;
    assert BlockStart(pv, cb) == q * cb && v + length == w * cb;
    Multiples(w - q, cb);
    n := w - q;
    assert n * cb == w * cb - q * cb;
  }

  /** Where a hole that starts at vcn v and ends, `length` further, with a compression block, meets the
    * block of vcn pv. */
  lemma BlockFacts(v: nat, length: nat, pv: nat, cb: nat)
    requires cb > 0 && v <= pv < v + length && AtBlockEnd(v + length, cb)
    ensures var b := BlockStart(pv, cb);
            && b <= pv < b + cb <= v + length
            && 0 <= length % cb < cb
            && (b < v ==> length % cb == cb - (v - b))
            && (b == v ==> length % cb == 0)
            && (b > v ==> length % cb <= b - v)
  {
    var n := BlockBounds(v, length, pv, cb);
    var b := BlockStart(pv, cb);
    hide BlockStart;
    if b <= v {
      BelowMultiple(length, n, v - b, cb);
    } else {
      AboveMultiple(length, n, b - v, cb);
    }
  }

  /** The number of clusters with compressed data before the hole in the block to be written, or the
    * full block when the block lies inside the hole. */
  function CompressedPart(hole: Run, pv: int, cb: nat): int
    requires cb > 0
  {
    var b := BlockStart(pv, cb);
    if b < hole.vcn then hole.vcn - b else cb
  }

  /** The part of the hole in the block to be written. */
  function WrittenPart(hole: Run, pv: int, cb: nat): Run
    requires cb > 0
  {
    var b := BlockStart(pv, cb);
    var start := if b < hole.vcn then hole.vcn else b;
    Run(start, LCN_HOLE, b + cb - start)
  }

  /** The pieces of the hole: what is before the block, in the block and behind it. */
  function Pieces(hole: Run, pv: int, cb: nat): seq<Run>
    requires cb > 0
  {
    var b := BlockStart(pv, cb);
    (if b > hole.vcn then [Run(hole.vcn, LCN_HOLE, b - hole.vcn)] else [])
    + [WrittenPart(hole, pv, cb)]
    + if b + cb < hole.vcn + hole.length then [Run(b + cb, LCN_HOLE, hole.vcn + hole.length - (b + cb))] else []
  }

  lemma PiecesFit(hole: Run, pv: nat, cb: nat)
    requires cb > 0 && hole.vcn >= 0 && Maps(hole, pv) && AtBlockEnd(hole.vcn + hole.length, cb) && hole.lcn == LCN_HOLE
    ensures var hs := Pieces(hole, pv, cb);
            && hs != [] && AreHoles(hs) && Contiguous(hs, hole.vcn) && End(hs, hole.vcn) == hole.vcn + hole.length
  {
    BlockFacts(hole.vcn, hole.length, pv, cb);
    var b, end, w := BlockStart(pv, cb), hole.vcn + hole.length, WrittenPart(hole, pv, cb);
    hide BlockStart;
    var front := if b > hole.vcn then [Run(hole.vcn, LCN_HOLE, b - hole.vcn)] else [];
    var back := if b + cb < end then [Run(b + cb, LCN_HOLE, end - (b + cb))] else [];
    OneHole(front, hole.vcn, w.vcn);
    OneHole([w], w.vcn, b + cb);
    OneHole(back, b + cb, end);
    Concat(front, [w], hole.vcn);
    Concat(front + [w], back, hole.vcn);
  }

  lemma OneHole(hs: seq<Run>, v: int, w: int)
    requires if v < w then hs == [Run(v, LCN_HOLE, w - v)] else v == w && hs == []
    ensures Contiguous(hs, v) && End(hs, v) == w && AreHoles(hs)
  {
    if v < w {
      assert hs[1..] == [];
    }
  }

  lemma HoldsReplaced(a: seq<Run>, runs: seq<Run>, r: nat, hs: seq<Run>)
    requires r < |runs| && runs[r].lcn == LCN_HOLE && Contiguous(runs, 0) && |runs| + |hs| - 1 < |a|
    requires hs != [] && Contiguous(hs, runs[r].vcn) && End(hs, runs[r].vcn) == runs[r].vcn + runs[r].length
             && AreHoles(hs)
    requires forall i :: 0 <= i < r ==> a[i] == runs[i]
    requires forall i :: 0 <= i < |hs| ==> a[r + i] == hs[i]
    requires forall j {:trigger a[j]} :: r + |hs| <= j < |runs| + |hs| - 1 ==> a[j] == runs[j - |hs| + 1]
    requires var t := a[|runs| + |hs| - 1]; t.length == 0 && t.vcn == End(runs, 0) && t.lcn < LCN_HOLE
    ensures Holds(a, Replace(runs, r, hs)) && SameMapping(Replace(runs, r, hs), runs)
  {
    SplitKeeps(runs, r, hs);
    hide Contiguous, End, AreHoles;
    var now := Replace(runs, r, hs);
    assert |now| == |runs| + |hs| - 1;
    forall i | 0 <= i < |now| ensures a[i] == now[i] {
      if r <= i < r + |hs| {
        assert a[r + (i - r)] == hs[i - r];
      }
    }
    assert a[..|now|] == now;
  }

  /** What must be true of the write for its block to be split off a hole. */
  ghost predicate Writable(hole: Run, pos: nat, count: nat, clusterSize: nat, cb: nat) {
    && clusterSize > 0 && cb > 0 && count > 0
    && hole.lcn == LCN_HOLE && hole.vcn >= 0 && hole.length >= cb && AtBlockEnd(hole.vcn + hole.length, cb)
    && Maps(hole, VcnOf(pos, clusterSize))
    && BlockStart(VcnOf(pos + count - 1, clusterSize), cb) == BlockStart(VcnOf(pos, clusterSize), cb)
  }

  /** The vcn after the compression block of vcn v. */
  function BlockEnd(v: int, cb: nat): int
    requires cb > 0
  {
    BlockStart(v, cb) + cb
  }

  lemma WriteFacts(hole: Run, pos: nat, count: nat, clusterSize: nat, cb: nat) returns (pv: nat, b: int)
    requires Writable(hole, pos, count, clusterSize, cb)
    ensures clusterSize > 0 && cb > 0 && pv == VcnOf(pos, clusterSize) && b == BlockStart(pv, cb)
    ensures BlockEnd(VcnOf(pos + count - 1, clusterSize), cb) == b + cb
    ensures b <= pv < b + cb <= hole.vcn + hole.length && Maps(hole, pv)
    ensures var rest := hole.length % cb;
            && (b < hole.vcn ==> rest == cb - (hole.vcn - b))
            && (b == hole.vcn ==> rest == 0)
            && (b > hole.vcn ==> rest <= b - hole.vcn)
            && (hole.length == cb ==> b == hole.vcn)
  {
    pv := VcnOf(pos, clusterSize);
    b := BlockStart(pv, cb);
    BlockFacts(hole.vcn, hole.length, pv, cb);
    if hole.length == cb {
      Unpack(1, 0, cb);
    }
  }

  /** Byte positions against clusters. */
  predicate AtOrAfter(pos: nat, vcn: int, clusterSize: nat) {
    pos >= vcn * clusterSize
  }

  lemma AtOrAfterIs(pos: nat, vcn: int, clusterSize: nat)
    requires clusterSize > 0
    ensures AtOrAfter(pos, vcn, clusterSize) <==> VcnOf(pos, clusterSize) >= vcn
  {
    var q, z := Divide(pos, clusterSize);
    Multiples(q - vcn, clusterSize);
    assert (q - vcn) * clusterSize == q * clusterSize - vcn * clusterSize;
  }

  /** Slot r has given way to hs; what was behind it, up to the terminator at e, is behind hs. */
  ghost predicate Edited(now: seq<Run>, was: seq<Run>, r: nat, hs: seq<Run>, e: nat) {
    && |now| == |was| && r < e && hs != [] && e + |hs| - 1 < |now|
    && (forall i :: 0 <= i < r ==> now[i] == was[i])
    && (forall i :: 0 <= i < |hs| ==> now[r + i] == hs[i])
    && (forall j {:trigger now[j]} :: r + |hs| <= j < e + |hs| ==> now[j] == was[j - |hs| + 1])
  }

  lemma EditedHolds(now: seq<Run>, was: seq<Run>, runs: seq<Run>, r: nat, hs: seq<Run>)
    requires Holds(was, runs) && r < |runs| && runs[r].lcn == LCN_HOLE && Edited(now, was, r, hs, |runs|)
    requires Contiguous(hs, runs[r].vcn) && End(hs, runs[r].vcn) == runs[r].vcn + runs[r].length && AreHoles(hs)
    ensures Holds(now, Replace(runs, r, hs)) && SameMapping(Replace(runs, r, hs), runs)
  {
    HeldAt(was, runs);
    hide Contiguous, End, AreHoles;
    HoldsReplaced(now, runs, r, hs);
  }

  ghost predicate RunsUpTo(a: seq<Run>, r: nat, e: nat) {
    r < e < |a| && a[e].length == 0 && forall i :: r <= i < e ==> a[i].length != 0
  }

  /** The pieces, case by case. */
  lemma PiecesAre(hole: Run, pv: int, cb: nat, b: int, end: int)
    requires cb > 0 && hole.lcn == LCN_HOLE && b == BlockStart(pv, cb) && end == hole.vcn + hole.length && b + cb <= end
    ensures Pieces(hole, pv, cb) ==
            if b > hole.vcn && b + cb < end then
              [hole.(length := b - hole.vcn), Run(b, LCN_HOLE, cb), Run(b + cb, LCN_HOLE, end - (b + cb))]
            else if b + cb < end then [hole.(length := b + cb - hole.vcn), Run(b + cb, LCN_HOLE, end - (b + cb))]
            else if b > hole.vcn then [hole.(length := b - hole.vcn), Run(b, LCN_HOLE, cb)]
            else [hole]
    ensures WrittenPart(hole, pv, cb) == Pieces(hole, pv, cb)[if b > hole.vcn then 1 else 0]
    ensures CompressedPart(hole, pv, cb) == if b < hole.vcn then hole.vcn - b else cb
  {
    hide BlockStart;
  }

  lemma ReadyToSplit(was: seq<Run>, runs: seq<Run>, r: nat)
    requires Holds(was, runs) && |runs| + 2 < |was| && r < |runs| && runs[r].lcn == LCN_HOLE
    ensures RunsUpTo(was, r, |runs|) && was[r] == runs[r] && was[r + 1].vcn == runs[r].vcn + runs[r].length
    ensures Edited(was, was, r, [runs[r]], |runs|)
  {
    HeldAt(was, runs);
    Next(runs, 0, r);
    hide Contiguous, End, Edited;
    NothingEdited(was, r, |runs|);
    assert was[r] == runs[r] && (r + 1 < |runs| ==> was[r + 1] == runs[r + 1]);
  }

  lemma NothingEdited(a: seq<Run>, r: nat, e: nat)
    requires r < e < |a|
    ensures Edited(a, a, r, [a[r]], e)
  {
  }

  lemma EditedResult(now: seq<Run>, was: seq<Run>, runs: seq<Run>, r: nat, hs: seq<Run>, p: nat)
    requires Holds(was, runs) && r < |runs| && runs[r].lcn == LCN_HOLE && Edited(now, was, r, hs, |runs|)
    requires Contiguous(hs, runs[r].vcn) && End(hs, runs[r].vcn) == runs[r].vcn + runs[r].length && AreHoles(hs)
    requires r <= p < r + |hs|
    ensures Holds(now, Replace(runs, r, hs)) && SameMapping(Replace(runs, r, hs), runs)
    ensures p < |Replace(runs, r, hs)| && p < |now| && Replace(runs, r, hs)[p] == hs[p - r] == now[p]
  {
    EditedHolds(now, was, runs, r, hs);
    hide Contiguous, End, AreHoles, Holds, SameMapping;
    assert now[r + (p - r)] == hs[p - r];
  }

  /** The hole begins before the block and ends behind it: split into three parts. */
  method SplitThree(a: array<Run>, r: nat, endblock: int, cb: nat, ghost e: nat)
    requires RunsUpTo(a[..], r, e) && e + 2 < a.Length && a[r].lcn == LCN_HOLE
    modifies a
    ensures var h := old(a[r]);
            Edited(a[..], old(a[..]), r, [h.(length := endblock - cb), Run(h.vcn + endblock - cb, LCN_HOLE, cb),
                                          Run(h.vcn + endblock, LCN_HOLE, h.length - endblock)], e)
  {
    ShiftRuns(a, r, 2, e);
    a[r + 1] := a[r + 1].(length := cb);
    a[r + 2] := a[r + 2].(length := a[r].length - endblock);
    a[r] := a[r].(length := endblock - cb);
    a[r + 1], a[r + 2] := a[r + 1].(lcn := LCN_HOLE), a[r + 2].(lcn := LCN_HOLE);
    a[r + 1] := a[r + 1].(vcn := a[r].vcn + a[r].length);
    a[r + 2] := a[r + 2].(vcn := a[r + 1].vcn + cb);
  }

  /** Split into two parts, the first one `endblock` clusters long. */
  method SplitFirst(a: array<Run>, r: nat, endblock: int, ghost e: nat)
    requires RunsUpTo(a[..], r, e) && e + 1 < a.Length && a[r].lcn == LCN_HOLE
    modifies a
    ensures var h := old(a[r]);
            Edited(a[..], old(a[..]), r,
                   [h.(length := endblock), Run(h.vcn + endblock, LCN_HOLE, h.length - endblock)], e)
  {
    ShiftRuns(a, r, 1, e);
    a[r + 1] := a[r + 1].(length := a[r].length - endblock);
    a[r] := a[r].(length := endblock);
    a[r + 1] := a[r + 1].(vcn := a[r].vcn + a[r].length, lcn := LCN_HOLE);
  }

  /** Split into two parts, the last one of cb clusters. */
  method SplitLast(a: array<Run>, r: nat, cb: nat, ghost e: nat)
    requires RunsUpTo(a[..], r, e) && e + 1 < a.Length && a[r].lcn == LCN_HOLE
    modifies a
    ensures var h := old(a[r]);
            Edited(a[..], old(a[..]), r, [h.(length := h.length - cb), Run(old(a[r + 1].vcn) - cb, LCN_HOLE, cb)], e)
  {
    ghost var was := a[..];
    assert was[r + 1] == a[r + 1] && was[e] == a[e];
    if a[r + 1].length != 0 {
      ShiftRuns(a, r, 1, e);
    } else {
      assert e == r + 1;
      a[r + 2] := a[r + 1];
    }
    a[r + 1] := Run(a[r + 1].vcn - cb, LCN_HOLE, cb);
    a[r] := a[r].(length := a[r].length - cb);
  }

  /** The count of unused slots after a split: two are reserved, and each new run takes one, but that the new
    * run at the end of the list, in front of the terminator, is not counted. */
  function UnusedAfter(hole: Run, pv: int, cb: nat, last: bool): int
    requires cb > 0
  {
    3 - |Pieces(hole, pv, cb)| + if last && BlockEnd(pv, cb) == hole.vcn + hole.length then 1 else 0
  }

  lemma TerminatorNext(a: seq<Run>, r: nat, e: nat)
    requires RunsUpTo(a, r, e)
    ensures r + 1 < |a| && (a[r + 1].length == 0 <==> r + 1 == e)
  {
  }

  lemma UnusedIs(hole: Run, pv: int, cb: nat, b: int, last: bool)
    requires cb > 0 && b == BlockStart(pv, cb) && b + cb <= hole.vcn + hole.length && hole.length > cb
    ensures UnusedAfter(hole, pv, cb, last) ==
            if b + cb < hole.vcn + hole.length then (if b > hole.vcn then 0 else 1) else if last then 2 else 1
  {
    hide BlockStart;
  }

  /** Split a hole larger than a block around the block that starts at vcn b and ends at endVcn; `rest` is
    * what the hole's length exceeds whole blocks by. */
  method SplitBlock(a: array<Run>, r: nat, pVcn: int, endVcn: int, rest: int, pos: nat, clusterSize: nat, cb: nat,
                    ghost e: nat, ghost b: int)
    returns (compressedPart: int, p: nat, unused: nat)
    requires r < e && e + 2 < a.Length && RunsUpTo(a[..], r, e) && a[r].lcn == LCN_HOLE && a[r].length > cb > 0
    requires a[r + 1].vcn == a[r].vcn + a[r].length && endVcn == b + cb <= a[r + 1].vcn && b == BlockStart(pVcn, cb)
    requires b <= pVcn < endVcn && a[r].vcn <= pVcn
    requires b < a[r].vcn ==> rest == cb - (a[r].vcn - b)
    requires b == a[r].vcn ==> rest == 0
    requires b > a[r].vcn ==> rest <= b - a[r].vcn
    requires AtOrAfter(pos, a[r + 1].vcn - cb, clusterSize) <==> pVcn >= a[r + 1].vcn - cb
    modifies a
    ensures compressedPart == CompressedPart(old(a[r]), pVcn, cb)
    ensures r <= p <= r + 1 && p - r < |Pieces(old(a[r]), pVcn, cb)|
    ensures Pieces(old(a[r]), pVcn, cb)[p - r] == WrittenPart(old(a[r]), pVcn, cb)
    ensures Edited(a[..], old(a[..]), r, Pieces(old(a[r]), pVcn, cb), e)
    ensures unused == UnusedAfter(old(a[r]), pVcn, cb, r + 1 == e)
  {
    PiecesAre(a[r], pVcn, cb, b, a[r].vcn + a[r].length);
    TerminatorNext(a[..], r, e);
    UnusedIs(a[r], pVcn, cb, b, r + 1 == e);
    hide *;
    p, unused := r, 2;
    var beginwrite := pVcn - a[r].vcn;
    var endblock := endVcn - a[r].vcn;
    compressedPart := cb - rest;
    if beginwrite + compressedPart >= cb {
      compressedPart := cb;
    }
    if endblock < a[r].length {
      if endblock > cb {
        unused := unused - 2;
        SplitThree(a, r, endblock, cb, e);
        p := r + 1;
      } else {
        // use the first part: the write cannot be in the second one
        assert beginwrite < endblock;
        unused := unused - 1;
        SplitFirst(a, r, endblock, e);
      }
    } else {
      var lastVcn := a[r + 1].vcn - cb;
      if a[r + 1].length != 0 {
        unused := unused - 1;
      }
      SplitLast(a, r, cb, e);
      if AtOrAfter(pos, lastVcn, clusterSize) {
        p := r + 1;
      }
    }
  }

  /** Split the hole of run r so that the write of `count` bytes at `pos`, which stays in one compression
    * block, gets a run p of its own in that block. Returns the number of clusters with existing compressed
    * data in the block (or the full block, if it was a full hole). Needs two empty slots. */
  method SplitCompressedHole(a: array<Run>, r: nat, pos: nat, count: nat, clusterSize: nat, cb: nat, updateFrom0: int,
                             unused0: nat, ghost runs: seq<Run>)
    returns (compressedPart: int, p: nat, updateFrom: int, unused: nat, ghost now: seq<Run>)
    requires Holds(a[..], runs) && |runs| + 2 < a.Length && r < |runs|
    requires Writable(runs[r], pos, count, clusterSize, cb)
    modifies a
    ensures Holds(a[..], now) && SameMapping(now, runs) && p < |now|
    ensures clusterSize > 0 && cb > 0
    ensures now[p] == WrittenPart(runs[r], VcnOf(pos, clusterSize), cb)
    ensures compressedPart == CompressedPart(runs[r], VcnOf(pos, clusterSize), cb)
    ensures HolesAligned(runs, cb) ==>
              HolesAligned(now, cb) && CountsInFront(runs, runs[r].vcn, VcnOf(pos, clusterSize), cb, compressedPart)
    ensures updateFrom ==
            if runs[r].length > cb && (updateFrom0 == -1 || now[p].vcn < updateFrom0) then now[p].vcn else updateFrom0
    ensures runs[r].length == cb ==> unused == unused0 && now == runs
    ensures runs[r].length > cb ==>
              (unused == 2 - (|now| - |runs|) <==>
               !(r + 1 == |runs| && BlockEnd(VcnOf(pos, clusterSize), cb) == runs[r].vcn + runs[r].length))
  {
    var hole := a[r];
    ghost var was := a[..];
    assert was[r] == hole;
    ReadyToSplit(was, runs, r);
    hide *;
    compressedPart, p, unused := SplitIfLarge(a, r, pos, count, clusterSize, cb, unused0, |runs|);
    SplitResult(a[..], was, runs, r, VcnOf(pos, clusterSize), cb, p, pos, count, clusterSize);
    now := Replace(runs, r, Pieces(hole, VcnOf(pos, clusterSize), cb));
    SplitCounts(runs, r, pos, count, clusterSize, cb);
    updateFrom := updateFrom0;
    if hole.length > cb && (updateFrom == -1 || a[p].vcn < updateFrom) {
      updateFrom := a[p].vcn;
    }
  }

  /** n counts the clusters from the beginning of the block to the hole, and all of them are allocated; or the
    * hole begins with the block or before. */
  ghost predicate CountsInFront(runs: seq<Run>, holeVcn: int, pv: nat, cb: nat, n: int)
    requires cb > 0
  {
    var b := BlockStart(pv, cb);
    if b < holeVcn then 0 <= b && b + n == holeVcn && forall v :: b <= v < holeVcn ==> Lcn(runs, v) >= 0
    else n == cb
  }

  lemma NoBlockEndInside(b: nat, x: int, cb: nat, pv: nat)
    requires cb > 0 && b == BlockStart(pv, cb) && AtBlockEnd(x, cb) && b < x
    ensures b + cb <= x
  {
    var q, z := Divide(pv, cb);
    var i := x / cb;
    assert x == cb * i;
    Multiples(i - q, cb);
    assert (i - q) * cb == x - b;
  }

  /** With aligned holes, what is in front of a hole in the block where it begins is allocated. */
  lemma AllocatedInFront(runs: seq<Run>, r: nat, pv: nat, cb: nat, v: int)
    requires cb > 0 && Contiguous(runs, 0) && HolesAligned(runs, cb) && r < |runs|
    requires BlockStart(pv, cb) <= v < runs[r].vcn <= pv && v >= 0
    ensures Lcn(runs, v) >= 0
  {
    hide *;
    WithinList(runs, r);
    var k := RunOf(runs, 0, v);
    LcnAt(runs, 0, k, v);
    MapsIs(runs[k], v);
    if k > r {
      InFront(runs, r, k);
    } else if k < r {
      InFront(runs, k, r);
      if runs[k].lcn == LCN_HOLE {
        AlignedAt(runs, cb, k);
        BlockOf(pv, cb);
        NoBlockEndInside(BlockStart(pv, cb), runs[k].vcn + runs[k].length, cb, pv);
      }
    }
  }

  lemma WithinList(runs: seq<Run>, r: nat)
    requires Contiguous(runs, 0) && r < |runs|
    ensures 0 <= runs[r].vcn < End(runs, 0) && runs[r].length > 0
  {
    Cut(runs, 0, r);
    EndGrows(runs[r..], runs[r].vcn);
  }

  lemma MapsIs(run: Run, v: int)
    ensures LCN_HOLE == -1
    ensures Maps(run, v) ==> run.vcn <= v < run.vcn + run.length
    ensures Maps(run, v) && run.lcn >= 0 ==> LcnIn(run, v) >= 0
  {
  }

  lemma AlignedAt(runs: seq<Run>, cb: nat, k: nat)
    requires cb > 0 && HolesAligned(runs, cb) && k < |runs| && runs[k].lcn == LCN_HOLE
    ensures AtBlockEnd(runs[k].vcn + runs[k].length, cb)
  {
  }

  lemma BlockOf(pv: nat, cb: nat)
    requires cb > 0
    ensures 0 <= BlockStart(pv, cb) <= pv < BlockStart(pv, cb) + cb
  {
    var q, z := Divide(pv, cb);
  }

  lemma ReplaceAligned(runs: seq<Run>, r: nat, hs: seq<Run>, cb: nat)
    requires cb > 0 && HolesAligned(runs, cb) && r < |runs| && HolesAligned(hs, cb)
    ensures HolesAligned(Replace(runs, r, hs), cb)
  {
    var now := Replace(runs, r, hs);
    forall i | 0 <= i < |now| && now[i].lcn == LCN_HOLE ensures (now[i].vcn + now[i].length) % cb == 0 {
      if i < r {
        assert now[i] == runs[i];
      } else if i < r + |hs| {
        assert now[i] == hs[i - r];
      } else {
        assert now[i] == runs[i - |hs| + 1];
      }
    }
  }

  /** The result for the whole list. */
  lemma SplitCounts(runs: seq<Run>, r: nat, pos: nat, count: nat, clusterSize: nat, cb: nat)
    requires Contiguous(runs, 0) && r < |runs| && Writable(runs[r], pos, count, clusterSize, cb)
    ensures clusterSize > 0 && cb > 0
    ensures var pv := VcnOf(pos, clusterSize);
            var now := Replace(runs, r, Pieces(runs[r], pv, cb));
            && (HolesAligned(runs, cb) ==>
                  HolesAligned(now, cb) && CountsInFront(runs, runs[r].vcn, pv, cb, CompressedPart(runs[r], pv, cb)))
            && |now| == |runs| + |Pieces(runs[r], pv, cb)| - 1
            && (runs[r].length == cb ==> now == runs)
  {
    var pv, b := WriteFacts(runs[r], pos, count, clusterSize, cb);
    var hole := runs[r];
    assert hole.lcn == LCN_HOLE && AtBlockEnd(hole.vcn + hole.length, cb);
    hide *;
    PiecesAre(hole, pv, cb, b, hole.vcn + hole.length);
    var hs := Pieces(hole, pv, cb);
    OneReplaced(runs, r, hs);
    if HolesAligned(runs, cb) {
      PiecesAligned(hole, pv, cb);
      ReplaceAligned(runs, r, hs, cb);
      BlockOf(pv, cb);
      MapsIs(hole, pv);
      forall v | b <= v < hole.vcn ensures Lcn(runs, v) >= 0 {
        AllocatedInFront(runs, r, pv, cb, v);
      }
      CountsAre(runs, hole.vcn, pv, cb, CompressedPart(hole, pv, cb));
    }
  }

  lemma OneReplaced(runs: seq<Run>, r: nat, hs: seq<Run>)
    requires r < |runs|
    ensures |Replace(runs, r, hs)| == |runs| + |hs| - 1
    ensures hs == [runs[r]] ==> Replace(runs, r, hs) == runs
  {
  }

  lemma CountsAre(runs: seq<Run>, holeVcn: int, pv: nat, cb: nat, n: int)
    requires cb > 0
    requires var b := BlockStart(pv, cb);
             if b < holeVcn then 0 <= b && b + n == holeVcn && forall v :: b <= v < holeVcn ==> Lcn(runs, v) >= 0
             else n == cb
    ensures CountsInFront(runs, holeVcn, pv, cb, n)
  {
  }

  lemma PiecesAligned(hole: Run, pv: nat, cb: nat)
    requires cb > 0 && AtBlockEnd(hole.vcn + hole.length, cb)
    ensures HolesAligned(Pieces(hole, pv, cb), cb)
  {
    var q, z := Divide(pv, cb);
    var b := BlockStart(pv, cb);
    assert b == q * cb;
    Unpack(q, 0, cb);
    Unpack(q + 1, 0, cb);
    assert (q + 1) * cb == b + cb;
  }

  lemma SplitResult(now: seq<Run>, was: seq<Run>, runs: seq<Run>, r: nat, pv: nat, cb: nat, p: nat,
                    pos: nat, count: nat, clusterSize: nat)
    requires Holds(was, runs) && r < |runs| && Writable(runs[r], pos, count, clusterSize, cb)
             && pv == VcnOf(pos, clusterSize)
    requires Edited(now, was, r, Pieces(runs[r], pv, cb), |runs|)
    requires r <= p < r + |Pieces(runs[r], pv, cb)| && Pieces(runs[r], pv, cb)[p - r] == WrittenPart(runs[r], pv, cb)
    ensures var hs := Replace(runs, r, Pieces(runs[r], pv, cb));
            Holds(now, hs) && SameMapping(hs, runs) && p < |hs| && p < |now|
              && hs[p] == now[p] == WrittenPart(runs[r], pv, cb)
  {
    assert runs[r].lcn == LCN_HOLE;
    assert runs[r].vcn >= 0 && Maps(runs[r], pv) && AtBlockEnd(runs[r].vcn + runs[r].length, cb);
    hide *;
    PiecesFit(runs[r], pv, cb);
    EditedResult(now, was, runs, r, Pieces(runs[r], pv, cb), p);
  }

  /** The split itself, needed only when the hole is larger than a block. */
  method SplitIfLarge(a: array<Run>, r: nat, pos: nat, count: nat, clusterSize: nat, cb: nat, unused0: nat,
                      ghost e: nat)
    returns (compressedPart: int, p: nat, unused: nat)
    requires r < e && e + 2 < a.Length && RunsUpTo(a[..], r, e) && a[r + 1].vcn == a[r].vcn + a[r].length
    requires Edited(a[..], a[..], r, [a[r]], e) && Writable(a[r], pos, count, clusterSize, cb)
    modifies a
    ensures clusterSize > 0 && cb > 0 && r <= p
    ensures var h, pv := old(a[r]), VcnOf(pos, clusterSize);
            && compressedPart == CompressedPart(h, pv, cb)
            && p - r < |Pieces(h, pv, cb)| && Pieces(h, pv, cb)[p - r] == WrittenPart(h, pv, cb)
            && Edited(a[..], old(a[..]), r, Pieces(h, pv, cb), e)
            && unused == if h.length > cb then UnusedAfter(h, pv, cb, r + 1 == e) else unused0
  {
    var hole := a[r];
    assert hole.lcn == LCN_HOLE && hole.length >= cb > 0;
    hide *;
    ghost var b;
    var pVcn, endVcn, rest;
    pVcn, endVcn, rest, b := LocateWrite(hole, pos, count, clusterSize, cb);
    compressedPart, p, unused := cb, r, unused0;
    if hole.length > cb {
      compressedPart, p, unused := SplitBlock(a, r, pVcn, endVcn, rest, pos, clusterSize, cb, e, b);
    } else {
      PiecesAre(hole, pVcn, cb, b, hole.vcn + hole.length);
    }
  }

  /** Locate the block to be written relative to the hole. */
  method LocateWrite(hole: Run, pos: nat, count: nat, clusterSize: nat, cb: nat)
    returns (pVcn: nat, endVcn: int, rest: int, ghost b: int)
    requires Writable(hole, pos, count, clusterSize, cb)
    ensures clusterSize > 0 && cb > 0 && hole.vcn >= 0 && AtBlockEnd(hole.vcn + hole.length, cb)
    ensures pVcn == VcnOf(pos, clusterSize) && b == BlockStart(pVcn, cb) && endVcn == b + cb <= hole.vcn + hole.length
    ensures b <= pVcn < endVcn && hole.vcn <= pVcn && Maps(hole, pVcn)
    ensures b < hole.vcn ==> rest == cb - (hole.vcn - b)
    ensures b == hole.vcn ==> rest == 0
    ensures b > hole.vcn ==> rest <= b - hole.vcn
    ensures hole.length == cb ==> b == hole.vcn
    ensures AtOrAfter(pos, hole.vcn + hole.length - cb, clusterSize) <==> pVcn >= hole.vcn + hole.length - cb
  {
    ghost var pv;
    pv, b := WriteFacts(hole, pos, count, clusterSize, cb);
    AtOrAfterIs(pos, hole.vcn + hole.length - cb, clusterSize);
    pVcn := VcnOf(pos, clusterSize);
    endVcn := BlockEnd(VcnOf(pos + count - 1, clusterSize), cb);
    rest := hole.length % cb;
  }
}
