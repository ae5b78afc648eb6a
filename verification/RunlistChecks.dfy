/** The two readers of a compressed runlist: is a compression block stored compressed, and is the
  * runlist a valid one. */
module RunlistChecks {
  import opened Runlist
  import opened SavedClusters

  /** Something in the compression block from vcn cbStart on is not mapped to a cluster. */
  ghost predicate HasHole(runs: seq<Run>, cbStart: int, cbClusters: int) {
    exists v :: cbStart <= v < cbStart + cbClusters && Lcn(runs, v) < 0
  }

  ghost predicate Full(runs: seq<Run>, from: int, to: int) {
    forall v :: from <= v < to ==> Lcn(runs, v) >= 0
  }

  /** Is the compression block that starts in the (allocated) run r0 compressed? That is so when not all
    * of its clusters are allocated. The runlist is fully mapped; its end counts as an error, answered by
    * true like in the case of a hole. */
  method IsCbCompressed(a: array<Run>, r0: nat, cbStart: int, cbClusters0: int, ghost runs: seq<Run>) returns (b: bool)
    requires Holds(a[..], runs) && r0 < |runs| && Maps(runs[r0], cbStart) && runs[r0].lcn >= 0
    ensures b <==> HasHole(runs, cbStart, cbClusters0)
  {
    HeldAt(a[..], runs);
    assert forall i :: 0 <= i < |runs| ==> a[i] == a[..][i];
    assert a[|runs|] == a[..][|runs|];
    var k := r0;
    ghost var cbEnd := cbStart + cbClusters0;
    var cbClusters := cbClusters0 - (a[k].length - (cbStart - a[k].vcn));
    FullRun(runs, k);
    hide Contiguous, HasHole, Holds;
    while cbClusters > 0
      invariant r0 <= k < |runs| && cbClusters == cbEnd - (runs[k].vcn + runs[k].length)
      invariant cbStart <= runs[k].vcn + runs[k].length && Full(runs, cbStart, runs[k].vcn + runs[k].length)
      decreases |runs| - k
    {
      ghost var end := runs[k].vcn + runs[k].length;
      RunAfter(runs, k);
      k := k + 1;
      if a[k].lcn < LCN_HOLE || a[k].length == 0 || a[k].lcn == LCN_HOLE {
        Witness(runs, end, cbStart, cbClusters0);
        return true;
      }
      FullRun(runs, k);
      if a[k].length >= cbClusters {
        NoHole(runs, cbStart, cbClusters0);
        return false;
      }
      cbClusters := cbClusters - a[k].length;
    }
    NoHole(runs, cbStart, cbClusters0);
    return false;
  }

  lemma FullRun(runs: seq<Run>, k: nat)
    requires Contiguous(runs, 0) && k < |runs| && runs[k].lcn >= 0
    ensures Full(runs, runs[k].vcn, runs[k].vcn + runs[k].length)
  {
    forall v | Maps(runs[k], v) ensures Lcn(runs, v) >= 0 {
      LcnAt(runs, 0, k, v);
    }
  }

  /** What comes after a run: the next run, or nothing. */
  lemma RunAfter(runs: seq<Run>, k: nat)
    requires Contiguous(runs, 0) && k < |runs|
    ensures k + 1 < |runs| ==> runs[k + 1].vcn == runs[k].vcn + runs[k].length && runs[k + 1].length > 0
    ensures var end := runs[k].vcn + runs[k].length;
            Lcn(runs, end) == if k + 1 < |runs| then LcnIn(runs[k + 1], end) else LCN_ENOENT
  {
    Next(runs, 0, k);
    if k + 1 < |runs| {
      Next(runs, 0, k + 1);
      LcnAt(runs, 0, k + 1, runs[k + 1].vcn);
    } else {
      LcnRange(runs, 0, End(runs, 0));
    }
  }

  lemma Witness(runs: seq<Run>, v: int, cbStart: int, cbClusters: int)
    requires cbStart <= v < cbStart + cbClusters && Lcn(runs, v) < 0
    ensures HasHole(runs, cbStart, cbClusters)
  {
  }

  lemma NoHole(runs: seq<Run>, cbStart: int, cbClusters: int)
    requires Full(runs, cbStart, cbStart + cbClusters)
    ensures !HasHole(runs, cbStart, cbClusters)
  {
  }

  /** Once compression has freed at least one cluster of a block, the block is recognised as compressed. */
  lemma SavedBlockIsCompressed(now: seq<Run>, runs: seq<Run>, v: int, cb: nat)
    requires cb > 0 && Compressed(now, runs, v, cb) && End(runs, 0) - cb <= v < End(runs, 0)
    ensures HasHole(now, End(runs, 0) - cb, cb)
  {
    Witness(now, v, End(runs, 0) - cb, cb);
  }

  /** What the validity check looks at, run by run from position i on. */
  ghost predicate ValidFrom(a: seq<Run>, i: nat, e: nat, cb: nat, fullcheck: bool)
    requires e < |a| && cb > 0
  {
    forall k :: i <= k < e ==> ValidAt(a, k, cb, fullcheck)
  }

  predicate ValidAt(a: seq<Run>, k: nat, cb: nat, fullcheck: bool)
    requires k + 1 < |a| && cb > 0
  {
    && a[k].vcn + a[k].length == a[k + 1].vcn
    && (a[k].lcn == LCN_HOLE ==> (a[k].vcn + a[k].length) % cb == 0 && !(fullcheck && a[k + 1].lcn == LCN_HOLE))
  }

  /** The last run up to r that starts a compression block. */
  function BlockRun(a: seq<Run>, r: nat, cb: nat): (from: nat)
    requires r < |a| && cb > 0 && a[0].vcn == 0
    ensures from <= r && a[from].vcn % cb == 0
    ensures forall k :: from < k <= r ==> a[k].vcn % cb != 0
  {
    if a[r].vcn % cb == 0 then r else BlockRun(a, r - 1, cb)
  }

  /** Check the runlist from the beginning of the compression block of run r on. */
  method ValidCompressedRun(a: array<Run>, r: nat, cb: nat, fullcheck: bool, ghost e: nat) returns (ok: bool)
    requires r <= e < a.Length && cb > 0 && a[0].vcn == 0
    requires a[e].length == 0 && forall k :: 0 <= k < e ==> a[k].length != 0
    ensures ok <==> ValidFrom(a[..], BlockRun(a[..], r, cb), e, cb, fullcheck)
  {
    var x := r;
    while a[x].vcn % cb != 0
      invariant 0 <= x <= r && BlockRun(a[..], x, cb) == BlockRun(a[..], r, cb)
      decreases x
    {
      x := x - 1;
    }
    ghost var from := x;
    ok := true;
    while a[x].length != 0
      invariant from <= x <= e && (ok <==> ValidFrom(a[..x + 1], from, x, cb, fullcheck))
      decreases e - x
    {
      var valid := ValidAt(a[..], x, cb, fullcheck);
      ok := ok && valid;
      ExtendValid(a[..], from, x, cb, fullcheck);
      x := x + 1;
    }
    ShortValid(a[..], from, e, cb, fullcheck);
  }

  lemma ExtendValid(a: seq<Run>, from: nat, x: nat, cb: nat, fullcheck: bool)
    requires from <= x && x + 1 < |a| && cb > 0
    ensures ValidFrom(a[..x + 2], from, x + 1, cb, fullcheck) <==>
            ValidFrom(a[..x + 1], from, x, cb, fullcheck) && ValidAt(a, x, cb, fullcheck)
  {
    ShortValid(a, from, x, cb, fullcheck);
    ShortValid(a, from, x + 1, cb, fullcheck);
  }

  lemma ShortValid(a: seq<Run>, from: nat, x: nat, cb: nat, fullcheck: bool)
    requires from <= x < |a| && cb > 0
    ensures ValidFrom(a[..x + 1], from, x, cb, fullcheck) <==> ValidFrom(a, from, x, cb, fullcheck)
  {
    var b := a[..x + 1];
    if ValidFrom(b, from, x, cb, fullcheck) {
      forall k | from <= k < x ensures ValidAt(a, k, cb, fullcheck) {
        assert ValidAt(b, k, cb, fullcheck);
      }
    }
    if ValidFrom(a, from, x, cb, fullcheck) {
      forall k | from <= k < x ensures ValidAt(b, k, cb, fullcheck) {
        assert ValidAt(a, k, cb, fullcheck);
      }
    }
  }

  lemma ValidAtRun(a: seq<Run>, runs: seq<Run>, k: nat, cb: nat)
    requires cb > 0 && Holds(a, runs) && k < |runs|
    ensures ValidAt(a, k, cb, true) <==>
            (runs[k].lcn == LCN_HOLE ==>
               (runs[k].vcn + runs[k].length) % cb == 0 && !(k < |runs| - 1 && runs[k + 1].lcn == LCN_HOLE))
  {
    HeldAt(a, runs);
    Next(runs, 0, k);
  }

  /** The full check from the start passes exactly when holes are aligned and never adjacent. */
  lemma GoodOrderIsValid(a: seq<Run>, runs: seq<Run>, cb: nat)
    requires cb > 0 && Holds(a, runs)
    ensures ValidFrom(a, 0, |runs|, cb, true) <==> HolesAligned(runs, cb) && HolesApart(runs)
  {
    if HolesAligned(runs, cb) && HolesApart(runs) {
      forall k | 0 <= k < |runs| ensures ValidAt(a, k, cb, true) {
        ValidAtRun(a, runs, k, cb);
      }
    } else if !HolesAligned(runs, cb) {
      var k :| 0 <= k < |runs| && runs[k].lcn == LCN_HOLE && (runs[k].vcn + runs[k].length) % cb != 0;
      ValidAtRun(a, runs, k, cb);
    } else {
      var k :| 0 <= k < |runs| - 1 && runs[k].lcn == LCN_HOLE && runs[k + 1].lcn == LCN_HOLE;
      ValidAtRun(a, runs, k, cb);
    }
  }
}
