/** Runlists: where the clusters of an attribute are on the volume. A run maps `length` virtual
  * clusters from vcn on to the logical clusters from lcn on, or to nothing (a hole). */
module Runlist {
  const LCN_HOLE: int := -1
  const LCN_ENOENT: int := -3

  datatype Run = Run(vcn: int, lcn: int, length: int)

  /** The vcn after the last run of a list that starts at vcn v0. */
  function End(runs: seq<Run>, v0: int): int {
    if runs == [] then v0 else End(runs[1..], v0 + runs[0].length)
  }

  /** The runs follow each other without a gap from vcn v0 on, are not empty, and are all mapped. */
  ghost predicate Contiguous(runs: seq<Run>, v0: int) {
    runs == [] ||
    (runs[0].vcn == v0 && runs[0].length > 0 && runs[0].lcn >= LCN_HOLE && Contiguous(runs[1..], v0 + runs[0].length))
  }

  function Maps(r: Run, v: int): bool {
    r.vcn <= v < r.vcn + r.length
  }

  function LcnIn(r: Run, v: int): int {
    if r.lcn >= 0 then r.lcn + (v - r.vcn) else r.lcn
  }

  /** The meaning of a runlist: the logical cluster of a virtual cluster, or LCN_HOLE, or LCN_ENOENT
    * outside the list. */
  function Lcn(runs: seq<Run>, v: int): int {
    if runs == [] then LCN_ENOENT
    else if Maps(runs[0], v) then LcnIn(runs[0], v)
    else Lcn(runs[1..], v)
  }

  /** The runlist array holds the runs followed by a terminator. */
  ghost predicate Holds(a: seq<Run>, runs: seq<Run>) {
    && |runs| < |a| && a[..|runs|] == runs
    && a[|runs|].length == 0 && a[|runs|].vcn == End(runs, 0) && a[|runs|].lcn < LCN_HOLE
    && Contiguous(runs, 0)
  }

  /** The terminator says that there is nothing behind the list, and not that something is to be mapped. */
  ghost predicate Terminated(a: seq<Run>, runs: seq<Run>) {
    |runs| < |a| && a[|runs|].lcn == LCN_ENOENT
  }

  /** Every hole ends with a compression block of cb clusters. */
  ghost predicate HolesAligned(runs: seq<Run>, cb: nat)
    requires cb > 0
  {
    forall i :: 0 <= i < |runs| && runs[i].lcn == LCN_HOLE ==> (runs[i].vcn + runs[i].length) % cb == 0
  }

  ghost predicate HolesApart(runs: seq<Run>) {
    forall i :: 0 <= i < |runs| - 1 ==> !(runs[i].lcn == LCN_HOLE && runs[i + 1].lcn == LCN_HOLE)
  }

  /** v is the end of a compression block of cb clusters. */
  predicate AtBlockEnd(v: int, cb: nat)
    requires cb > 0
  {
    v % cb == 0
  }

  /** The vcn of a byte position. */
  function VcnOf(pos: nat, clusterSize: nat): (v: nat)
    requires clusterSize > 0
  {
    pos / clusterSize
  }

  // ----- lists cut in two -----

  lemma {:induction false} Concat(a: seq<Run>, b: seq<Run>, v0: int)
    ensures Contiguous(a + b, v0) <==> Contiguous(a, v0) && Contiguous(b, End(a, v0))
    ensures End(a + b, v0) == End(b, End(a, v0))
    decreases |a|
  {
    if a == [] {
      assert a + b == b;
    } else {
      assert (a + b)[1..] == a[1..] + b;
      Concat(a[1..], b, v0 + a[0].length);
    }
  }

  lemma {:induction false} EndGrows(runs: seq<Run>, v0: int)
    requires Contiguous(runs, v0)
    ensures v0 + |runs| <= End(runs, v0)
    decreases |runs|
  {
    if runs != [] {
      EndGrows(runs[1..], v0 + runs[0].length);
    }
  }

  /** Inside the list every vcn is mapped to a cluster or to a hole; outside, to nothing. */
  lemma {:induction false} LcnRange(runs: seq<Run>, v0: int, v: int)
    requires Contiguous(runs, v0)
    ensures v0 <= v < End(runs, v0) <==> Lcn(runs, v) != LCN_ENOENT
    ensures Lcn(runs, v) >= LCN_HOLE || Lcn(runs, v) == LCN_ENOENT
    decreases |runs|
  {
    if runs != [] {
      EndGrows(runs[1..], v0 + runs[0].length);
      LcnRange(runs[1..], v0 + runs[0].length, v);
    }
  }

  lemma {:induction false} LcnConcat(a: seq<Run>, b: seq<Run>, v0: int, v: int)
    requires Contiguous(a, v0) && Contiguous(b, End(a, v0))
    ensures Lcn(a + b, v) == if v < End(a, v0) then Lcn(a, v) else Lcn(b, v)
    decreases |a|
  {
    if a == [] {
      assert a + b == b;
      LcnRange(b, v0, v);
    } else {
      assert (a + b)[1..] == a[1..] + b;
      EndGrows(a[1..], v0 + a[0].length);
      LcnConcat(a[1..], b, v0 + a[0].length, v);
      if v < v0 {
        LcnRange(a[1..], v0 + a[0].length, v);
      }
    }
  }

  /** The run at position k, and what is before and after it. */
  lemma Cut(runs: seq<Run>, v0: int, k: nat)
    requires Contiguous(runs, v0) && k < |runs|
    ensures Contiguous(runs[..k], v0) && End(runs[..k], v0) == runs[k].vcn
    ensures Contiguous(runs[k..], runs[k].vcn) && End(runs[k..], runs[k].vcn) == End(runs, v0)
    ensures runs[k].length > 0 && runs[k].lcn >= LCN_HOLE && v0 + k <= runs[k].vcn
    ensures Contiguous(runs[k + 1..], runs[k].vcn + runs[k].length)
    ensures End(runs[k + 1..], runs[k].vcn + runs[k].length) == End(runs, v0)
  {
    assert runs == runs[..k] + runs[k..];
    Concat(runs[..k], runs[k..], v0);
    EndGrows(runs[..k], v0);
    assert runs[k..][1..] == runs[k + 1..] && runs[k..][0] == runs[k];
  }

  lemma LcnCut(runs: seq<Run>, v0: int, k: nat, v: int)
    requires Contiguous(runs, v0) && k <= |runs|
    ensures Contiguous(runs[..k], v0)
    ensures Lcn(runs, v) == if v < End(runs[..k], v0) then Lcn(runs[..k], v) else Lcn(runs[k..], v)
  {
    assert runs == runs[..k] + runs[k..];
    Concat(runs[..k], runs[k..], v0);
    LcnConcat(runs[..k], runs[k..], v0, v);
  }

  /** The meaning of a vcn that run k maps. */
  lemma LcnAt(runs: seq<Run>, v0: int, k: nat, v: int)
    requires Contiguous(runs, v0) && k < |runs| && Maps(runs[k], v)
    ensures Lcn(runs, v) == LcnIn(runs[k], v)
  {
    LcnCut(runs, v0, k, v);
    Cut(runs, v0, k);
    assert runs[k..][0] == runs[k];
  }

  /** The run at position k and the vcn after it. */
  lemma Next(runs: seq<Run>, v0: int, k: nat)
    requires Contiguous(runs, v0) && k < |runs|
    ensures runs[k].length > 0 && runs[k].lcn >= LCN_HOLE && v0 + k <= runs[k].vcn
    ensures runs[k].vcn + runs[k].length == if k + 1 < |runs| then runs[k + 1].vcn else End(runs, v0)
    ensures k + 1 < |runs| ==> runs[k].vcn + runs[k].length < End(runs, v0)
  {
    Cut(runs, v0, k);
    if k + 1 < |runs| {
      Cut(runs, v0, k + 1);
      EndGrows(runs[k + 1..], runs[k + 1].vcn);
      assert runs[k + 1..][0] == runs[k + 1];
    }
  }

  /** A run in front of another ends where that one begins, or before. */
  lemma InFront(runs: seq<Run>, k: nat, r: nat)
    requires Contiguous(runs, 0) && k < r < |runs|
    ensures runs[k].vcn + runs[k].length <= runs[r].vcn && 0 <= runs[k].vcn && runs[k].lcn >= LCN_HOLE
  {
    Cut(runs, 0, r);
    Next(runs[..r], 0, k);
    Next(runs, 0, k);
  }

  /** The run of a vcn. */
  lemma {:induction false} RunOf(runs: seq<Run>, v0: int, v: int) returns (k: nat)
    requires Contiguous(runs, v0) && v0 <= v < End(runs, v0)
    ensures k < |runs| && Maps(runs[k], v)
    decreases |runs|
  {
    if Maps(runs[0], v) {
      k := 0;
    } else {
      k := RunOf(runs[1..], v0 + runs[0].length, v);
      k := k + 1;
    }
  }

  /** The array's view of the list. */
  lemma HeldAt(a: seq<Run>, runs: seq<Run>)
    requires Holds(a, runs)
    ensures forall i :: 0 <= i < |runs| ==> a[i] == runs[i] && runs[i].length > 0 && runs[i].lcn >= LCN_HOLE
  {
    forall i | 0 <= i < |runs| ensures a[i] == runs[i] && runs[i].length > 0 && runs[i].lcn >= LCN_HOLE {
      assert a[..|runs|][i] == a[i];
      Next(runs, 0, i);
    }
  }
}
