/** Freeing the clusters that compression saved: the end of the block's allocation becomes a hole in
  * the runlist, edited in place. */
module SavedClusters {
  import opened Bytes
  import opened Runlist

  // ----- the clusters of a list of runs -----

  function RunClusters(r: Run): (s: seq<int>)
    ensures |s| == if r.lcn >= 0 && r.length > 0 then r.length else 0
    ensures forall i :: 0 <= i < |s| ==> s[i] == r.lcn + i
  {
    if r.lcn >= 0 && r.length > 0 then seq(r.length, i => r.lcn + i) else []
  }

  function Clusters(runs: seq<Run>): seq<int> {
    if runs == [] then [] else RunClusters(runs[0]) + Clusters(runs[1..])
  }

  ghost predicate Allocated(runs: seq<Run>) {
    forall i :: 0 <= i < |runs| ==> runs[i].lcn >= 0
  }

  /** The clusters of allocated runs are those their vcns are mapped to, in order. */
  lemma {:induction false} ClustersAreLcns(runs: seq<Run>, v0: int)
    requires Contiguous(runs, v0) && Allocated(runs)
    ensures |Clusters(runs)| == End(runs, v0) - v0
    ensures forall i :: 0 <= i < |Clusters(runs)| ==> Clusters(runs)[i] == Lcn(runs, v0 + i)
    decreases |runs|
  {
    if runs != [] {
      ClustersAreLcns(runs[1..], v0 + runs[0].length);
      forall i | 0 <= i < |Clusters(runs)| ensures Clusters(runs)[i] == Lcn(runs, v0 + i) {
        if i >= runs[0].length {
          assert Clusters(runs)[i] == Clusters(runs[1..])[i - runs[0].length];
          assert Lcn(runs, v0 + i) == Lcn(runs[1..], v0 + i);
        }
      }
    }
  }

  lemma {:induction false} ClustersConcat(a: seq<Run>, b: seq<Run>)
    ensures Clusters(a + b) == Clusters(a) + Clusters(b)
    decreases |a|
  {
    if a == [] {
      assert a + b == b;
    } else {
      assert (a + b)[1..] == a[1..] + b;
      ClustersConcat(a[1..], b);
    }
  }

  /** Give back to the volume the clusters of the runs from position i on, up to the terminator. The
    * bitmap may refuse (ok is false). */
  method FreeFromRl(a: array<Run>, i: nat, ok: bool, ghost tail: seq<Run>) returns (res: int, freed: multiset<int>)
    requires i + |tail| < a.Length && a[i..i + |tail|] == tail && a[i + |tail|].length == 0
    requires forall k :: 0 <= k < |tail| ==> tail[k].length > 0
    ensures res == if ok then 0 else -1
    ensures ok ==> freed == multiset(Clusters(tail))
  {
    hide Clusters, RunClusters;
    freed := multiset{};
    if !ok {
      return -1, freed;
    }
    var k := i;
    ghost var left := tail;
    while a[k].length != 0
      invariant i <= k <= i + |tail| && left == tail[k - i..]
      invariant left != [] ==> left[0] == a[k]
      invariant freed + multiset(Clusters(left)) == multiset(Clusters(tail))
      decreases i + |tail| - k
    {
      ClustersStep(left);
      if a[k].lcn >= 0 {
        freed := freed + multiset(RunClusters(a[k]));
      }
      k := k + 1;
      assert left[1..] == tail[k - i..];
      left := left[1..];
      if left != [] {
        assert a[i..i + |tail|][k - i] == a[k];
      }
    }
    assert left == [];
    ClustersEmpty();
    res := 0;
  }

  lemma ClustersStep(runs: seq<Run>)
    requires runs != []
    ensures multiset(Clusters(runs)) ==
            (if runs[0].lcn >= 0 then multiset(RunClusters(runs[0])) else multiset{}) + multiset(Clusters(runs[1..]))
  {
  }

  lemma ClustersEmpty()
    ensures Clusters([]) == []
  {
  }

  // ----- the new runlist -----

  /** The runs before position k, the used part of run k, and a hole for the freed clusters, merged
    * with the hole before when there is one. */
  function Freed(runs: seq<Run>, k: nat, usedcnt: int, freecnt: int): seq<Run>
    requires k < |runs|
  {
    var hole := Run(runs[k].vcn + usedcnt, LCN_HOLE, freecnt);
    if usedcnt > 0 then runs[..k] + [runs[k].(length := usedcnt)] + [hole]
    else if k > 0 && runs[k - 1].lcn == LCN_HOLE
      then runs[..k - 1] + [runs[k - 1].(length := runs[k - 1].length + freecnt)]
    else runs[..k] + [hole]
  }

  /** What is freed: the unused part of run k and all the following runs. */
  function Tail(runs: seq<Run>, k: nat, usedcnt: int): seq<Run>
    requires k < |runs|
  {
    var cut := Run(runs[k].vcn + usedcnt, runs[k].lcn + usedcnt, runs[k].length - usedcnt);
    (if cut.length > 0 then [cut] else []) + runs[k + 1..]
  }

  /** Position k is where the used clusters end, at vcn v. */
  ghost predicate CutsAt(runs: seq<Run>, k: nat, usedcnt: int, v: int) {
    && Contiguous(runs, 0) && k < |runs| && Allocated(runs[k..])
    && 0 <= usedcnt <= runs[k].length && v == runs[k].vcn + usedcnt && v < End(runs, 0)
  }

  lemma TailMeans(runs: seq<Run>, k: nat, usedcnt: int, v: int)
    requires CutsAt(runs, k, usedcnt, v)
    ensures Contiguous(Tail(runs, k, usedcnt), v) && End(Tail(runs, k, usedcnt), v) == End(runs, 0)
    ensures Allocated(Tail(runs, k, usedcnt))
    ensures forall u :: v <= u ==> Lcn(Tail(runs, k, usedcnt), u) == Lcn(runs, u)
  {
    Cut(runs, 0, k);
    var tail, rest := Tail(runs, k, usedcnt), runs[k + 1..];
    assert forall i :: 0 <= i < |rest| ==> rest[i] == runs[k..][i + 1];
    if usedcnt < runs[k].length {
      assert tail[1..] == rest;
    } else {
      assert tail == rest;
    }
    forall u | v <= u ensures Lcn(tail, u) == Lcn(runs, u) {
      LcnCut(runs, 0, k, u);
      assert runs[k..][0] == runs[k] && runs[k..][1..] == rest;
    }
  }

  /** The logical clusters of the vcns from v to the end. */
  ghost function ClustersFrom(runs: seq<Run>, v: int): seq<int>
    requires v <= End(runs, 0)
  {
    seq(End(runs, 0) - v, i => Lcn(runs, v + i))
  }

  /** The freed clusters are exactly those of the vcns from v on, each once. */
  lemma TailClusters(runs: seq<Run>, k: nat, usedcnt: int, v: int)
    requires CutsAt(runs, k, usedcnt, v)
    ensures Clusters(Tail(runs, k, usedcnt)) == ClustersFrom(runs, v)
  {
    TailMeans(runs, k, usedcnt, v);
    ClustersAreLcns(Tail(runs, k, usedcnt), v);
  }

  /** The new runlist: everything before v mapped as before, the rest a hole, the same end. */
  ghost predicate HoleFrom(now: seq<Run>, runs: seq<Run>, v: int) {
    && Contiguous(now, 0) && End(now, 0) == End(runs, 0)
    && (forall u :: u < v ==> Lcn(now, u) == Lcn(runs, u))
    && (forall u :: v <= u < End(runs, 0) ==> Lcn(now, u) == LCN_HOLE)
  }

  /** Putting a hole after a list that agrees with `runs` up to w; from w to v runs has a hole too. */
  lemma AppendHole(a: seq<Run>, runs: seq<Run>, w: int, v: int)
    requires Contiguous(a, 0) && Contiguous(runs, 0) && End(a, 0) == w && 0 <= w <= v < End(runs, 0)
    requires forall u :: u < w ==> Lcn(a, u) == Lcn(runs, u)
    requires forall u :: w <= u < v ==> Lcn(runs, u) == LCN_HOLE
    ensures HoleFrom(a + [Run(w, LCN_HOLE, End(runs, 0) - w)], runs, v)
  {
    var hole := [Run(w, LCN_HOLE, End(runs, 0) - w)];
    assert hole[1..] == [];
    Concat(a, hole, 0);
    forall u ensures Lcn(a + hole, u) == if u < w then Lcn(a, u) else if u < End(runs, 0) then LCN_HOLE
    else LCN_ENOENT {
      LcnConcat(a, hole, 0, u);
    }
  }

  lemma FreedMeans(runs: seq<Run>, k: nat, usedcnt: int, v: int)
    requires CutsAt(runs, k, usedcnt, v)
    ensures HoleFrom(Freed(runs, k, usedcnt, End(runs, 0) - v), runs, v)
  {
    hide HoleFrom;
    Cut(runs, 0, k);
    if usedcnt > 0 {
      FreedSplit(runs, k, usedcnt, v);
    } else if k > 0 && runs[k - 1].lcn == LCN_HOLE {
      FreedMerge(runs, k, v);
    } else {
      forall u | u < v ensures Lcn(runs[..k], u) == Lcn(runs, u) {
        LcnCut(runs, 0, k, u);
      }
      AppendHole(runs[..k], runs, v, v);
    }
  }

  lemma FreedSplit(runs: seq<Run>, k: nat, usedcnt: int, v: int)
    requires CutsAt(runs, k, usedcnt, v) && usedcnt > 0
    ensures HoleFrom(Freed(runs, k, usedcnt, End(runs, 0) - v), runs, v)
  {
    hide HoleFrom;
    Cut(runs, 0, k);
    var used := [runs[k].(length := usedcnt)];
    var a := runs[..k] + used;
    assert used[1..] == [];
    Concat(runs[..k], used, 0);
    forall u | u < v ensures Lcn(a, u) == Lcn(runs, u) {
      LcnCut(runs, 0, k, u);
      LcnConcat(runs[..k], used, 0, u);
    }
    AppendHole(a, runs, v, v);
  }

  lemma FreedMerge(runs: seq<Run>, k: nat, v: int)
    requires CutsAt(runs, k, 0, v) && k > 0 && runs[k - 1].lcn == LCN_HOLE
    ensures HoleFrom(Freed(runs, k, 0, End(runs, 0) - v), runs, v)
  {
    hide HoleFrom;
    Cut(runs, 0, k);
    Cut(runs, 0, k - 1);
    var w := runs[k - 1].vcn;
    assert runs[..k] == runs[..k - 1] + [runs[k - 1]];
    Concat(runs[..k - 1], [runs[k - 1]], 0);
    forall u | u < w ensures Lcn(runs[..k - 1], u) == Lcn(runs, u) {
      LcnCut(runs, 0, k - 1, u);
    }
    forall u | w <= u < v ensures Lcn(runs, u) == LCN_HOLE {
      LcnCut(runs, 0, k - 1, u);
    }
    AppendHole(runs[..k - 1], runs, w, v);
  }

  /** The freed runlist, but for its last run, is the old one with at most the last run cut. */
  lemma FreedPrefix(runs: seq<Run>, k: nat, usedcnt: int, v: int)
    requires CutsAt(runs, k, usedcnt, v)
    ensures var now := Freed(runs, k, usedcnt, End(runs, 0) - v);
            var last := |now| - 1;
            && 0 <= last <= |runs| && now[last].lcn == LCN_HOLE && now[last].vcn + now[last].length == End(runs, 0)
            && (forall i :: 0 <= i < last ==> now[i] == runs[i] || now[i].lcn >= 0)
            && (forall i :: 0 <= i < last ==> now[i].lcn == runs[i].lcn)
            && (last > 0 && now[last - 1].lcn == LCN_HOLE ==> last < |runs| && runs[last].lcn == LCN_HOLE)
  {
    assert runs[k] == runs[k..][0];
    if k > 0 {
      Cut(runs, 0, k - 1);
      assert runs[k - 1..][1..] == runs[k..];
    }
  }

  /** Holes stay aligned and are never adjacent. */
  lemma FreedShape(runs: seq<Run>, k: nat, usedcnt: int, v: int, cb: nat)
    requires CutsAt(runs, k, usedcnt, v) && cb > 0 && End(runs, 0) % cb == 0
    requires HolesAligned(runs, cb) && HolesApart(runs)
    ensures HolesAligned(Freed(runs, k, usedcnt, End(runs, 0) - v), cb)
    ensures HolesApart(Freed(runs, k, usedcnt, End(runs, 0) - v))
  {
    FreedPrefix(runs, k, usedcnt, v);
    hide Freed, CutsAt;
  }

  // ----- the edit in place -----

  /** Skip the runs that are fully used. */
  method SkipUsed(a: array<Run>, r0: nat, used: int, ghost runs: seq<Run>) returns (k: nat, usedcnt: int)
    requires Holds(a[..], runs) && r0 < |runs| && 0 <= used && runs[r0].vcn + used < End(runs, 0)
    ensures r0 <= k < |runs| && 0 <= usedcnt <= runs[k].length && runs[k].vcn + usedcnt == runs[r0].vcn + used
    ensures usedcnt == 0 ==> used == 0 && k == r0
  {
    k, usedcnt := r0, used;
    Cut(runs, 0, k);
    while a[k].length != 0 && a[k].length < usedcnt
      invariant r0 <= k < |runs| && 0 <= usedcnt && runs[k].vcn + usedcnt == runs[r0].vcn + used
      invariant usedcnt == 0 ==> used == 0 && k == r0
      invariant a[k] == runs[k] && runs[k].length > 0
      decreases |runs| - k
    {
      usedcnt := usedcnt - a[k].length;
      assert a[..|runs|][k] == a[k];
      assert runs[k + 1..] != [] by {
        Cut(runs, 0, k);
      }
      Cut(runs, 0, k + 1);
      Cut(runs, 0, k);
      assert a[..|runs|][k + 1] == a[k + 1];
      k := k + 1;
    }
  }

  /** Move the unused part of run k behind the last run, where only its clusters matter. */
  method MoveUnused(a: array<Run>, k: nat, usedcnt: int, ghost runs: seq<Run>)
    requires Holds(a[..], runs) && k < |runs| && |runs| + 1 < a.Length && 0 <= usedcnt < runs[k].length
    modifies a
    ensures a[k + 1..|runs| + 1] == runs[k + 1..] + [Run(runs[k].vcn + usedcnt, runs[k].lcn + usedcnt,
                                                         runs[k].length - usedcnt)]
    ensures a[|runs| + 1].length == 0
    ensures a[k] == runs[k].(length := usedcnt) && forall i :: 0 <= i < k ==> a[i] == old(a[i])
  {
    assert forall i :: 0 <= i < |runs| ==> a[i] == a[..|runs|][i] == runs[i];
    var freelcn, freevcn, freelength := a[k].lcn + usedcnt, a[k].vcn + usedcnt, a[k].length - usedcnt;
    a[k] := a[k].(length := usedcnt);
    var e := k + 1;
    Lengths(runs, 0);
    while a[e].length != 0
      invariant k < e <= |runs|
      invariant forall i :: k < i < |runs| ==> a[i] == runs[i]
      decreases |runs| - e
    {
      e := e + 1;
    }
    a[e + 1] := Run(a[e].vcn, LCN_ENOENT, 0);
    a[e] := Run(freevcn, freelcn, freelength);
    assert a[k + 1..|runs|] == runs[k + 1..];
    assert a[k + 1..|runs| + 1] == a[k + 1..|runs|] + [a[|runs|]];
  }

  lemma {:induction false} Lengths(runs: seq<Run>, v0: int)
    requires Contiguous(runs, v0)
    ensures forall i :: 0 <= i < |runs| ==> runs[i].length > 0
    decreases |runs|
  {
    if runs != [] {
      Lengths(runs[1..], v0 + runs[0].length);
      assert forall i :: 0 < i < |runs| ==> runs[i] == runs[1..][i - 1];
    }
  }

  /** Shorten the runs which have free space: with the last run ending with the block, none has. */
  method ShortenFreeSpace(a: array<Run>, k: nat, freecnt: int, ghost runs: seq<Run>)
    requires Holds(a[..], runs) && k < |runs| && runs[k].vcn + freecnt == End(runs, 0)
    modifies a
    ensures a[..] == old(a[..])
  {
    HeldAt(a[..], runs);
    assert forall i :: 0 <= i < |runs| ==> a[i] == a[..][i] == runs[i];
    hide Contiguous;
    var carry, j := freecnt, k;
    while a[j].length < carry
      invariant k <= j < |runs| && runs[j].vcn + carry == End(runs, 0)
      invariant forall i :: 0 <= i < |runs| ==> a[i] == runs[i]
      invariant a[..] == old(a[..])
      decreases |runs| - j
    {
      Next(runs, 0, j);
      carry := carry - a[j].length;
      j := j + 1;
    }
    Next(runs, 0, j);
    a[j] := a[j].(length := carry);
    assert a[..] == old(a[..]);
  }

  /** The first case: part of run k is freed, and the run is not merged with a hole. */
  method ReleaseMoved(a: array<Run>, k: nat, usedcnt: int, freeOk: bool, ghost runs: seq<Run>)
    returns (res: int, freed: multiset<int>)
    requires Holds(a[..], runs) && |runs| + 1 < a.Length && k < |runs| && 0 <= usedcnt < runs[k].length
    modifies a
    ensures res == if freeOk then 0 else -1
    ensures freeOk ==> freed == multiset(Clusters(Tail(runs, k, usedcnt)))
    ensures forall i :: 0 <= i < k ==> a[i] == old(a[i])
    ensures a[k] == runs[k].(length := usedcnt)
  {
    HeldAt(a[..], runs);
    ghost var cut := Run(runs[k].vcn + usedcnt, runs[k].lcn + usedcnt, runs[k].length - usedcnt);
    MoveUnused(a, k, usedcnt, runs);
    hide Clusters, Contiguous, Tail, End;
    TailMoved(runs, k, usedcnt, cut);
    res, freed := FreeFromRl(a, k + 1, freeOk, runs[k + 1..] + [cut]);
  }

  lemma TailMoved(runs: seq<Run>, k: nat, usedcnt: int, cut: Run)
    requires k < |runs| && usedcnt < runs[k].length
    requires cut == Run(runs[k].vcn + usedcnt, runs[k].lcn + usedcnt, runs[k].length - usedcnt)
    ensures multiset(Clusters(runs[k + 1..] + [cut])) == multiset(Clusters(Tail(runs, k, usedcnt)))
  {
    hide Clusters;
    ClustersConcat(runs[k + 1..], [cut]);
    ClustersConcat([cut], runs[k + 1..]);
  }

  /** The other cases: the runs from position f on are freed as they are. */
  method ReleaseRest(a: array<Run>, f: nat, freeOk: bool, ghost runs: seq<Run>) returns (res: int, freed: multiset<int>)
    requires Holds(a[..], runs) && f <= |runs|
    ensures res == if freeOk then 0 else -1
    ensures freeOk ==> freed == multiset(Clusters(runs[f..]))
  {
    HeldAt(a[..], runs);
    assert a[f..|runs|] == runs[f..];
    hide Clusters;
    res, freed := FreeFromRl(a, f, freeOk, runs[f..]);
  }

  lemma TailIs(runs: seq<Run>, k: nat, usedcnt: int)
    requires k < |runs| && (usedcnt == 0 || usedcnt == runs[k].length)
    ensures usedcnt == 0 && runs[k].length > 0 ==> Tail(runs, k, usedcnt) == runs[k..]
    ensures usedcnt == runs[k].length ==> Tail(runs, k, usedcnt) == runs[k + 1..]
  {
  }

  /** Edit the runlist so that the runs from position freerl on are those to be freed, and free them. */
  method ReleaseTail(a: array<Run>, k: nat, usedcnt: int, freecnt: int, freeOk: bool, updateFrom0: int,
                     ghost runs: seq<Run>)
    returns (res: int, freed: multiset<int>, freerl: nat, updateFrom: int)
    requires Holds(a[..], runs) && |runs| + 1 < a.Length
    requires CutsAt(runs, k, usedcnt, End(runs, 0) - freecnt)
    modifies a
    ensures k < |runs|
    ensures res == if freeOk then 0 else -1
    ensures freeOk ==> freed == multiset(Clusters(Tail(runs, k, usedcnt)))
    ensures freerl == if usedcnt > 0 || runs[k].vcn == 0 then k + 1 else k
    ensures forall i :: 0 <= i < k ==> a[i] == runs[i]
    ensures usedcnt > 0 ==> a[k] == runs[k].(length := usedcnt)
    ensures updateFrom0 <= runs[k].vcn ==> updateFrom == updateFrom0
  {
    HeldAt(a[..], runs);
    Next(runs, 0, k);
    hide Clusters, Contiguous, End, Tail;
    updateFrom := updateFrom0;
    var freelength := a[k].length - usedcnt;
    var beginhole := usedcnt == 0 && a[k].vcn == 0;
    var mergeholes := usedcnt == 0 && a[k].vcn != 0 && MergesBefore(a, k);
    if freelength > 0 && !mergeholes && (usedcnt > 0 || beginhole) {
      // move the unused part to the end, where the vcns are out of order and meaningless
      freerl := k + 1;
      res, freed := ReleaseMoved(a, k, usedcnt, freeOk, runs);
    } else {
      freerl := k;
      if mergeholes {
        ShortenFreeSpace(a, k, freecnt, runs);
      } else {
        ghost var before := a[..];
        a[k] := a[k].(length := usedcnt);
        if usedcnt == 0 {
          a[k] := a[k].(length := freelength);
          if a[k].vcn < updateFrom {
            updateFrom := a[k].vcn;
          }
        } else {
          freerl := k + 1;
        }
        assert a[..] == before;
      }
      TailIs(runs, k, usedcnt);
      res, freed := ReleaseRest(a, freerl, freeOk, runs);
    }
  }

  predicate MergesBefore(a: array<Run>, k: nat)
    requires k <= a.Length
    reads a
  {
    k > 0 && a[k - 1].lcn == LCN_HOLE
  }

  /** The first vcn to update, when the last run has changed, too. */
  function LowerFrom(updateFrom: int, now: seq<Run>): int {
    if now != [] && now[|now| - 1].vcn < updateFrom then now[|now| - 1].vcn else updateFrom
  }

  /** The runs that end at or before vcn u are the same in both lists. */
  ghost predicate SameBefore(now: seq<Run>, runs: seq<Run>, u: int) {
    && (forall i :: 0 <= i < |runs| && runs[i].vcn + runs[i].length <= u ==> i < |now| && now[i] == runs[i])
    && (forall i :: 0 <= i < |now| && now[i].vcn + now[i].length <= u ==> i < |runs| && now[i] == runs[i])
  }

  /** What is in front of the first vcn to update is as it was. */
  lemma FreedBefore(runs: seq<Run>, k: nat, usedcnt: int, freecnt: int, v: int, u: int)
    requires CutsAt(runs, k, usedcnt, v) && v + freecnt == End(runs, 0) && u <= runs[k].vcn
    ensures var now := Freed(runs, k, usedcnt, freecnt); SameBefore(now, runs, LowerFrom(u, now))
  {
    var now := Freed(runs, k, usedcnt, freecnt);
    var u' := LowerFrom(u, now);
    Lengths(runs, 0);
    FreedPositive(runs, k, usedcnt, freecnt, v);
    Next(runs, 0, k);
    hide Contiguous, End;
    forall i | 0 <= i < |runs| && runs[i].vcn + runs[i].length <= u' ensures i < |now| && now[i] == runs[i] {
      if i > k {
        InFront(runs, k, i);
      } else if k > 0 && i < k {
        InFront(runs, i, k);
      }
    }
  }

  lemma FreedPositive(runs: seq<Run>, k: nat, usedcnt: int, freecnt: int, v: int)
    requires CutsAt(runs, k, usedcnt, v) && v + freecnt == End(runs, 0)
    ensures var now := Freed(runs, k, usedcnt, freecnt);
            now != [] && forall i :: 0 <= i < |now| ==> now[i].length > 0
  {
    FreedMeans(runs, k, usedcnt, v);
    Lengths(Freed(runs, k, usedcnt, freecnt), 0);
  }

  /** Set the hole and the new end. `freerl` is where the freed runs start. */
  method SetHole(a: array<Run>, k: nat, usedcnt: int, freecnt: int, freerl0: nat, v: int, updateFrom0: int,
                 ghost runs: seq<Run>)
    returns (updateFrom: int)
    requires |runs| + 1 < a.Length && CutsAt(runs, k, usedcnt, v) && v + freecnt == End(runs, 0)
    requires freerl0 == if usedcnt > 0 || runs[k].vcn == 0 then k + 1 else k
    requires forall i :: 0 <= i < k ==> a[i] == runs[i]
    requires usedcnt > 0 ==> a[k] == runs[k].(length := usedcnt)
    modifies a
    ensures Holds(a[..], Freed(runs, k, usedcnt, freecnt)) && Terminated(a[..], Freed(runs, k, usedcnt, freecnt))
    ensures updateFrom == LowerFrom(updateFrom0, Freed(runs, k, usedcnt, freecnt))
  {
    FreedMeans(runs, k, usedcnt, v);
    Next(runs, 0, k);
    ghost var now := Freed(runs, k, usedcnt, freecnt);
    assert Contiguous(now, 0) && End(now, 0) == End(runs, 0);
    FreedIs(runs, k, usedcnt, freecnt);
    hide Contiguous, End, HoleFrom, CutsAt, LowerFrom, Freed, Holds, Terminated;
    var freerl := freerl0;
    var freevcn := v;
    if usedcnt == 0 && freevcn != 0 && MergesBefore(a, k) {
      // merge with adjacent hole
      freerl := freerl - 1;
      a[freerl] := a[freerl].(length := a[freerl].length + freecnt);
    } else {
      if usedcnt == 0 && freevcn == 0 {
        freerl := freerl - 1;
      }
      // mark hole as free
      a[freerl] := Run(freevcn, LCN_HOLE, freecnt);
    }
    updateFrom := updateFrom0;
    if a[freerl].vcn < updateFrom {
      updateFrom := a[freerl].vcn;
    }
    // and set up the new end
    a[freerl + 1] := Run(freevcn + freecnt, LCN_ENOENT, 0);
    HoldsNow(a[..], now, End(runs, 0));
    LowerIs(updateFrom0, now);
  }

  /** The new list, run by run. */
  lemma FreedIs(runs: seq<Run>, k: nat, usedcnt: int, freecnt: int)
    requires k < |runs|
    ensures var now := Freed(runs, k, usedcnt, freecnt);
            var merge := usedcnt <= 0 && k > 0 && runs[k - 1].lcn == LCN_HOLE;
            && |now| == (if usedcnt > 0 then k + 2 else if merge then k else k + 1)
            && (forall i :: 0 <= i < k && i < |now| - 1 ==> now[i] == runs[i])
            && (usedcnt > 0 ==> now[k] == runs[k].(length := usedcnt))
            && now[|now| - 1] == if merge then runs[k - 1].(length := runs[k - 1].length + freecnt)
                                 else Run(runs[k].vcn + usedcnt, LCN_HOLE, freecnt)
  {
  }

  lemma HoldsNow(s: seq<Run>, now: seq<Run>, end: int)
    requires |now| < |s| && Contiguous(now, 0) && End(now, 0) == end && s[|now|] == Run(end, LCN_ENOENT, 0)
    requires forall i :: 0 <= i < |now| ==> s[i] == now[i]
    ensures Holds(s, now) && Terminated(s, now)
  {
    assert s[..|now|] == now;
  }

  lemma LowerIs(updateFrom: int, now: seq<Run>)
    requires now != []
    ensures LowerFrom(updateFrom, now) == if now[|now| - 1].vcn < updateFrom then now[|now| - 1].vcn else updateFrom
  {
  }

  /** What CompressFree leaves behind. */
  ghost predicate Compressed(now: seq<Run>, runs: seq<Run>, v: int, cb: nat)
    requires cb > 0
  {
    && HoleFrom(now, runs, v)
    && (HolesAligned(runs, cb) && HolesApart(runs) ==> HolesAligned(now, cb) && HolesApart(now))
  }

  lemma FreedCompressed(runs: seq<Run>, k: nat, usedcnt: int, v: int, cb: nat)
    requires CutsAt(runs, k, usedcnt, v) && cb > 0 && AtBlockEnd(End(runs, 0), cb)
    ensures Compressed(Freed(runs, k, usedcnt, End(runs, 0) - v), runs, v, cb)
    ensures Clusters(Tail(runs, k, usedcnt)) == ClustersFrom(runs, v)
  {
    hide CutsAt, Freed, HoleFrom, HolesAligned, HolesApart;
    FreedMeans(runs, k, usedcnt, v);
    TailClusters(runs, k, usedcnt, v);
    if HolesAligned(runs, cb) && HolesApart(runs) {
      FreedShape(runs, k, usedcnt, v, cb);
    }
  }

  /** Clusters are counted by whole clusters. */
  ghost predicate InClusters(used: nat, reserved: nat, clusterSize: nat) {
    clusterSize > 0 && used % clusterSize == 0 && reserved % clusterSize == 0 && used < reserved
  }

  /** Counted in clusters: keep the first `used` clusters from position r0 on and free the rest. */
  method FreeAfter(a: array<Run>, r0: nat, used: int, freecnt: int, cb: nat, freeOk: bool, updateFrom0: int,
                   ghost runs: seq<Run>)
    returns (res: int, freed: multiset<int>, updateFrom: int, ghost now: seq<Run>)
    requires Holds(a[..], runs) && |runs| + 1 < a.Length && r0 < |runs| && Allocated(runs[r0..]) && cb > 0
    requires 0 <= used && 0 < freecnt && runs[r0].vcn + used + freecnt == End(runs, 0)
    requires updateFrom0 <= runs[r0].vcn
    modifies a
    ensures res == if freeOk && AtBlockEnd(End(runs, 0), cb) then 0 else -1
    ensures res == 0 ==>
              var v := runs[r0].vcn + used;
              && Holds(a[..], now) && Terminated(a[..], now) && Compressed(now, runs, v, cb)
              && freed == multiset(ClustersFrom(runs, v))
    ensures updateFrom == if res == 0 then LowerFrom(updateFrom0, now) else updateFrom0
    ensures res == 0 ==> SameBefore(now, runs, updateFrom)
    ensures !AtBlockEnd(End(runs, 0), cb) ==> a[..] == old(a[..])
  {
    hide *;
    now, freed, updateFrom := runs, multiset{}, updateFrom0;
    var k, usedcnt, freevcn := FindCut(a, r0, used, freecnt, runs);
    if !AtBlockEnd(freevcn + freecnt, cb) {
      // bad end of a compression block set
      return -1, freed, updateFrom, now;
    }
    FreedCompressed(runs, k, usedcnt, freevcn, cb);
    FreedBefore(runs, k, usedcnt, freecnt, freevcn, updateFrom);
    var freerl;
    res, freed, freerl, updateFrom := ReleaseTail(a, k, usedcnt, freecnt, freeOk, updateFrom, runs);
    if res == 0 {
      now := Freed(runs, k, usedcnt, freecnt);
      updateFrom := SetHole(a, k, usedcnt, freecnt, freerl, freevcn, updateFrom, runs);
    }
  }

  /** The run in which the used clusters end. */
  method FindCut(a: array<Run>, r0: nat, used: int, freecnt: int, ghost runs: seq<Run>)
    returns (k: nat, usedcnt: int, freevcn: int)
    requires Holds(a[..], runs) && r0 < |runs| && Allocated(runs[r0..])
    requires 0 <= used && 0 < freecnt && runs[r0].vcn + used + freecnt == End(runs, 0)
    ensures freevcn == runs[r0].vcn + used && CutsAt(runs, k, usedcnt, freevcn)
    ensures k < |runs| && runs[r0].vcn <= runs[k].vcn
  {
    HeldAt(a[..], runs);
    k, usedcnt := SkipUsed(a, r0, used, runs);
    AllocatedFrom(runs, r0, k);
    if k > r0 {
      InFront(runs, r0, k);
      Next(runs, 0, r0);
    }
    assert a[k] == a[..][k];
    freevcn := a[k].vcn + usedcnt;
  }

  /** Free the unneeded clusters after compression: of the `reserved` bytes allocated from position r0 on,
    * only the first `used` hold data. Needs one empty slot behind the terminator. Returns 0 when the
    * clusters were freed; `freed` are those clusters and `now` (ghost) is the new runlist. */
  method CompressFree(a: array<Run>, r0: nat, used: nat, reserved: nat, clusterSize: nat, cb: nat, updateFrom0: int,
                      freeOk: bool, ghost runs: seq<Run>)
    returns (res: int, freed: multiset<int>, updateFrom: int, ghost now: seq<Run>)
    requires Holds(a[..], runs) && |runs| + 1 < a.Length && r0 < |runs| && Allocated(runs[r0..])
    requires clusterSize > 0 && cb > 0 && InClusters(used, reserved, clusterSize)
    requires End(runs, 0) - runs[r0].vcn == VcnOf(reserved, clusterSize)
    modifies a
    ensures res == if freeOk && AtBlockEnd(End(runs, 0), cb) then 0 else -1
    ensures res == 0 ==>
              var v := runs[r0].vcn + VcnOf(used, clusterSize);
              && v < End(runs, 0) && Holds(a[..], now) && Terminated(a[..], now) && Compressed(now, runs, v, cb)
              && freed == multiset(ClustersFrom(runs, v))
    ensures var u := if runs[r0].vcn < updateFrom0 then runs[r0].vcn else updateFrom0;
            updateFrom == if res == 0 then LowerFrom(u, now) else u
    ensures res == 0 ==> SameBefore(now, runs, updateFrom)
    ensures !AtBlockEnd(End(runs, 0), cb) ==> a[..] == old(a[..])
  {
    Counts(used, reserved, clusterSize);
    HeldAt(a[..], runs);
    assert a[r0] == a[..][r0];
    hide Holds, Terminated, Compressed, AtBlockEnd, InClusters, Lcn, ClustersFrom, SameBefore, LowerFrom;
    var freecnt := (reserved - used) / clusterSize;
    var usedcnt := reserved / clusterSize - freecnt;
    updateFrom := if a[r0].vcn < updateFrom0 then a[r0].vcn else updateFrom0;
    res, freed, updateFrom, now := FreeAfter(a, r0, usedcnt, freecnt, cb, freeOk, updateFrom, runs);
  }

  lemma AllocatedFrom(runs: seq<Run>, r0: nat, k: nat)
    requires r0 <= k <= |runs| && Allocated(runs[r0..])
    ensures Allocated(runs[k..])
  {
    assert runs[k..] == runs[r0..][k - r0..];
  }

  lemma Counts(used: nat, reserved: nat, clusterSize: nat)
    requires InClusters(used, reserved, clusterSize)
    ensures clusterSize > 0 && used / clusterSize >= 0
    ensures (reserved - used) / clusterSize == reserved / clusterSize - used / clusterSize >= 1
  {
    var u, m := used / clusterSize, reserved / clusterSize;
    assert used == u * clusterSize && reserved == m * clusterSize;
    Multiples(m - u, clusterSize);
    assert (m - u) * clusterSize == reserved - used;
    Unpack(m - u, 0, clusterSize);
  }
}
