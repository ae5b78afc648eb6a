/** POSIX byte-range record locks (fcntl() in IEEE Std 1003.1) as a plain map: for each owner and
  * offset, the kind of lock held there. Lock lists are sequences of records; this module says what a
  * list means and why each edit of the insertion loop keeps that meaning. */
module LockSpec {
  import opened Seqs

  const OFFSET_MAX: int := 0x7fff_ffff_ffff_ffff

  datatype LockType = ReadLock | WriteLock | Unlock

  datatype Record = Record(ty: LockType, start: int, end: int, pid: int, owner: int)

  predicate ValidRange(r: Record) {
    0 <= r.start <= r.end <= OFFSET_MAX
  }

  predicate Covers(r: Record, owner: int, x: int) {
    r.owner == owner && r.start <= x <= r.end
  }

  /** The kind of lock `owner` holds at offset x. */
  function At(list: seq<Record>, owner: int, x: int): (t: LockType) {
    if list == [] then Unlock
    else if Covers(list[0], owner, x) then list[0].ty
    else At(list[1..], owner, x)
  }

  /** The records of the other owners, in order. */
  function Foreign(list: seq<Record>, owner: int): (r: seq<Record>) {
    if list == [] then []
    else if list[0].owner == owner then Foreign(list[1..], owner)
    else [list[0]] + Foreign(list[1..], owner)
  }

  /** a ends before b starts; records of the same type do not even touch. */
  predicate Before(a: Record, b: Record) {
    a.end < b.start && (a.ty == b.ty ==> a.end + 1 < b.start)
  }

  /** Each owner's records are sorted, disjoint and maximally coalesced. */
  ghost predicate Canonical(list: seq<Record>) {
    && (forall i :: 0 <= i < |list| ==> ValidRange(list[i]) && list[i].ty != Unlock)
    && (forall i, j :: 0 <= i < j < |list| && list[i].owner == list[j].owner ==> Before(list[i], list[j]))
  }

  /** The effect of setting lock s on the map: exactly s.owner's offsets s.start..s.end change. */
  function Updated(was: seq<Record>, s: Record, owner: int, x: int): LockType {
    if Covers(s, owner, x) then s.ty else At(was, owner, x)
  }

  /** What locks_insert promises: canonical form, the updated map, and nothing about the other
    * owners' records touched. */
  ghost predicate Inserted(was: seq<Record>, now: seq<Record>, s: Record) {
    && Canonical(now)
    && (forall owner, x :: At(now, owner, x) == Updated(was, s, owner, x))
    && Foreign(now, s.owner) == Foreign(was, s.owner)
  }

  // ----- lists cut in two -----

  lemma {:induction false} AtConcat(a: seq<Record>, b: seq<Record>, owner: int, x: int)
    requires forall i :: 0 <= i < |a| ==> a[i].ty != Unlock
    ensures At(a + b, owner, x) == if At(a, owner, x) != Unlock then At(a, owner, x) else At(b, owner, x)
    decreases |a|
  {
    if a == [] {
      assert a + b == b;
    } else {
      assert (a + b)[1..] == a[1..] + b;
      AtConcat(a[1..], b, owner, x);
    }
  }

  lemma {:induction false} ForeignConcat(a: seq<Record>, b: seq<Record>, owner: int)
    ensures Foreign(a + b, owner) == Foreign(a, owner) + Foreign(b, owner)
    decreases |a|
  {
    if a == [] {
      assert a + b == b;
    } else {
      assert (a + b)[1..] == a[1..] + b;
      ForeignConcat(a[1..], b, owner);
    }
  }

  /** Other owners see only the other owners' records. */
  lemma {:induction false} AtForeign(list: seq<Record>, me: int, owner: int, x: int)
    requires owner != me
    ensures At(list, owner, x) == At(Foreign(list, me), owner, x)
    decreases |list|
  {
    if list != [] {
      AtForeign(list[1..], me, owner, x);
      if list[0].owner != me {
        var f := Foreign(list[1..], me);
        assert ([list[0]] + f)[1..] == f;
      }
    }
  }

  lemma {:induction false} AtNone(list: seq<Record>, owner: int, x: int)
    requires forall i :: 0 <= i < |list| ==> !Covers(list[i], owner, x)
    ensures At(list, owner, x) == Unlock
    decreases |list|
  {
    if list != [] {
      AtNone(list[1..], owner, x);
    }
  }

  /** A list around position k: what is held, in three parts. */
  lemma AtAround(list: seq<Record>, k: nat, l: Record, owner: int, x: int)
    requires k < |list| && list[k] == l
    requires forall i :: 0 <= i < |list| ==> list[i].ty != Unlock
    ensures At(list, owner, x) ==
            if At(list[..k], owner, x) != Unlock then At(list[..k], owner, x)
            else if Covers(l, owner, x) then l.ty else At(list[k + 1..], owner, x)
  {
    assert list == list[..k] + ([l] + list[k + 1..]);
    AtConcat(list[..k], [l] + list[k + 1..], owner, x);
    assert ([l] + list[k + 1..])[1..] == list[k + 1..];
  }

  // ----- the insertion loop -----

  /** The state of the insertion loop at position k: `cur` is the list so far, s the lock being
    * inserted, which may have grown from s0 by merging. */
  ghost predicate Mid(was: seq<Record>, cur: seq<Record>, k: nat, s0: Record, s: Record) {
    && k <= |cur| && Canonical(cur) && ValidRange(s) && ValidRange(s0)
    && s.ty == s0.ty && s.owner == s0.owner && s.start <= s0.start && s0.end <= s.end
    && Foreign(cur, s.owner) == Foreign(was, s.owner)
    && (forall i :: 0 <= i < k && cur[i].owner == s.owner ==> Before(cur[i], s))
    && (forall x :: Updated(was, s0, s.owner, x) == Updated(cur, s, s.owner, x))
  }

  /** Every record of the owner from position k on is after s: s belongs at position k. */
  ghost predicate Place(cur: seq<Record>, k: nat, s: Record) {
    forall i :: k <= i < |cur| && cur[i].owner == s.owner ==> Before(s, cur[i])
  }

  lemma Start(was: seq<Record>, s: Record)
    requires Canonical(was) && ValidRange(s)
    ensures Mid(was, was, 0, s, s)
  {
  }

  lemma Skip(was: seq<Record>, cur: seq<Record>, k: nat, s0: Record, s: Record)
    requires Mid(was, cur, k, s0, s) && k < |cur|
    requires cur[k].owner == s.owner ==> Before(cur[k], s)
    ensures Mid(was, cur, k + 1, s0, s)
  {
  }

  lemma Stop(was: seq<Record>, cur: seq<Record>, k: nat, s0: Record, s: Record)
    requires Mid(was, cur, k, s0, s)
    requires k == |cur| || (cur[k].owner == s.owner && Before(s, cur[k]))
    ensures Place(cur, k, s)
  {
  }

  /** Nothing the owner holds before position k lies at or after s.start. */
  lemma NothingBefore(cur: seq<Record>, k: nat, s: Record, x: int)
    requires k <= |cur| && s.start <= x
    requires forall i :: 0 <= i < k && cur[i].owner == s.owner ==> cur[i].end < s.start
    ensures At(cur[..k], s.owner, x) == Unlock
  {
    AtNone(cur[..k], s.owner, x);
  }

  lemma OthersUnchanged(was: seq<Record>, cur: seq<Record>, me: int, owner: int, x: int)
    requires Foreign(cur, me) == Foreign(was, me) && owner != me
    ensures At(cur, owner, x) == At(was, owner, x)
  {
    AtForeign(was, me, owner, x);
    AtForeign(cur, me, owner, x);
  }

  /** From the owner's view to everybody's. */
  lemma Conclude(was: seq<Record>, now: seq<Record>, s0: Record)
    requires Canonical(now) && Foreign(now, s0.owner) == Foreign(was, s0.owner)
    requires forall x :: At(now, s0.owner, x) == Updated(was, s0, s0.owner, x)
    ensures Inserted(was, now, s0)
  {
    forall owner, x ensures At(now, owner, x) == Updated(was, s0, owner, x) {
      if owner != s0.owner {
        OthersUnchanged(was, now, s0.owner, owner, x);
      }
    }
  }

  /** A record of the same type already covers the lock: nothing to do. */
  lemma AlreadyHeld(was: seq<Record>, cur: seq<Record>, k: nat, s0: Record, s: Record)
    requires Mid(was, cur, k, s0, s) && k < |cur| && cur[k].owner == s.owner && cur[k].ty == s.ty
    requires cur[k].start <= s.start && s.end <= cur[k].end
    ensures Inserted(was, cur, s0)
  {
    forall x ensures At(cur, s.owner, x) == Updated(was, s0, s.owner, x) {
      if Covers(s, s.owner, x) {
        AtAround(cur, k, cur[k], s.owner, x);
        NothingBefore(cur, k, cur[k], x);
      }
    }
    Conclude(was, cur, s0);
  }

  // ----- replacing one record by parts of it (none, one or two) -----

  function Replace(cur: seq<Record>, k: nat, xs: seq<Record>): seq<Record>
    requires k < |cur|
  {
    cur[..k] + xs + cur[k + 1..]
  }

  /** xs are parts of the record l. */
  ghost predicate PartsOf(xs: seq<Record>, l: Record) {
    && Canonical(xs)
    && forall i :: 0 <= i < |xs| ==>
      xs[i].owner == l.owner && xs[i].ty == l.ty && l.start <= xs[i].start && xs[i].end <= l.end
  }

  lemma ReplaceCanonical(cur: seq<Record>, k: nat, xs: seq<Record>)
    requires k < |cur| && Canonical(cur) && PartsOf(xs, cur[k])
    ensures Canonical(Replace(cur, k, xs))
  {
    var now := Replace(cur, k, xs);
    var n := |xs|;
    forall i, j | 0 <= i < j < |now| && now[i].owner == now[j].owner ensures Before(now[i], now[j]) {
      var oi := if i < k then i else if i < k + n then k else i - n + 1;
      var oj := if j < k then j else if j < k + n then k else j - n + 1;
      assert now[i] == if k <= i < k + n then xs[i - k] else cur[oi];
      assert now[j] == if k <= j < k + n then xs[j - k] else cur[oj];
      if oi < oj {
        assert cur[oi].owner == cur[oj].owner;
        assert Before(cur[oi], cur[oj]);
      }
    }
  }

  lemma {:induction false} ForeignNone(xs: seq<Record>, owner: int)
    requires forall i :: 0 <= i < |xs| ==> xs[i].owner == owner
    ensures Foreign(xs, owner) == []
    decreases |xs|
  {
    if xs != [] {
      ForeignNone(xs[1..], owner);
    }
  }

  lemma ReplaceForeign(cur: seq<Record>, k: nat, xs: seq<Record>)
    requires k < |cur| && forall i :: 0 <= i < |xs| ==> xs[i].owner == cur[k].owner
    ensures Foreign(Replace(cur, k, xs), cur[k].owner) == Foreign(cur, cur[k].owner)
  {
    hide Foreign;
    var me, l := cur[k].owner, [cur[k]];
    assert cur == Replace(cur, k, l);
    forall ys: seq<Record> | (forall i :: 0 <= i < |ys| ==> ys[i].owner == me)
      ensures Foreign(Replace(cur, k, ys), me) == Foreign(cur[..k], me) + Foreign(cur[k + 1..], me)
    {
      ForeignConcat(cur[..k] + ys, cur[k + 1..], me);
      ForeignConcat(cur[..k], ys, me);
      ForeignNone(ys, me);
    }
  }

  lemma AtReplace(cur: seq<Record>, k: nat, xs: seq<Record>, owner: int, x: int)
    requires k < |cur| && PartsOf(xs, cur[k]) && Canonical(cur)
    ensures At(Replace(cur, k, xs), owner, x) ==
            if At(cur[..k], owner, x) != Unlock then At(cur[..k], owner, x)
            else if At(xs, owner, x) != Unlock then At(xs, owner, x) else At(cur[k + 1..], owner, x)
  {
    assert Replace(cur, k, xs) == cur[..k] + (xs + cur[k + 1..]);
    AtConcat(cur[..k], xs + cur[k + 1..], owner, x);
    AtConcat(xs, cur[k + 1..], owner, x);
  }

  function Widen(s: Record, l: Record): Record {
    s.(start := if l.start < s.start then l.start else s.start, end := if s.end < l.end then l.end else s.end)
  }

  /** What replaces record l keeps exactly what the (possibly widened) lock s' does not take over. */
  ghost predicate Keeps(l: Record, xs: seq<Record>, s: Record, s': Record) {
    forall x :: if Covers(s', s.owner, x) then Covers(l, s.owner, x) ==> Covers(s, s.owner, x) || l.ty == s.ty
                else At(xs, s.owner, x) == if Covers(l, s.owner, x) then l.ty else Unlock
  }

  /** The general edit: record k gives way to xs while the lock grows from s to s'. */
  lemma Edit(was: seq<Record>, cur: seq<Record>, k: nat, s0: Record, s: Record, xs: seq<Record>, s': Record)
    requires Mid(was, cur, k, s0, s) && k < |cur| && cur[k].owner == s.owner && PartsOf(xs, cur[k])
    requires s' == s
             || (cur[k].ty == s.ty && s' == Widen(s, cur[k]) && s.start <= cur[k].end + 1 && cur[k].start <= s.end + 1)
    requires Keeps(cur[k], xs, s, s')
    ensures Mid(was, Replace(cur, k, xs), k, s0, s')
  {
    var l, now := cur[k], Replace(cur, k, xs);
    ReplaceCanonical(cur, k, xs);
    ReplaceForeign(cur, k, xs);
    forall x ensures Updated(was, s0, s.owner, x) == Updated(now, s', s.owner, x) {
      EditAt(was, cur, k, s0, s, xs, s', x);
    }
  }

  lemma EditAt(was: seq<Record>, cur: seq<Record>, k: nat, s0: Record, s: Record, xs: seq<Record>, s': Record, x: int)
    requires Mid(was, cur, k, s0, s) && k < |cur| && cur[k].owner == s.owner && PartsOf(xs, cur[k])
    requires s' == s
             || (cur[k].ty == s.ty && s' == Widen(s, cur[k]) && s.start <= cur[k].end + 1 && cur[k].start <= s.end + 1)
    requires Keeps(cur[k], xs, s, s')
    ensures Updated(was, s0, s.owner, x) == Updated(Replace(cur, k, xs), s', s.owner, x)
  {
    hide Replace;
    var l := cur[k];
    AtAround(cur, k, l, s.owner, x);
    AtReplace(cur, k, xs, s.owner, x);
    assert Updated(was, s0, s.owner, x) == Updated(cur, s, s.owner, x);
    if Covers(l, s.owner, x) {
      NothingBefore(cur, k, l, x);
    }
  }

  /** Merging with, or overwriting, a record: it goes. */
  lemma Remove(was: seq<Record>, cur: seq<Record>, k: nat, s0: Record, s: Record, s': Record)
    requires Mid(was, cur, k, s0, s) && k < |cur| && cur[k].owner == s.owner
    requires if cur[k].ty == s.ty then s' == Widen(s, cur[k]) && s.start <= cur[k].end + 1 && cur[k].start <= s.end + 1
             else s' == s && s.start <= cur[k].start && cur[k].end <= s.end
    ensures Mid(was, Replace(cur, k, []), k, s0, s')
  {
    hide Mid;
    Edit(was, cur, k, s0, s, [], s');
  }

  /** The lock takes the end of a record of another type. */
  lemma CutEnd(was: seq<Record>, cur: seq<Record>, k: nat, s0: Record, s: Record)
    requires Mid(was, cur, k, s0, s) && k < |cur| && cur[k].owner == s.owner && cur[k].ty != s.ty
    requires cur[k].start < s.start <= cur[k].end <= s.end
    ensures Mid(was, Replace(cur, k, [cur[k].(end := s.start - 1)]), k + 1, s0, s)
  {
    var l := cur[k].(end := s.start - 1);
    Edit(was, cur, k, s0, s, [l], s);
    Skip(was, Replace(cur, k, [l]), k, s0, s);
  }

  /** The lock takes the start of a record of another type: it belongs before what is left. */
  lemma CutStart(was: seq<Record>, cur: seq<Record>, k: nat, s0: Record, s: Record)
    requires Mid(was, cur, k, s0, s) && k < |cur| && cur[k].owner == s.owner && cur[k].ty != s.ty
    requires s.start <= cur[k].start <= s.end < cur[k].end
    ensures s.end + 1 <= OFFSET_MAX
    ensures Mid(was, Replace(cur, k, [cur[k].(start := s.end + 1)]), k, s0, s)
    ensures Place(Replace(cur, k, [cur[k].(start := s.end + 1)]), k, s)
  {
    var l := cur[k].(start := s.end + 1);
    Edit(was, cur, k, s0, s, [l], s);
    Stop(was, Replace(cur, k, [l]), k, s0, s);
  }

  lemma AtPair(l: Record, r: Record, owner: int, x: int)
    ensures At([l, r], owner, x) == if Covers(l, owner, x) then l.ty else if Covers(r, owner, x) then r.ty else Unlock
  {
    assert At([r], owner, x) == if Covers(r, owner, x) then r.ty else Unlock;
    assert [l, r][1..] == [r];
  }

  /** The lock falls inside a record of another type, which is split. */
  lemma Split(was: seq<Record>, cur: seq<Record>, k: nat, s0: Record, s: Record)
    requires Mid(was, cur, k, s0, s) && k < |cur| && cur[k].owner == s.owner && cur[k].ty != s.ty
    requires cur[k].start < s.start && s.end < cur[k].end
    ensures s.end + 1 <= OFFSET_MAX && s.start > 0
    ensures Mid(was, Replace(cur, k, [cur[k].(end := s.start - 1), cur[k].(start := s.end + 1)]), k + 1, s0, s)
  {
    var l, r := cur[k].(end := s.start - 1), cur[k].(start := s.end + 1);
    forall x {
      AtPair(l, r, s.owner, x);
    }
    Edit(was, cur, k, s0, s, [l, r], s);
    Skip(was, Replace(cur, k, [l, r]), k, s0, s);
  }

  lemma FinishAt(was: seq<Record>, cur: seq<Record>, k: nat, s0: Record, s: Record, x: int)
    requires Mid(was, cur, k, s0, s) && Place(cur, k, s)
    ensures s.ty == Unlock ==> At(cur, s.owner, x) == Updated(was, s0, s.owner, x)
    ensures s.ty != Unlock ==> At(cur[..k] + [s] + cur[k..], s.owner, x) == Updated(was, s0, s.owner, x)
  {
    assert cur == cur[..k] + cur[k..];
    AtConcat(cur[..k], cur[k..], s.owner, x);
    assert Updated(was, s0, s.owner, x) == Updated(cur, s, s.owner, x);
    if Covers(s, s.owner, x) {
      NothingBefore(cur, k, s, x);
    }
    if s.ty == Unlock {
      if Covers(s, s.owner, x) {
        AtNone(cur[k..], s.owner, x);
      }
    } else {
      assert cur[..k] + [s] + cur[k..] == cur[..k] + ([s] + cur[k..]);
      AtConcat(cur[..k], [s] + cur[k..], s.owner, x);
      assert ([s] + cur[k..])[1..] == cur[k..];
    }
  }

  /** The end of the loop: the lock is inserted at its place. */
  lemma Finish(was: seq<Record>, cur: seq<Record>, k: nat, s0: Record, s: Record)
    requires Mid(was, cur, k, s0, s) && Place(cur, k, s)
    ensures s.ty == Unlock ==> Inserted(was, cur, s0)
    ensures s.ty != Unlock ==> Inserted(was, With(cur, k, s), s0)
  {
    hide At, Foreign, With;
    var now := if s.ty == Unlock then cur else cur[..k] + [s] + cur[k..];
    forall x ensures At(now, s.owner, x) == Updated(was, s0, s.owner, x) {
      FinishAt(was, cur, k, s0, s, x);
    }
    if s.ty != Unlock {
      InsertKeeps(cur, k, s);
      WithIs(cur, k, s);
    }
    Conclude(was, now, s0);
  }

  lemma WithIs(cur: seq<Record>, k: nat, s: Record)
    requires k <= |cur|
    ensures With(cur, k, s) == cur[..k] + [s] + cur[k..]
  {
  }

  lemma InsertKeeps(cur: seq<Record>, k: nat, s: Record)
    requires Canonical(cur) && Place(cur, k, s) && k <= |cur| && ValidRange(s) && s.ty != Unlock
    requires forall i :: 0 <= i < k && cur[i].owner == s.owner ==> Before(cur[i], s)
    ensures Canonical(cur[..k] + [s] + cur[k..])
    ensures Foreign(cur[..k] + [s] + cur[k..], s.owner) == Foreign(cur, s.owner)
  {
    InsertForeign(cur, k, s);
    hide Foreign;
    var now := cur[..k] + [s] + cur[k..];
    InsertAt(cur, k, s, now);
    forall i, j | 0 <= i < j < |now| && now[i].owner == now[j].owner ensures Before(now[i], now[j]) {
      var oi, oj := if i < k then i else i - 1, if j < k then j else j - 1;
      if i != k && j != k {
        assert now[i] == cur[oi] && now[j] == cur[oj] && oi < oj;
      } else if i == k {
        assert now[j] == cur[oj];
      } else {
        assert now[i] == cur[oi];
      }
    }
  }

  lemma InsertAt(cur: seq<Record>, k: nat, s: Record, now: seq<Record>)
    requires k <= |cur| && now == cur[..k] + [s] + cur[k..]
    ensures |now| == |cur| + 1 && now[k] == s
    ensures forall i :: 0 <= i < k ==> now[i] == cur[i]
    ensures forall i :: k < i < |now| ==> now[i] == cur[i - 1]
  {
  }

  lemma InsertForeign(cur: seq<Record>, k: nat, s: Record)
    requires k <= |cur|
    ensures Foreign(cur[..k] + [s] + cur[k..], s.owner) == Foreign(cur, s.owner)
  {
    hide Foreign;
    ForeignConcat(cur[..k] + [s], cur[k..], s.owner);
    ForeignConcat(cur[..k], [s], s.owner);
    ForeignConcat(cur[..k], cur[k..], s.owner);
    ForeignNone([s], s.owner);
    assert cur == cur[..k] + cur[k..];
  }

  // ----- the canonical form is unique -----

  /** One owner's records, in order. */
  function Own(list: seq<Record>, owner: int): (r: seq<Record>)
    ensures forall i :: 0 <= i < |r| ==> r[i].owner == owner && r[i] in list
  {
    if list == [] then []
    else if list[0].owner == owner then [list[0]] + Own(list[1..], owner)
    else Own(list[1..], owner)
  }

  lemma {:induction false} OwnCanonical(list: seq<Record>, owner: int)
    requires Canonical(list)
    ensures Canonical(Own(list, owner))
    decreases |list|
  {
    if list != [] {
      OwnCanonical(list[1..], owner);
    }
  }

  lemma {:induction false} AtOwn(list: seq<Record>, owner: int, x: int)
    ensures At(Own(list, owner), owner, x) == At(list, owner, x)
    decreases |list|
  {
    if list != [] {
      AtOwn(list[1..], owner, x);
      if list[0].owner == owner {
        assert ([list[0]] + Own(list[1..], owner))[1..] == Own(list[1..], owner);
      }
    }
  }

  ghost predicate SameRanges(a: seq<Record>, b: seq<Record>) {
    && |a| == |b|
    && forall i :: 0 <= i < |a| ==> a[i].ty == b[i].ty && a[i].start == b[i].start && a[i].end == b[i].end
  }

  /** A record that covers an offset decides what is held there. */
  lemma {:induction false} AtRecord(list: seq<Record>, i: nat, x: int)
    requires Canonical(list) && i < |list| && Covers(list[i], list[i].owner, x)
    ensures At(list, list[i].owner, x) == list[i].ty
  {
    AtAround(list, i, list[i], list[i].owner, x);
    NothingBefore(list, i, list[i], x);
  }

  /** Whatever is held comes from a record. */
  lemma {:induction false} AtWitness(list: seq<Record>, owner: int, x: int) returns (i: nat)
    requires At(list, owner, x) != Unlock
    ensures i < |list| && Covers(list[i], owner, x) && At(list, owner, x) == list[i].ty
    decreases |list|
  {
    if Covers(list[0], owner, x) {
      i := 0;
    } else {
      i := AtWitness(list[1..], owner, x);
      i := i + 1;
    }
  }

  ghost predicate SameMap(a: seq<Record>, b: seq<Record>, owner: int) {
    forall x :: At(a, owner, x) == At(b, owner, x)
  }

  /** The first record of a list starts no later, and ends no earlier, than the first record of a
    * list that means the same. */
  lemma FirstRecord(a: seq<Record>, b: seq<Record>, owner: int)
    requires Canonical(a) && Canonical(b) && SameMap(a, b, owner)
    requires a != [] && forall i :: 0 <= i < |a| ==> a[i].owner == owner
    requires forall i :: 0 <= i < |b| ==> b[i].owner == owner
    ensures b != [] && b[0].start <= a[0].start
    ensures b[0].start == a[0].start ==> b[0].ty == a[0].ty && a[0].end <= b[0].end
  {
    AtRecord(a, 0, a[0].start);
    assert At(b, owner, a[0].start) == a[0].ty;
    var i := AtWitness(b, owner, a[0].start);
    if i > 0 {
      assert Before(b[0], b[i]);
    }
    if b[0].start == a[0].start {
      AtRecord(b, 0, b[0].start);
      if b[0].end < a[0].end {
        AtRecord(a, 0, b[0].end + 1);
        assert At(b, owner, b[0].end + 1) == a[0].ty;
        var j := AtWitness(b, owner, b[0].end + 1);
        assert false;
      }
    }
  }

  lemma {:induction false} UniqueOwn(a: seq<Record>, b: seq<Record>, owner: int)
    requires Canonical(a) && Canonical(b) && SameMap(a, b, owner)
    requires forall i :: 0 <= i < |a| ==> a[i].owner == owner
    requires forall i :: 0 <= i < |b| ==> b[i].owner == owner
    ensures SameRanges(a, b)
    decreases |a|
  {
    if a == [] {
      if b != [] {
        FirstRecord(b, a, owner);
      }
    } else {
      FirstRecord(a, b, owner);
      FirstRecord(b, a, owner);
      forall x ensures At(a[1..], owner, x) == At(b[1..], owner, x) {
        assert At(a, owner, x) == At(b, owner, x);
        if Covers(a[0], owner, x) {
          AtNone(a[1..], owner, x);
          AtNone(b[1..], owner, x);
        }
      }
      UniqueOwn(a[1..], b[1..], owner);
    }
  }

  /** Two canonical lists that mean the same for an owner hold the same ranges for that owner. */
  lemma CanonicalUnique(a: seq<Record>, b: seq<Record>, owner: int)
    requires Canonical(a) && Canonical(b) && SameMap(a, b, owner)
    ensures SameRanges(Own(a, owner), Own(b, owner))
  {
    OwnCanonical(a, owner);
    OwnCanonical(b, owner);
    forall x ensures At(Own(a, owner), owner, x) == At(Own(b, owner), owner, x) {
      AtOwn(a, owner, x);
      AtOwn(b, owner, x);
      assert At(a, owner, x) == At(b, owner, x);
    }
    UniqueOwn(Own(a, owner), Own(b, owner), owner);
  }

  // ----- exclusion -----

  /** No owner holds anything where another one holds a write lock. */
  ghost predicate Exclusive(list: seq<Record>) {
    forall i, j :: 0 <= i < |list| && 0 <= j < |list| && list[i].owner != list[j].owner && list[i].ty == WriteLock ==>
      !Overlap(list[i], list[j])
  }

  predicate Overlap(a: Record, b: Record) {
    a.start <= b.end && b.start <= a.end
  }

  /** l stands in the way of s. */
  predicate Conflicts(l: Record, s: Record) {
    l.owner != s.owner && Overlap(s, l) && (l.ty == WriteLock || s.ty == WriteLock)
  }

  /** One step of a run: any unlocking, and any lock that conflicts with nothing. */
  ghost predicate Step(was: seq<Record>, now: seq<Record>, s: Record) {
    && ValidRange(s) && Inserted(was, now, s)
    && (s.ty == Unlock || forall i :: 0 <= i < |was| ==> !Conflicts(was[i], s))
  }

  /** Although the inserted record may be wider than the lock asked for, exclusion is kept. */
  lemma StepExclusive(was: seq<Record>, now: seq<Record>, s: Record)
    requires Canonical(was) && Exclusive(was) && Step(was, now, s)
    ensures Exclusive(now)
  {
    forall i, j | 0 <= i < |now| && 0 <= j < |now| && now[i].owner != now[j].owner && now[i].ty == WriteLock
      ensures !Overlap(now[i], now[j])
    {
      if Overlap(now[i], now[j]) {
        var x := if now[i].start < now[j].start then now[j].start else now[i].start;
        AtRecord(now, i, x);
        AtRecord(now, j, x);
        StepAt(was, now, s, now[i].owner, now[j].owner, x);
      }
    }
  }

  lemma StepAt(was: seq<Record>, now: seq<Record>, s: Record, writer: int, other: int, x: int)
    requires Canonical(was) && Exclusive(was) && Step(was, now, s) && writer != other
    ensures At(now, writer, x) == WriteLock ==> At(now, other, x) == Unlock
  {
    hide Canonical;
    assert At(now, writer, x) == Updated(was, s, writer, x);
    assert At(now, other, x) == Updated(was, s, other, x);
    if At(now, writer, x) == WriteLock && At(now, other, x) != Unlock {
      if Covers(s, writer, x) {
        var j := AtWitness(was, other, x);
        assert false;
      } else {
        var i := AtWitness(was, writer, x);
        if Covers(s, other, x) {
          assert false;
        } else {
          var j := AtWitness(was, other, x);
          assert false;
        }
      }
    }
  }

  /** Over whole runs from the empty list: every list is canonical and exclusive. */
  lemma {:induction false} RunExclusive(lists: seq<seq<Record>>, ops: seq<Record>, n: nat)
    requires |lists| == |ops| + 1 && n < |lists| && lists[0] == []
    requires forall i :: 0 <= i < |ops| ==> Step(lists[i], lists[i + 1], ops[i])
    ensures Canonical(lists[n]) && Exclusive(lists[n])
    decreases n
  {
    if n > 0 {
      RunExclusive(lists, ops, n - 1);
      assert Step(lists[n - 1], lists[n], ops[n - 1]);
      StepExclusive(lists[n - 1], lists[n], ops[n - 1]);
    }
  }
}
