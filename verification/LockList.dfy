/** The lock list of a file node: a singly linked list edited in place through a pointer to the link
  * under inspection. */
module LockList {
  import opened LockSpec
  import opened Seqs

  /** What a turn of the insertion loop leads to. */
  datatype Next = Continue | SplitOff | Stopped | Held

  class Lock {
    var ty: LockType
    var start: int
    var end: int
    var pid: int
    var owner: int
    var next: Lock?

    constructor ()
    {
      next := null;
    }

    ghost function Val(): Record
      reads this
    {
      Record(ty, start, end, pid, owner)
    }

    /** Structure assignment. */
    method Assign(l: Lock)
      modifies this
      ensures Val() == l.Val() && next == l.next
    {
      ty, start, end, pid, owner, next := l.ty, l.start, l.end, l.pid, l.owner, l.next;
    }
  }

  class Node {
    var locks: Lock?
    ghost var nodes: seq<Lock>

    /** The list starts at locks and runs through nodes, which are distinct. */
    ghost predicate Chain()
      reads this, nodes
    {
      && locks == Link(0)
      && (forall i {:trigger nodes[i].next} :: 0 <= i < |nodes| ==> nodes[i].next == Link(i + 1))
      && (forall i, j :: 0 <= i < j < |nodes| ==> nodes[i] != nodes[j])
    }

    ghost function Link(i: nat): Lock?
      reads this
    {
      if i < |nodes| then nodes[i] else null
    }

    ghost function List(): (list: seq<Record>)
      reads this, nodes
      ensures |list| == |nodes|
    {
      seq(|nodes|, i requires 0 <= i < |nodes| reads this, nodes => nodes[i].Val())
    }

    /** The position k is reached through the link `prev` (null stands for the list's head). */
    ghost predicate At(prev: Lock?, k: nat)
      reads this
    {
      k <= |nodes| && prev == if k == 0 then null else nodes[k - 1]
    }

    /** The record that the link `prev` leads to. */
    method Follow(prev: Lock?, ghost k: nat) returns (l: Lock?)
      requires Chain() && At(prev, k)
      ensures if l == null then k == |nodes| else k < |nodes| && l == nodes[k]
    {
      l := if prev == null then locks else prev.next;
    }

    /** Unlink the record at position k. */
    method DeleteLock(prev: Lock?, ghost k: nat)
      requires Chain() && At(prev, k) && k < |nodes|
      modifies this, nodes
      ensures Chain() && At(prev, k) && nodes == old(Without(nodes, k))
      ensures List() == old(Without(List(), k))
    {
      hide Without;
      if prev == null {
        locks := locks.next;
      } else {
        prev.next := prev.next.next;
      }
      nodes := Without(nodes, k);
    }

    /** Link `lock` in at position k. */
    method InsertLock(prev: Lock?, ghost k: nat, lock: Lock)
      requires Chain() && At(prev, k) && lock !in nodes
      modifies this, nodes, lock
      ensures Chain() && At(prev, k) && nodes == old(With(nodes, k, lock))
      ensures List() == old(With(List(), k, lock.Val()))
      ensures lock.Val() == old(lock.Val())
    {
      hide With;
      if prev == null {
        lock.next := locks;
        locks := lock;
      } else {
        lock.next := prev.next;
        prev.next := lock;
      }
      nodes := With(nodes, k, lock);
    }

    /** The first record in conflict with the lock, or null. */
    method LocksConflict(lock: Lock) returns (l: Lock?)
      requires Chain()
      ensures l == null ==> forall i :: 0 <= i < |nodes| ==> !Conflicts(List()[i], lock.Val())
      ensures l != null ==>
                exists i :: 0 <= i < |nodes| && l == nodes[i] && Conflicts(List()[i], lock.Val())
                            && forall j :: 0 <= j < i ==> !Conflicts(List()[j], lock.Val())
    {
      l := locks;
      ghost var k := 0;
      while l != null
        invariant k <= |nodes| && l == Link(k)
        invariant forall i :: 0 <= i < k ==> !Conflicts(List()[i], lock.Val())
        decreases |nodes| - k
      {
        assert List()[k] == l.Val();
        if l.owner != lock.owner
           && lock.start <= l.end && l.start <= lock.end
           && (l.ty == WriteLock || lock.ty == WriteLock) {
          break;
        }
        l := l.next;
        k := k + 1;
      }
    }

    /** Absorb the record at position k into the lock. */
    method MergeLock(lock: Lock, l: Lock, prev: Lock?, ghost k: nat, ghost was: seq<Record>, ghost s0: Record)
      requires Chain() && At(prev, k) && k < |nodes| && l == nodes[k] && lock !in nodes
      requires Mid(was, List(), k, s0, lock.Val()) && l.owner == lock.owner && l.ty == lock.ty
      requires lock.start - 1 <= l.end && l.start - 1 <= lock.end
      modifies this, nodes, lock
      ensures Chain() && At(prev, k) && nodes == old(Without(nodes, k))
      ensures Mid(was, List(), k, s0, lock.Val()) && lock.ty == old(lock.ty) && lock.owner == old(lock.owner)
    {
      hide Canonical, Mid, Without;
      ghost var cur, s := List(), lock.Val();
      if l.start < lock.start {
        lock.start := l.start;
      }
      if lock.end < l.end {
        lock.end := l.end;
      }
      Remove(was, cur, k, s0, s, lock.Val());
      ReplaceByNone(cur, k);
      assert List() == cur;
      DeleteLock(prev, k);
    }

    /** Remove the record at position k, which the lock overwrites. */
    method RemoveLock(lock: Lock, prev: Lock?, ghost k: nat, ghost was: seq<Record>, ghost s0: Record)
      requires Chain() && At(prev, k) && k < |nodes| && lock !in nodes
      requires Mid(was, List(), k, s0, lock.Val()) && nodes[k].owner == lock.owner && nodes[k].ty != lock.ty
      requires lock.start <= nodes[k].start && nodes[k].end <= lock.end
      modifies this, nodes
      ensures Chain() && At(prev, k) && nodes == old(Without(nodes, k))
      ensures Mid(was, List(), k, s0, lock.Val())
    {
      hide Canonical, Mid, Without;
      ghost var cur := List();
      Remove(was, cur, k, s0, lock.Val(), lock.Val());
      ReplaceByNone(cur, k);
      DeleteLock(prev, k);
    }

    /** The lock takes the end of the record at position k. */
    method CutLockEnd(lock: Lock, l: Lock, ghost k: nat, ghost was: seq<Record>, ghost s0: Record)
      requires Chain() && k < |nodes| && l == nodes[k] && lock !in nodes
      requires Mid(was, List(), k, s0, lock.Val()) && l.owner == lock.owner && l.ty != lock.ty
      requires l.start < lock.start <= l.end <= lock.end
      modifies l
      ensures Chain() && Mid(was, List(), k + 1, s0, lock.Val())
    {
      hide Canonical, Mid;
      ghost var cur := List();
      CutEnd(was, cur, k, s0, lock.Val());
      l.end := lock.start - 1;
      ReplaceByOne(cur, k, l.Val());
      assert List() == cur[k := l.Val()];
    }

    /** The lock takes the start of the record at position k. */
    method CutLockStart(lock: Lock, l: Lock, ghost k: nat, ghost was: seq<Record>, ghost s0: Record)
      requires Chain() && k < |nodes| && l == nodes[k] && lock !in nodes
      requires Mid(was, List(), k, s0, lock.Val()) && l.owner == lock.owner && l.ty != lock.ty
      requires lock.start <= l.start <= lock.end < l.end
      modifies l
      ensures Chain() && Mid(was, List(), k, s0, lock.Val()) && Place(List(), k, lock.Val())
    {
      hide Canonical, Mid;
      ghost var cur := List();
      CutStart(was, cur, k, s0, lock.Val());
      l.start := lock.end + 1;
      ReplaceByOne(cur, k, l.Val());
      assert List() == cur[k := l.Val()];
    }

    /** The lock falls inside the record at position k; newl becomes the part after it. */
    method SplitLock(lock: Lock, l: Lock, newl: Lock, ghost k: nat, ghost was: seq<Record>, ghost s0: Record)
      requires Chain() && k < |nodes| && l == nodes[k] && lock !in nodes && newl !in nodes && newl != lock
      requires Mid(was, List(), k, s0, lock.Val()) && l.owner == lock.owner && l.ty != lock.ty
      requires l.start < lock.start && lock.end < l.end
      modifies this, nodes, newl
      ensures Chain() && nodes == old(With(nodes, k + 1, newl))
      ensures Mid(was, List(), k + 1, s0, lock.Val()) && SplitDone(k + 1, lock)
    {
      hide Canonical, Mid, With;
      ghost var cur := List();
      LockSpec.Split(was, cur, k, s0, lock.Val());
      newl.Assign(l);
      newl.start := lock.end + 1;
      l.end := lock.start - 1;
      ReplaceByTwo(cur, k, l.Val(), newl.Val());
      assert List() == cur[k := l.Val()];
      InsertLock(l, k + 1, newl);
    }

    /** One turn of the insertion loop, at the record l after the link `prev`. */
    method Turn(lock: Lock, l: Lock, newl2: Lock?, prev0: Lock?, ghost k0: nat, ghost was: seq<Record>,
                ghost s0: Record)
      returns (next: Next, prev: Lock?, ghost k: nat)
      requires Chain() && At(prev0, k0) && k0 < |nodes| && l == nodes[k0] && lock !in nodes
      requires Mid(was, List(), k0, s0, lock.Val()) && Spare(newl2, lock)
      requires newl2 == null ==> EverythingUnlocked(s0) || SplitDone(k0, lock)
      modifies this, nodes, lock, newl2
      ensures Chain() && At(prev, k) && lock !in nodes && lock.ty == old(lock.ty) && lock.owner == old(lock.owner)
      ensures next == Held ==> Inserted(was, List(), s0)
      ensures next != Held ==> Mid(was, List(), k, s0, lock.Val())
      ensures next == Stopped ==> Place(List(), k, lock.Val())
      ensures next == SplitOff ==>
              newl2 != null && nodes == old(With(nodes, k0 + 1, newl2)) && k == k0 + 1 && SplitDone(k, lock)
      ensures next != SplitOff ==> nodes == old(nodes) || (k == k0 && nodes == old(Without(nodes, k0)))
      ensures next == Continue ==> |nodes| - k < |old(nodes)| - k0
      ensures next == Continue && newl2 == null ==> EverythingUnlocked(s0)
    {
      hide Canonical, Inserted, Mid, Place, Replace, Without, With;
      next, prev, k := Continue, prev0, k0;
      InRange(was, List(), k, s0, lock.Val());
      if l.owner != lock.owner {
        Skip(was, List(), k, s0, lock.Val());
        prev, k := l, k + 1;
      } else if l.ty == lock.ty {
        if l.end < lock.start - 1 {
          Skip(was, List(), k, s0, lock.Val());
          prev, k := l, k + 1;
        } else if lock.end < l.start - 1 {
          Stop(was, List(), k, s0, lock.Val());
          next := Stopped;
        } else if l.start <= lock.start && lock.end <= l.end {
          AlreadyHeld(was, List(), k, s0, lock.Val());
          next := Held;
        } else {
          MergeLock(lock, l, prev, k, was, s0);
        }
      } else {
        if l.end < lock.start {
          Skip(was, List(), k, s0, lock.Val());
          prev, k := l, k + 1;
        } else if lock.end < l.start {
          Stop(was, List(), k, s0, lock.Val());
          next := Stopped;
        } else if lock.start <= l.start && l.end <= lock.end {
          RemoveLock(lock, prev, k, was, s0);
        } else if l.end <= lock.end {
          CutLockEnd(lock, l, k, was, s0);
          prev, k := l, k + 1;
        } else if lock.start <= l.start {
          CutLockStart(lock, l, k, was, s0);
          next := Stopped;
        } else {
          assert newl2 != null;  // a split happens at most once, and never when everything is unlocked
          SplitLock(lock, l, newl2, k, was, s0);
          next, prev, k := SplitOff, l, k + 1;
        }
      }
    }

    /** The insertion loop: bring the list to the state where the lock can go in at position k, or find
      * that it is held already. */
    method FindPlace(lock: Lock, newl1: Lock?, spare: Lock?, ghost was: seq<Record>, ghost s0: Record)
      returns (held: bool, prev: Lock?, ghost k: nat)
      requires Chain() && lock !in nodes && Mid(was, List(), 0, s0, lock.Val())
      requires Spare(newl1, lock) && Spare(spare, lock) && (newl1 != null ==> newl1 != spare)
      requires spare == null ==> EverythingUnlocked(s0)
      modifies this, nodes, lock, spare
      ensures Chain() && lock !in nodes && Spare(newl1, lock) && Among(nodes, old(nodes), spare)
      ensures lock.owner == old(lock.owner) && lock.ty == old(lock.ty)
      ensures if held then Inserted(was, List(), s0)
              else At(prev, k) && Mid(was, List(), k, s0, lock.Val()) && Place(List(), k, lock.Val())
    {
      hide Chain, Mid, Place, Inserted, Canonical, SplitDone, List, With, Without, Link, EverythingUnlocked;
      var newl2 := spare;
      prev, k := null, 0;
      while true
        invariant Chain() && At(prev, k) && lock !in nodes && lock.owner == old(lock.owner) && lock.ty == old(lock.ty)
        invariant Spare(newl1, lock) && Among(nodes, old(nodes), spare)
        invariant newl2 != null ==> newl2 == spare && Spare(spare, lock)
        invariant newl2 == null ==> EverythingUnlocked(s0) || SplitDone(k, lock)
        invariant Mid(was, List(), k, s0, lock.Val())
        decreases newl2 != null, |nodes| - k
      {
        var l := Follow(prev, k);
        if l == null {
          Stop(was, List(), k, s0, lock.Val());
          return false, prev, k;
        }
        var next;
        ghost var nodes0, k0 := nodes, k;
        next, prev, k := Turn(lock, l, newl2, prev, k, was, s0);
        if next == Held {
          return true, prev, k;
        } else if next == Stopped {
          return false, prev, k;
        } else if next == SplitOff {
          newl2 := null;
        }
      }
    }

    /** Set `lock` for its owner: merge, cut, split and remove the owner's records so that exactly the
      * offsets lock.start..lock.end change, and insert what results unless it is an unlock. The lock
      * given may grow by merging. Two records are allocated beforehand, unless everything is unlocked. */
    method LocksInsert(lock: Lock)
      requires Chain() && Canonical(List()) && ValidRange(lock.Val()) && lock !in nodes
      modifies this, nodes, lock
      ensures Chain() && lock !in nodes
      ensures forall i :: 0 <= i < |nodes| ==> nodes[i] in old(nodes) || fresh(nodes[i])
      ensures Inserted(old(List()), List(), old(lock.Val()))
    {
      ghost var was, s0 := List(), lock.Val();
      Start(was, s0);
      hide Chain, Mid, Place, Inserted, Canonical, List, With, Without, Link;
      var newl1: Lock?, newl2: Lock? := null, null;
      if lock.ty != Unlock || lock.start != 0 || lock.end != OFFSET_MAX {
        newl1 := new Lock();
        newl2 := new Lock();
      }
      var held, prev;
      ghost var k;
      held, prev, k := FindPlace(lock, newl1, newl2, was, s0);
      if held {
        return;
      }
      Finish(was, List(), k, s0, lock.Val());
      if lock.ty != Unlock {
        newl1.Assign(lock);
        InsertLock(prev, k, newl1);
      }
    }

    /** The list is made of the records it had and perhaps the spare one. */
    ghost predicate Among(now: seq<Lock>, was: seq<Lock>, spare: Lock?) {
      forall i :: 0 <= i < |now| ==> now[i] in was || now[i] == spare
    }

    ghost predicate Spare(n: Lock?, lock: Lock)
      reads this
    {
      n != null ==> n !in nodes && n != lock
    }

    /** The record at position k is what a split has just left after the lock. */
    ghost predicate SplitDone(k: nat, lock: Lock)
      reads this, nodes, lock
    {
      k < |nodes| && nodes[k].owner == lock.owner && nodes[k].ty != lock.ty && lock.end < nodes[k].start
    }
  }

  lemma InRange(was: seq<Record>, cur: seq<Record>, k: nat, s0: Record, s: Record)
    requires Mid(was, cur, k, s0, s) && k < |cur|
    ensures ValidRange(cur[k]) && s.start <= s0.start && s0.end <= s.end <= OFFSET_MAX && 0 <= s.start <= s.end
  {
  }

  lemma ReplaceByNone(cur: seq<Record>, k: nat)
    requires k < |cur|
    ensures Replace(cur, k, []) == Without(cur, k)
  {
  }

  lemma ReplaceByOne(cur: seq<Record>, k: nat, l: Record)
    requires k < |cur|
    ensures Replace(cur, k, [l]) == cur[k := l]
  {
  }

  lemma ReplaceByTwo(cur: seq<Record>, k: nat, l: Record, r: Record)
    requires k < |cur|
    ensures Replace(cur, k, [l, r]) == With(cur[k := l], k + 1, r)
  {
  }

  predicate EverythingUnlocked(s: Record) {
    s.ty == Unlock && s.start == 0 && s.end == OFFSET_MAX
  }
}
