/** The invariant of the interruption protocol, and that every step of every thread keeps it. */
module InterruptInvariant {
  import opened Bytes
  import opened Interrupts

  datatype Role = Owner | Holder | Doomer

  function Weight(pc: Pc, role: Role, r: Id): (n: nat)
    ensures n <= 1
  {
    match role
    case Owner => if pc.Owning(r) then 1 else 0
    case Holder => if pc.Interrupting(r) then 1 else 0
    case Doomer => if pc.Dooming(r) then 1 else 0
  }

  /** How many threads are in this role towards request r. */
  function Tally(pcs: seq<Pc>, role: Role, r: Id): nat {
    if pcs == [] then 0 else Weight(pcs[0], role, r) + Tally(pcs[1..], role, r)
  }

  lemma {:induction false} TallyMove(pcs: seq<Pc>, t: nat, pc: Pc, role: Role, r: Id)
    requires t < |pcs|
    ensures Tally(pcs[t := pc], role, r) == Tally(pcs, role, r) - Weight(pcs[t], role, r) + Weight(pc, role, r)
  {
    if t > 0 {
      TallyMove(pcs[1..], t - 1, pc, role, r);
      assert pcs[t := pc][1..] == pcs[1..][t - 1 := pc];
    } else {
      assert pcs[t := pc][1..] == pcs[1..];
    }
  }

  lemma {:induction false} TallyAtLeast(pcs: seq<Pc>, t: nat, role: Role, r: Id)
    requires t < |pcs|
    ensures Tally(pcs, role, r) >= Weight(pcs[t], role, r)
  {
    TallyMove(pcs, t, Idle, role, r);
  }

  lemma TallyTwo(pcs: seq<Pc>, t: nat, u: nat, role: Role, r: Id)
    requires t < |pcs| && u < |pcs| && t != u
    ensures Tally(pcs, role, r) >= Weight(pcs[t], role, r) + Weight(pcs[u], role, r)
  {
    TallyMove(pcs, t, Idle, role, r);
    TallyAtLeast(pcs[t := Idle], u, role, r);
  }

  /** The holders of the reference that request r was created with: a thread, or the list of interrupts. */
  function Owners(s: State, r: Id): nat {
    Tally(s.pcs, Owner, r) + if r in s.interrupts then 1 else 0
  }

  /** The counter of a live request is one for its owner, until that frees it, plus one for each interrupter.
    * When it has reached 0 exactly one thread is about to destroy the request; nobody else knows it. */
  ghost predicate Counted(s: State, r: Id)
    requires r < |s.reqs|
  {
    var q := s.reqs[r];
    && Owners(s, r) <= 1
    && (q.live ==> q.ctr == Owners(s, r) + Tally(s.pcs, Holder, r)
                   && Tally(s.pcs, Doomer, r) == if q.ctr == 0 then 1 else 0)
    && (!q.live ==> Owners(s, r) == Tally(s.pcs, Holder, r) == Tally(s.pcs, Doomer, r) == 0)
  }

  ghost predicate Locking(s: State) {
    && (s.lock.Some? ==> s.lock.value < |s.pcs|)
    && (forall t :: 0 <= t < |s.pcs| ==> (s.pcs[t].HoldsList() <==> s.lock == Some(t)))
  }

  ghost predicate ReqLocking(s: State, r: Id)
    requires r < |s.reqs|
  {
    && (s.reqs[r].lock.Some? ==> s.reqs[r].lock.value < |s.pcs|)
    && (forall t :: 0 <= t < |s.pcs| ==> (s.pcs[t].HoldsLock(r) <==> s.reqs[r].lock == Some(t)))
  }

  /** What thread t relies on. */
  ghost predicate Relying(s: State, pc: Pc) {
    && InRange(s, pc)
    && match pc
       case Idle | IntDone => true
       case Arrived(r) => r !in s.list && !s.reqs[r].interrupted && s.reqs[r].u == Func(0) && s.reqs[r].ctr == 1
       case Listed(r, early) => r in s.list && early != Some(r) && (early.Some? ==> Bouncing(s, early.value))
       case Running(r) => r in s.list
       case Setting(r, _) => r in s.list
       case SetDone(r) => r in s.list
       case FreeStart(r, next) => Continuing(s, r, next)
       case Cleared(r, next) => Continuing(s, r, next) && s.reqs[r].u == Func(0)
       case Unlisting(r, next) => Continuing(s, r, next) && s.reqs[r].u == Func(0)
       case Unlisted(r, ctr, next) => (ctr == 0 ==> r !in s.list) && Continuing(s, r, next)
       case Dropped(r, ctr, next) => (ctr == 0 ==> r !in s.list) && Continuing(s, r, next)
       case IntArrived(q) => Fresh(s, q)
       case Matched(q, r) => Chasing(s, q, r)
       case WantLock(q, r) => Chasing(s, q, r)
       case Locked(q, r) => Chasing(s, q, r)
       case Marked(q, r) => Chasing(s, q, r) && s.reqs[r].interrupted
       case Calling(q, r) => Chasing(s, q, r) && s.reqs[r].interrupted
       case InCall(q, r, func) => Chasing(s, q, r) && s.reqs[r].interrupted && func != 0 && s.reqs[r].u == Func(func)
       case Called(q, r) => Chasing(s, q, r) && s.reqs[r].interrupted
       case Releasing(q, r) => Chasing(s, q, r) && s.reqs[r].interrupted
  }

  ghost predicate Bouncing(s: State, q: Id) {
    q < |s.reqs| && q !in s.list
  }

  ghost predicate Continuing(s: State, r: Id, next: Option<Id>) {
    next.Some? ==> next.value in s.list && next.value != r
  }

  /** An INTERRUPT that has not been disposed of. */
  ghost predicate Fresh(s: State, q: Id) {
    q < |s.reqs| && q !in s.list && s.reqs[q].u.Target? && s.reqs[q].ways == [] && s.reqs[q].ctr == 1
  }

  ghost predicate Chasing(s: State, q: Id, r: Id) {
    q < |s.reqs| && r < |s.reqs| && q != r && q !in s.list && s.reqs[q].ctr == 1 && s.reqs[r].u.Func?
  }

  ghost predicate Notified(q: Req) {
    q.interrupted && q.u.Func? && q.u.func != 0 ==> q.called
  }

  /** Unless its caller is just on its way, the callback of an interrupted request has been called. */
  ghost predicate Calls(s: State, r: Id)
    requires r < |s.reqs|
  {
    Notified(s.reqs[r]) || exists t :: 0 <= t < |s.pcs| && s.pcs[t].AboutToCall(r)
  }

  /** The listed requests are owned by threads; the interrupts kept for later wait for distinct requests,
    * none of which is listed. */
  ghost predicate Lists(s: State) {
    && Ids(s.reqs, s.list) && Distinct(s.list)
    && (forall r :: r in s.list ==> s.reqs[r].u.Func? && Tally(s.pcs, Owner, r) == 1)
    && Ids(s.reqs, s.interrupts) && Distinct(s.interrupts)
    && (forall q :: q in s.interrupts ==> Fresh(s, q))
    && (forall p, q :: p in s.interrupts && q in s.interrupts && s.reqs[p].u == s.reqs[q].u ==> p == q)
    && (forall q, r :: q in s.interrupts && r in s.list ==> s.reqs[q].u != Target(s.reqs[r].unique))
  }

  ghost predicate Inv(s: State) {
    && Locking(s) && Lists(s)
    && (forall r :: 0 <= r < |s.reqs| ==>
          Counted(s, r) && ReqLocking(s, r) && Calls(s, r) && |s.reqs[r].ways| <= 1)
    && (forall r, role :: r >= |s.reqs| ==> Tally(s.pcs, role, r) == 0)
    && (forall t :: 0 <= t < |s.pcs| ==> Relying(s, s.pcs[t]))
  }

  // ------------------------------------------------------------------------------------------
  // Every step keeps it

  lemma Moved(pcs: seq<Pc>, t: nat, pc: Pc)
    requires t < |pcs|
    ensures forall role,
            r :: Tally(pcs[t := pc], role, r) == Tally(pcs, role, r) - Weight(pcs[t], role, r) + Weight(pc, role, r)
  {
    forall role, r
      ensures Tally(pcs[t := pc], role, r) == Tally(pcs, role, r) - Weight(pcs[t], role, r) + Weight(pc, role, r)
    {
      TallyMove(pcs, t, pc, role, r);
    }
  }

  /** Thread t went on, alone. */
  ghost predicate Only(s: State, s': State, t: nat) {
    t < |s.pcs| && |s'.pcs| == |s.pcs| && s'.pcs == s.pcs[t := s'.pcs[t]]
  }

  /** Taking, keeping or giving back the list lock. */
  lemma ListLock(s: State, s': State, t: nat)
    requires Locking(s) && Only(s, s', t)
    requires s'.lock == (if s'.pcs[t].HoldsList() then Some(t) else if s.pcs[t].HoldsList() then None else s.lock)
    requires s'.pcs[t].HoldsList() ==> s.lock == None || s.pcs[t].HoldsList()
    ensures Locking(s')
  {
    forall u | 0 <= u < |s'.pcs|
      ensures s'.pcs[u].HoldsList() <==> s'.lock == Some(u)
    {
      assert s.pcs[u].HoldsList() <==> s.lock == Some(u);
    }
  }

  /** Taking, keeping or giving back the lock of request r. */
  lemma ReqLock(s: State, s': State, t: nat, r: Id)
    requires r < |s.reqs| && r < |s'.reqs| && ReqLocking(s, r) && Only(s, s', t)
    requires s'.reqs[r].lock == (if s'.pcs[t].HoldsLock(r) then Some(t) else if s.pcs[t].HoldsLock(r) then None
                                 else s.reqs[r].lock)
    requires s'.pcs[t].HoldsLock(r) ==> s.reqs[r].lock == None || s.pcs[t].HoldsLock(r)
    ensures ReqLocking(s', r)
  {
    forall u | 0 <= u < |s'.pcs|
      ensures s'.pcs[u].HoldsLock(r) <==> s'.reqs[r].lock == Some(u)
    {
      assert s.pcs[u].HoldsLock(r) <==> s.reqs[r].lock == Some(u);
    }
  }

  /** A request owned by one thread is not owned by another, nor by the list of interrupts, nor about to be
    * destroyed; and only its owner can know that its counter is 1. */
  lemma Exclusive(s: State, t: nat, u: nat, r: Id)
    requires t < |s.pcs| && u < |s.pcs| && t != u && r < |s.reqs| && Counted(s, r)
    requires s.pcs[u].Owning(r)
    ensures s.reqs[r].live && !s.pcs[t].Owning(r) && !s.pcs[t].Dooming(r) && r !in s.interrupts
    ensures s.pcs[t].Interrupting(r) ==> s.reqs[r].ctr > 1
  {
    TallyTwo(s.pcs, t, u, Owner, r);
    TallyAtLeast(s.pcs, u, Owner, r);
    TallyAtLeast(s.pcs, t, Holder, r);
    TallyAtLeast(s.pcs, t, Doomer, r);
  }

  lemma DoomedAlone(s: State, t: nat, u: nat, r: Id)
    requires t < |s.pcs| && u < |s.pcs| && r < |s.reqs| && Counted(s, r)
    requires s.pcs[u].Dooming(r)
    ensures s.reqs[r].live && s.reqs[r].ctr == 0 && !s.pcs[t].Owning(r) && !s.pcs[t].Interrupting(r)
    ensures t != u ==> !s.pcs[t].Dooming(r)
  {
    if t != u {
      TallyTwo(s.pcs, t, u, Doomer, r);
    }
    TallyAtLeast(s.pcs, t, Owner, r);
    TallyAtLeast(s.pcs, t, Holder, r);
    TallyAtLeast(s.pcs, u, Doomer, r);
  }

  /** What one step does to the requests known before. */
  ghost predicate Tame(s: State, s': State, t: nat) {
    && Only(s, s', t) && |s'.reqs| >= |s.reqs|
    && (forall r :: 0 <= r < |s.reqs| ==> Change(s, s', s.pcs[t], r))
  }

  ghost predicate Change(s: State, s': State, pc: Pc, r: Id)
    requires r < |s.reqs| && r < |s'.reqs|
  {
    var q, q' := s.reqs[r], s'.reqs[r];
    && (q != q' ==> pc.Touching(r) || r in s.list || r in s.interrupts)
    && (q.u != q'.u || ((r in s.list) != (r in s'.list)) ==> pc.Owning(r))
    && (q.u != q'.u ==> q.lock == None)
    && (q.u.Func? ==> q'.u.Func?) && (q.interrupted ==> q'.interrupted)
  }

  /** The other threads can still rely on what they did. */
  lemma OthersRely(s: State, s': State, t: nat, u: nat)
    requires Inv(s) && Tame(s, s', t) && u < |s.pcs| && u != t
    ensures Relying(s', s'.pcs[u])
  {
    hide Calls, Locking;
    var pc := s.pcs[u];
    assert Relying(s, pc);
    forall r | 0 <= r < |s.reqs| && pc.Owning(r)
      ensures s.reqs[r].u == s'.reqs[r].u && (r in s.list <==> r in s'.list)
      ensures r !in s.list && (s.reqs[r].ctr == 1 || s.reqs[r].u.Target?) ==> s.reqs[r] == s'.reqs[r]
    {
      Exclusive(s, t, u, r);
      assert Change(s, s', s.pcs[t], r);
      assert Relying(s, s.pcs[t]);
    }
    forall r | 0 <= r < |s.reqs| && pc.Dooming(r)
      ensures r in s.list <==> r in s'.list
    {
      DoomedAlone(s, t, u, r);
      assert Change(s, s', s.pcs[t], r);
    }
    forall r | 0 <= r < |s.reqs| && pc.Interrupting(r)
      ensures s.reqs[r].u.Func? ==> s'.reqs[r].u.Func?
      ensures s.reqs[r].interrupted ==> s'.reqs[r].interrupted
      ensures pc.HoldsLock(r) ==> s'.reqs[r].u == s.reqs[r].u
    {
      assert Change(s, s', s.pcs[t], r) && ReqLocking(s, r);
    }
  }

  lemma CountMove(s: State, s': State, t: nat, r: Id)
    requires Only(s, s', t)
    ensures Tally(s'.pcs, Owner, r) == Tally(s.pcs, Owner, r) - Weight(s.pcs[t], Owner, r) + Weight(s'.pcs[t], Owner, r)
    ensures Tally(s'.pcs, Holder, r) == Tally(s.pcs, Holder, r) - Weight(s.pcs[t], Holder, r) + Weight(s'.pcs[t],
              Holder, r)
    ensures Tally(s'.pcs, Doomer, r) == Tally(s.pcs, Doomer, r) - Weight(s.pcs[t], Doomer, r) + Weight(s'.pcs[t],
              Doomer, r)
    ensures Tally(s.pcs, Owner, r) >= Weight(s.pcs[t], Owner, r)
    ensures Tally(s.pcs, Holder, r) >= Weight(s.pcs[t], Holder, r)
    ensures Tally(s.pcs, Doomer, r) >= Weight(s.pcs[t], Doomer, r)
  {
    TallyMove(s.pcs, t, s'.pcs[t], Owner, r);
    TallyMove(s.pcs, t, s'.pcs[t], Holder, r);
    TallyMove(s.pcs, t, s'.pcs[t], Doomer, r);
    TallyAtLeast(s.pcs, t, Owner, r);
    TallyAtLeast(s.pcs, t, Holder, r);
    TallyAtLeast(s.pcs, t, Doomer, r);
  }

  /** A step in which nobody's role changes, nor the lists, nor what is counted. */
  ghost predicate Quiet(s: State, s': State, t: nat) {
    && Tame(s, s', t) && |s'.reqs| == |s.reqs| && s'.list == s.list && s'.interrupts == s.interrupts
    && (forall role, r :: Weight(s'.pcs[t], role, r) == Weight(s.pcs[t], role, r))
    && (forall r :: 0 <= r < |s.reqs| ==>
          s'.reqs[r] == s.reqs[r].(u := s'.reqs[r].u, interrupted := s'.reqs[r].interrupted,
                                   lock := s'.reqs[r].lock, called := s'.reqs[r].called))
  }

  lemma QuietCounts(s: State, s': State, t: nat)
    requires Inv(s) && Quiet(s, s', t)
    ensures forall r :: 0 <= r < |s.reqs| ==> Counted(s', r) && |s'.reqs[r].ways| <= 1
    ensures forall r, role :: r >= |s.reqs| ==> Tally(s'.pcs, role, r) == 0
  {
    hide Calls, ReqLocking, Locking, Lists, Relying;
    forall r | 0 <= r < |s.reqs|
      ensures Counted(s', r)
    {
      assert Counted(s, r);
      CountMove(s, s', t, r);
    }
    forall r, role | r >= |s.reqs|
      ensures Tally(s'.pcs, role, r) == 0
    {
      TallyMove(s.pcs, t, s'.pcs[t], role, r);
    }
  }

  /** A request kept on the list of interrupts belongs to no thread. */
  lemma KeptAlone(s: State, t: nat, q: Id)
    requires Inv(s) && t < |s.pcs| && q in s.interrupts
    ensures q < |s.reqs| && !s.pcs[t].Owning(q) && !s.pcs[t].Interrupting(q) && !s.pcs[t].Dooming(q)
  {
    hide Calls, ReqLocking, Locking;
    assert Counted(s, q);
    TallyAtLeast(s.pcs, t, Owner, q);
    TallyAtLeast(s.pcs, t, Doomer, q);
    assert Relying(s, s.pcs[t]);
  }

  lemma QuietLists(s: State, s': State, t: nat)
    requires Inv(s) && Quiet(s, s', t)
    ensures Lists(s')
  {
    hide Calls, ReqLocking, Locking, Relying;
    forall q | q in s.interrupts
      ensures Fresh(s', q) && s'.reqs[q].u == s.reqs[q].u
    {
      KeptAlone(s, t, q);
      assert Change(s, s', s.pcs[t], q);
    }
    forall r | r in s.list
      ensures s'.reqs[r].u.Func? && Tally(s'.pcs, Owner, r) == 1
    {
      CountMove(s, s', t, r);
      assert Change(s, s', s.pcs[t], r);
    }
  }

  lemma QuietStep(s: State, s': State, t: nat)
    requires Inv(s) && Quiet(s, s', t) && Locking(s') && Relying(s', s'.pcs[t])
    requires forall r :: 0 <= r < |s.reqs| ==> ReqLocking(s', r) && Calls(s', r)
    ensures Inv(s')
  {
    QuietLists(s, s', t);
    QuietCounts(s, s', t);
    hide Calls, ReqLocking, Locking, Relying, Lists, Counted, Change, Tally;
    forall u | 0 <= u < |s'.pcs|
      ensures Relying(s', s'.pcs[u])
    {
      if u != t {
        OthersRely(s, s', t, u);
      }
    }
  }

  lemma CallsKept(s: State, s': State, t: nat, r: Id)
    requires r < |s.reqs| && r < |s'.reqs| && Calls(s, r) && Only(s, s', t)
    requires Notified(s'.reqs[r]) || s'.pcs[t].AboutToCall(r) || !(Notified(s.reqs[r]) || s.pcs[t].AboutToCall(r))
    ensures Calls(s', r)
  {
    if !Notified(s'.reqs[r]) && !s'.pcs[t].AboutToCall(r) {
      var u :| 0 <= u < |s.pcs| && s.pcs[u].AboutToCall(r);
      assert s'.pcs[u].AboutToCall(r);
    }
  }

  /** Only request x has changed, in what its lock and the list lock protect. */
  ghost predicate OnlyAt(s: State, s': State, t: nat, x: Id) {
    && t < |s.pcs| == |s'.pcs| && x < |s.reqs| == |s'.reqs|
    && s' == Goto(s, t, s'.pcs[t]).(lock := s'.lock, reqs := s.reqs[x := s'.reqs[x]])
    && s'.reqs[x] == s.reqs[x].(u := s'.reqs[x].u, interrupted := s'.reqs[x].interrupted,
                                lock := s'.reqs[x].lock, called := s'.reqs[x].called)
  }

  /** Thread t takes, keeps or gives back its locks in an orderly way. */
  ghost predicate LocksMove(s: State, s': State, t: nat) {
    && Only(s, s', t) && |s.reqs| <= |s'.reqs|
    && s'.lock == (if s'.pcs[t].HoldsList() then Some(t) else if s.pcs[t].HoldsList() then None else s.lock)
    && (s'.pcs[t].HoldsList() ==> s.lock == None || s.pcs[t].HoldsList())
    && (forall r :: 0 <= r < |s.reqs| ==> LockMoves(s, s', t, r))
  }

  ghost predicate LockMoves(s: State, s': State, t: nat, r: Id)
    requires t < |s.pcs| && t < |s'.pcs| && r < |s.reqs| && r < |s'.reqs|
  {
    var held, holds := s.pcs[t].HoldsLock(r), s'.pcs[t].HoldsLock(r);
    && s'.reqs[r].lock == (if holds then Some(t) else if held then None else s.reqs[r].lock)
    && (holds ==> s.reqs[r].lock == None || held)
  }

  /** No call is forgotten: after the step the callback of r has been called, or thread t is about to call it,
    * or this was not known before either. */
  ghost predicate CallMoves(s: State, s': State, t: nat, r: Id)
    requires t < |s.pcs| && t < |s'.pcs| && r < |s.reqs| && r < |s'.reqs|
  {
    Notified(s'.reqs[r]) || s'.pcs[t].AboutToCall(r) || !(Notified(s.reqs[r]) || s.pcs[t].AboutToCall(r))
  }

  lemma LocksAndCalls(s: State, s': State, t: nat)
    requires Inv(s) && LocksMove(s, s', t)
    requires forall r :: 0 <= r < |s.reqs| ==> CallMoves(s, s', t, r)
    ensures Locking(s')
    ensures forall r :: 0 <= r < |s.reqs| ==> ReqLocking(s', r) && Calls(s', r)
  {
    hide Counted, Relying, Lists, Tally;
    ListLock(s, s', t);
    forall r | 0 <= r < |s.reqs|
      ensures ReqLocking(s', r) && Calls(s', r)
    {
      assert LockMoves(s, s', t, r) && CallMoves(s, s', t, r);
      ReqLock(s, s', t, r);
      CallsKept(s, s', t, r);
    }
  }

  lemma QuietAt(s: State, s': State, t: nat, x: Id)
    requires Inv(s) && OnlyAt(s, s', t, x) && s.pcs[t].Touching(x) && Relying(s', s'.pcs[t])
    requires forall role, r :: Weight(s'.pcs[t], role, r) == Weight(s.pcs[t], role, r)
    requires s.reqs[x].u != s'.reqs[x].u ==> s.pcs[t].Owning(x) && s.reqs[x].lock == None && s'.reqs[x].u.Func?
    requires s.reqs[x].interrupted ==> s'.reqs[x].interrupted
    requires LocksMove(s, s', t)
    requires forall r :: 0 <= r < |s.reqs| ==> CallMoves(s, s', t, r)
    ensures Inv(s')
  {
    LocksAndCalls(s, s', t);
    hide Counted, Relying, Lists, Tally, Calls, ReqLocking, Locking, LocksMove, LockMoves, CallMoves;
    QuietStep(s, s', t);
  }

  /** Going on without touching any request. */
  lemma QuietPlain(s: State, s': State, t: nat)
    requires Inv(s) && Only(s, s', t) && s' == Goto(s, t, s'.pcs[t]).(lock := s'.lock)
    requires Relying(s', s'.pcs[t]) && LocksMove(s, s', t)
    requires forall role, r :: Weight(s'.pcs[t], role, r) == Weight(s.pcs[t], role, r)
    requires forall r :: 0 <= r < |s.reqs| ==> CallMoves(s, s', t, r)
    ensures Inv(s')
  {
    LocksAndCalls(s, s', t);
    hide Counted, Relying, Lists, Tally, Calls, ReqLocking, Locking, LocksMove, LockMoves, CallMoves;
    QuietStep(s, s', t);
  }

  /** Steps of the thread that processes a request. */
  lemma KeepOperation(s: State, t: nat, c: Choice)
    requires Inv(s) && Ready(s, t, c) && (s.pcs[t].Running? || s.pcs[t].Setting? || s.pcs[t].SetDone?)
    ensures Inv(Step(s, t, c))
  {
    hide Counted, Lists, Tally, Calls, Receive, CheckInterrupt, FindInterrupted, Unlist, Destroy, Release;
    var s' := Step(s, t, c);
    assert Relying(s, s.pcs[t]);
    QuietAt(s, s', t, s.pcs[t].req);
  }

  lemma KeepClearing(s: State, t: nat, c: Choice)
    requires Inv(s) && Ready(s, t, c) && (s.pcs[t].FreeStart? || s.pcs[t].Cleared?)
    ensures Inv(Step(s, t, c))
  {
    hide Counted, Lists, Tally, Calls, Receive, CheckInterrupt, FindInterrupted, Unlist, Destroy, Release;
    var s' := Step(s, t, c);
    assert Relying(s, s.pcs[t]);
    QuietAt(s, s', t, s.pcs[t].req);
  }

  /** Steps of the thread that interrupts a request. */
  lemma KeepLocking(s: State, t: nat, c: Choice)
    requires Inv(s) && Ready(s, t, c) && (s.pcs[t].Matched? || s.pcs[t].WantLock? || s.pcs[t].Locked?)
    ensures Inv(Step(s, t, c))
  {
    hide Counted, Lists, Tally, Calls, Receive, CheckInterrupt, FindInterrupted, Unlist, Destroy, Release;
    var s' := Step(s, t, c);
    assert Relying(s, s.pcs[t]);
    QuietAt(s, s', t, s.pcs[t].req);
  }

  lemma KeepCalling(s: State, t: nat, c: Choice)
    requires Inv(s) && Ready(s, t, c) && (s.pcs[t].Marked? || s.pcs[t].Calling? || s.pcs[t].InCall? || s.pcs[t].Called?)
    ensures Inv(Step(s, t, c))
  {
    hide Counted, Lists, Tally, Calls, Receive, CheckInterrupt, FindInterrupted, Unlist, Destroy, Release;
    var s' := Step(s, t, c);
    assert Relying(s, s.pcs[t]);
    QuietAt(s, s', t, s.pcs[t].req);
  }

  lemma KeepListed(s: State, t: nat, c: Choice)
    requires Inv(s) && Ready(s, t, c) && s.pcs[t].Listed?
    ensures Inv(Step(s, t, c))
  {
    hide Counted, Lists, Tally, Calls, Receive, CheckInterrupt, FindInterrupted, Unlist, Destroy, Release;
    var s' := Step(s, t, c);
    assert Relying(s, s.pcs[t]);
    QuietPlain(s, s', t);
  }

  lemma KeepDone(s: State, t: nat, c: Choice)
    requires Inv(s) && Ready(s, t, c) && s.pcs[t].IntDone?
    ensures Inv(Step(s, t, c))
  {
    hide Counted, Lists, Tally, Calls, Receive, CheckInterrupt, FindInterrupted, Unlist, Destroy, Release;
    var s' := Step(s, t, c);
    QuietPlain(s, s', t);
  }

  lemma KeepUnlisted(s: State, t: nat, c: Choice)
    requires Inv(s) && Ready(s, t, c) && s.pcs[t].Unlisted?
    ensures Inv(Step(s, t, c))
  {
    hide Counted, Lists, Tally, Calls, Receive, CheckInterrupt, FindInterrupted, Unlist, Destroy, Release;
    var s' := Step(s, t, c);
    assert Relying(s, s.pcs[t]);
    QuietPlain(s, s', t);
  }

  lemma KeepDropped(s: State, t: nat, c: Choice)
    requires Inv(s) && Ready(s, t, c) && s.pcs[t].Dropped? && s.pcs[t].ctr != 0
    ensures Inv(Step(s, t, c))
  {
    hide Counted, Lists, Tally, Calls, Receive, CheckInterrupt, FindInterrupted, Unlist, Destroy, Release;
    var s' := Step(s, t, c);
    assert Relying(s, s.pcs[t]);
    QuietPlain(s, s', t);
  }

  /** No thread knows a request that does not exist. */
  lemma NoneBeyond(s: State, s': State, t: nat)
    requires Inv(s) && Only(s, s', t) && |s'.reqs| >= |s.reqs| && Relying(s', s'.pcs[t]) && Ids(s'.reqs, s'.list)
    ensures forall r, role :: r >= |s'.reqs| ==> Tally(s'.pcs, role, r) == 0
  {
    hide Calls, ReqLocking, Locking, Counted, Tally, Lists;
    forall r, role | r >= |s'.reqs|
      ensures Tally(s'.pcs, role, r) == 0
    {
      assert Weight(s'.pcs[t], role, r) == 0;
      TallyMove(s.pcs, t, s'.pcs[t], role, r);
    }
  }

  /** Any step: what remains to be shown once thread t can go on. */
  lemma BusyStep(s: State, s': State, t: nat)
    requires Inv(s) && Tame(s, s', t) && LocksMove(s, s', t) && Relying(s', s'.pcs[t]) && Lists(s')
    requires forall r :: 0 <= r < |s.reqs| ==> CallMoves(s, s', t, r)
    requires forall r :: |s.reqs| <= r < |s'.reqs| ==> ReqLocking(s', r) && Calls(s', r)
    requires forall r :: 0 <= r < |s'.reqs| ==> Counted(s', r) && |s'.reqs[r].ways| <= 1
    ensures Inv(s')
  {
    LocksAndCalls(s, s', t);
    NoneBeyond(s, s', t);
    hide Calls, ReqLocking, Locking, Counted, Tally, LocksMove, LockMoves, CallMoves, Change, Relying, Lists;
    forall u | 0 <= u < |s'.pcs|
      ensures Relying(s', s'.pcs[u])
    {
      if u != t {
        OthersRely(s, s', t, u);
      }
    }
  }

  /** Request r, owned by thread t, leaves the list. */
  lemma ListsLess(s: State, s': State, t: nat, r: Id)
    requires Inv(s) && Only(s, s', t) && s.pcs[t].Owning(r) && r < |s.reqs| == |s'.reqs|
    requires s'.list == Remove(s.list, r) && s'.interrupts == s.interrupts
    requires forall x :: 0 <= x < |s.reqs| && x != r ==> s'.reqs[x] == s.reqs[x]
    requires forall x :: x != r ==> Weight(s'.pcs[t], Owner, x) == Weight(s.pcs[t], Owner, x)
    ensures Lists(s') && r !in s'.list
  {
    hide Calls, ReqLocking, Locking, Counted, Tally, Relying;
    forall x | x in s'.list
      ensures x < |s.reqs| && s'.reqs[x].u.Func? && Tally(s'.pcs, Owner, x) == 1
    {
      CountMove(s, s', t, x);
    }
    forall q | q in s.interrupts
      ensures Fresh(s', q) && s'.reqs[q] == s.reqs[q]
    {
      KeptAlone(s, t, q);
    }
    assert Distinct(s'.list) && r !in s'.list;
    assert forall x :: x in s'.list ==> x in s.list && s'.reqs[x] == s.reqs[x];
  }

  lemma CountsUnlisting(s: State, t: nat, x: Id, next: Option<Id>, r: Id)
    requires t < |s.pcs| && s.pcs[t] == Unlisting(x, next) && next != Some(x)
    requires x < |s.reqs| && r < |s.reqs| && Counted(s, r)
    ensures Counted(Unlist(s, t, x, next), r)
  {
    hide Tally;
    CountMove(s, Unlist(s, t, x, next), t, r);
  }

  lemma KeepUnlisting(s: State, t: nat, x: Id, next: Option<Id>)
    requires Inv(s) && t < |s.pcs| && s.pcs[t] == Unlisting(x, next) && s.lock.None?
    ensures x < |s.reqs| && Inv(Unlist(s, t, x, next))
  {
    hide Tally, Calls, ReqLocking, Locking, Lists, Counted;
    assert Relying(s, s.pcs[t]);
    var s' := Unlist(s, t, x, next);
    forall r | 0 <= r < |s.reqs|
      ensures Counted(s', r)
    {
      CountsUnlisting(s, t, x, next, r);
    }
    ListsLess(s, s', t, x);
    BusyStep(s, s', t);
  }

  /** The lists stay, and so do the listed requests and their owners. */
  lemma ListsSame(s: State, s': State, t: nat)
    requires Inv(s) && Only(s, s', t) && |s.reqs| <= |s'.reqs| && s'.list == s.list && s'.interrupts == s.interrupts
    requires forall r :: r in s.list ==> s'.reqs[r] == s.reqs[r].(ctr := s'.reqs[r].ctr)
    requires forall r :: r in s.list ==> Weight(s'.pcs[t], Owner, r) == Weight(s.pcs[t], Owner, r)
    requires forall q :: q in s.interrupts ==> s'.reqs[q] == s.reqs[q]
    ensures Lists(s')
  {
    hide Calls, ReqLocking, Locking, Counted, Tally, Relying;
    forall r | r in s.list
      ensures Tally(s'.pcs, Owner, r) == 1
    {
      CountMove(s, s', t, r);
    }
  }

  /** A request with counter 0 is not listed, nor kept. */
  lemma DoomedUnknown(s: State, t: nat, r: Id)
    requires Inv(s) && t < |s.pcs| && s.pcs[t].Dooming(r)
    ensures r < |s.reqs| && r !in s.list && r !in s.interrupts && Ids(s.reqs, s.list) && Ids(s.reqs, s.interrupts)
  {
    hide Calls, ReqLocking, Locking, Tally;
    assert Relying(s, s.pcs[t]);
    assert Counted(s, r);
    TallyAtLeast(s.pcs, t, Doomer, r);
  }

  lemma CountsDestroying(s: State, t: nat, x: Id, next: Option<Id>, r: Id)
    requires t < |s.pcs| && s.pcs[t] == Dropped(x, 0, next) && x < |s.reqs| && r < |s.reqs| && Counted(s, r)
    ensures Counted(Destroy(s, t, x, next), r)
  {
    hide Tally;
    CountMove(s, Destroy(s, t, x, next), t, r);
  }

  lemma ResumeOwns(x: Id, ctr: int, next: Option<Id>, r: Id)
    ensures Weight(Resume(next), Owner, r) == Weight(Dropped(x, ctr, next), Owner, r)
  {
  }

  lemma ListsDestroying(s: State, t: nat, x: Id, next: Option<Id>)
    requires Inv(s) && t < |s.pcs| && s.pcs[t] == Dropped(x, 0, next)
    ensures x < |s.reqs| && Lists(Destroy(s, t, x, next))
  {
    DoomedUnknown(s, t, x);
    hide Tally, Calls, ReqLocking, Locking, Lists, Counted, Relying, Weight, Resume;
    forall r | r in s.list
      ensures Weight(Resume(next), Owner, r) == Weight(s.pcs[t], Owner, r)
    {
      ResumeOwns(x, 0, next, r);
    }
    ListsSame(s, Destroy(s, t, x, next), t);
  }

  lemma TameDestroying(s: State, t: nat, x: Id, next: Option<Id>)
    requires Inv(s) && t < |s.pcs| && s.pcs[t] == Dropped(x, 0, next) && x < |s.reqs|
    ensures var s' := Destroy(s, t, x, next);
            Tame(s, s', t) && LocksMove(s, s', t) && forall r :: 0 <= r < |s.reqs| ==> CallMoves(s, s', t, r)
  {
    hide Tally, Calls, ReqLocking, Locking, Lists, Counted, Relying;
  }

  lemma KeepDestroying(s: State, t: nat, x: Id, next: Option<Id>)
    requires Inv(s) && t < |s.pcs| && s.pcs[t] == Dropped(x, 0, next)
    ensures x < |s.reqs| && Inv(Destroy(s, t, x, next))
  {
    DoomedUnknown(s, t, x);
    ListsDestroying(s, t, x, next);
    TameDestroying(s, t, x, next);
    hide Tally, Calls, ReqLocking, Locking, Lists, Counted, Tame, LocksMove, CallMoves;
    assert Relying(s, s.pcs[t]);
    var s' := Destroy(s, t, x, next);
    forall r | 0 <= r < |s.reqs|
      ensures Counted(s', r) && |s'.reqs[r].ways| <= 1
    {
      CountsDestroying(s, t, x, next, r);
    }
    BusyStep(s, s', t);
  }

  lemma CountsReleasing(s: State, t: nat, q: Id, x: Id, r: Id)
    requires t < |s.pcs| && s.pcs[t] == Releasing(q, x) && Chasing(s, q, x)
    requires r < |s.reqs| && Counted(s, r)
    ensures Counted(Release(s, t, q, x), r)
  {
    hide Tally;
    CountMove(s, Release(s, t, q, x), t, r);
  }

  /** A listed request has its owner's reference besides those of interrupters. */
  lemma ListedOwned(s: State, r: Id)
    requires Inv(s) && r in s.list
    ensures r < |s.reqs| && s.reqs[r].live && s.reqs[r].ctr == 1 + Tally(s.pcs, Holder, r) && r !in s.interrupts
  {
    hide Calls, ReqLocking, Locking, Tally, Relying;
    assert Counted(s, r);
  }

  lemma ListsReleasing(s: State, t: nat, q: Id, x: Id)
    requires Inv(s) && t < |s.pcs| && s.pcs[t] == Releasing(q, x)
    ensures Chasing(s, q, x) && Lists(Release(s, t, q, x))
  {
    hide Tally, Calls, ReqLocking, Locking, Counted;
    assert Relying(s, s.pcs[t]);
    hide Relying;
    var s' := Release(s, t, q, x);
    if x in s.list {
      ListedOwned(s, x);
      TallyAtLeast(s.pcs, t, Holder, x);
    }
    if q in s.interrupts {
      KeptAlone(s, t, q);
    }
    if x in s.interrupts {
      KeptAlone(s, t, x);
    }
    ListsSame(s, s', t);
  }

  lemma TameReleasing(s: State, t: nat, q: Id, x: Id)
    requires Inv(s) && t < |s.pcs| && s.pcs[t] == Releasing(q, x) && s.lock.None? && Chasing(s, q, x)
    ensures var s' := Release(s, t, q, x);
            Tame(s, s', t) && LocksMove(s, s', t) && forall r :: 0 <= r < |s.reqs| ==> CallMoves(s, s', t, r)
  {
    hide Tally, Calls, ReqLocking, Locking, Lists, Counted, Relying;
  }

  lemma KeepReleasing(s: State, t: nat, q: Id, x: Id)
    requires Inv(s) && t < |s.pcs| && s.pcs[t] == Releasing(q, x) && s.lock.None?
    ensures Chasing(s, q, x) && Inv(Release(s, t, q, x))
  {
    ListsReleasing(s, t, q, x);
    TameReleasing(s, t, q, x);
    hide Tally, Calls, ReqLocking, Locking, Lists, Counted, Tame, LocksMove, CallMoves;
    var s' := Release(s, t, q, x);
    forall r | 0 <= r < |s.reqs|
      ensures Counted(s', r) && |s'.reqs[r].ways| <= 1
    {
      CountsReleasing(s, t, q, x, r);
    }
    BusyStep(s, s', t);
  }

  lemma OwnedOnce(s: State, t: nat, r: Id)
    requires Inv(s) && t < |s.pcs| && r < |s.reqs| && s.pcs[t].Owning(r)
    ensures Tally(s.pcs, Owner, r) == 1 && r !in s.interrupts && s.reqs[r].live
  {
    hide Calls, ReqLocking, Locking, Tally, Lists, Relying;
    assert Counted(s, r);
    TallyAtLeast(s.pcs, t, Owner, r);
  }

  // An INTERRUPT whose target is listed

  lemma CountsHolding(s: State, t: nat, q: Id, x: Id, r: Id)
    requires t < |s.pcs| && s.pcs[t] == IntArrived(q) && q != x && q < |s.reqs| && x < |s.reqs|
    requires s.reqs[x].live && s.reqs[x].ctr > 0
    requires r < |s.reqs| && Counted(s, r)
    ensures Counted(Hold(s, t, q, x), r)
  {
    hide Tally;
    CountMove(s, Hold(s, t, q, x), t, r);
  }

  lemma ListsHolding(s: State, t: nat, q: Id, x: Id)
    requires Inv(s) && t < |s.pcs| && s.pcs[t] == IntArrived(q) && x in s.list
    ensures Fresh(s, q) && x < |s.reqs| && s.reqs[x].u.Func? && s.reqs[x].live && s.reqs[x].ctr > 0
    ensures Lists(Hold(s, t, q, x))
  {
    hide Tally, Calls, ReqLocking, Locking, Counted;
    assert Relying(s, s.pcs[t]);
    hide Relying;
    ListedOwned(s, x);
    OwnedOnce(s, t, q);
    ListsSame(s, Hold(s, t, q, x), t);
  }

  lemma KeepHolding(s: State, t: nat, q: Id, x: Id)
    requires Inv(s) && t < |s.pcs| && s.pcs[t] == IntArrived(q) && x in s.list && s.lock.None?
    ensures Fresh(s, q) && x < |s.reqs| && Inv(Hold(s, t, q, x))
  {
    ListsHolding(s, t, q, x);
    hide Tally, Calls, ReqLocking, Locking, Counted, Lists;
    assert Relying(s, s.pcs[t]);
    var s' := Hold(s, t, q, x);
    forall r | 0 <= r < |s.reqs|
      ensures Counted(s', r)
    {
      CountsHolding(s, t, q, x, r);
    }
    BusyStep(s, s', t);
  }

  // An INTERRUPT for a request for which another one is kept

  lemma CountsDropping(s: State, t: nat, q: Id, r: Id)
    requires t < |s.pcs| && s.pcs[t] == IntArrived(q) && Fresh(s, q)
    requires r < |s.reqs| && Counted(s, r)
    ensures Counted(DropDuplicate(s, t, q), r)
  {
    hide Tally;
    CountMove(s, DropDuplicate(s, t, q), t, r);
  }

  lemma ListsDropping(s: State, t: nat, q: Id)
    requires Inv(s) && t < |s.pcs| && s.pcs[t] == IntArrived(q)
    ensures Fresh(s, q) && Lists(DropDuplicate(s, t, q))
  {
    hide Tally, Calls, ReqLocking, Locking, Counted;
    assert Relying(s, s.pcs[t]);
    hide Relying;
    OwnedOnce(s, t, q);
    ListsSame(s, DropDuplicate(s, t, q), t);
  }

  lemma KeepDropping(s: State, t: nat, q: Id)
    requires Inv(s) && t < |s.pcs| && s.pcs[t] == IntArrived(q) && s.lock.None?
    ensures Fresh(s, q) && Inv(DropDuplicate(s, t, q))
  {
    ListsDropping(s, t, q);
    hide Tally, Calls, ReqLocking, Locking, Counted, Lists;
    assert Relying(s, s.pcs[t]);
    var s' := DropDuplicate(s, t, q);
    forall r | 0 <= r < |s.reqs|
      ensures Counted(s', r)
    {
      CountsDropping(s, t, q, r);
    }
    BusyStep(s, s', t);
  }

  // An INTERRUPT kept for later

  lemma CountsPostponing(s: State, t: nat, q: Id, r: Id)
    requires t < |s.pcs| && s.pcs[t] == IntArrived(q)
    requires r < |s.reqs| && Counted(s, r)
    ensures Counted(Postpone(s, t, q), r)
  {
    hide Tally;
    CountMove(s, Postpone(s, t, q), t, r);
  }

  lemma ListsPostponing(s: State, t: nat, q: Id)
    requires Inv(s) && t < |s.pcs| && s.pcs[t] == IntArrived(q) && Fresh(s, q)
    requires forall r :: r in s.list ==> s.reqs[r].unique != s.reqs[q].u.unique
    requires forall p :: p in s.interrupts ==> s.reqs[p].u != s.reqs[q].u
    ensures Lists(Postpone(s, t, q))
  {
    hide Tally, Calls, ReqLocking, Locking, Counted, Relying;
    OwnedOnce(s, t, q);
    var s' := Postpone(s, t, q);
    forall r | r in s.list
      ensures Tally(s'.pcs, Owner, r) == 1
    {
      CountMove(s, s', t, r);
    }
  }

  lemma KeepPostponing(s: State, t: nat, q: Id)
    requires Inv(s) && t < |s.pcs| && s.pcs[t] == IntArrived(q) && s.lock.None? && Fresh(s, q)
    requires forall r :: r in s.list ==> s.reqs[r].unique != s.reqs[q].u.unique
    requires forall p :: p in s.interrupts ==> s.reqs[p].u != s.reqs[q].u
    ensures Inv(Postpone(s, t, q))
  {
    ListsPostponing(s, t, q);
    hide Tally, Calls, ReqLocking, Locking, Counted, Lists;
    assert Relying(s, s.pcs[t]);
    var s' := Postpone(s, t, q);
    forall r | 0 <= r < |s.reqs|
      ensures Counted(s', r)
    {
      CountsPostponing(s, t, q, r);
    }
    BusyStep(s, s', t);
  }

  lemma KeepFinding(s: State, t: nat, c: Choice)
    requires Inv(s) && Ready(s, t, c) && s.pcs[t].IntArrived?
    ensures Inv(Step(s, t, c))
  {
    hide Tally, Calls, ReqLocking, Locking, Counted, Lists, Hold, DropDuplicate, Postpone;
    var q := s.pcs[t].intr;
    assert Relying(s, s.pcs[t]);
    var target := s.reqs[q].u.unique;
    match FindUnique(s.reqs, s.list, target)
    case Some(r) => KeepHolding(s, t, q, r);
    case None =>
      if FindTarget(s.reqs, s.interrupts, target).Some? {
        KeepDropping(s, t, q);
      } else {
        KeepPostponing(s, t, q);
      }
  }

  // Listing a request

  /** Thread t lists its request r. */
  ghost predicate Listing(s: State, s': State, t: nat, r: Id) {
    && Only(s, s', t) && r < |s.reqs| == |s'.reqs| && s.pcs[t] == Arrived(r) && s'.pcs[t].Listed? && s'.pcs[t].req == r
    && Ids(s.reqs, s.list) && Ids(s.reqs, s.interrupts) && s'.list == s.list + [r]
      && s'.reqs[r] == s.reqs[r].(interrupted := s'.reqs[r].interrupted)
    && (forall x :: x in s.list ==> s'.reqs[x] == s.reqs[x])
    && (forall q :: q in s'.interrupts ==> q in s.interrupts && s'.reqs[q] == s.reqs[q])
  }

  lemma ListsMore(s: State, s': State, t: nat, r: Id)
    requires Inv(s) && Listing(s, s', t, r) && Distinct(s'.interrupts)
    requires forall q :: q in s'.interrupts ==> s.reqs[q].u != Target(s.reqs[r].unique)
    requires forall x :: x in s.list ==> Weight(s'.pcs[t], Owner, x) == Weight(s.pcs[t], Owner, x)
    ensures Lists(s')
  {
    hide Tally, Calls, ReqLocking, Locking, Counted;
    assert Relying(s, s.pcs[t]);
    hide Relying;
    OwnedOnce(s, t, r);
    forall x | x in s'.list
      ensures x < |s'.reqs| && s'.reqs[x].u.Func? && Tally(s'.pcs, Owner, x) == 1
    {
      CountMove(s, s', t, x);
    }
  }

  lemma CountsListing(s: State, t: nat, x: Id, r: Id)
    requires t < |s.pcs| && s.pcs[t] == Arrived(x)
    requires x < |s.reqs| && r < |s.reqs| && Counted(s, r)
    ensures Counted(JustList(s, t, x), r)
  {
    hide Tally;
    CountMove(s, JustList(s, t, x), t, r);
  }

  lemma KeepListing(s: State, t: nat, x: Id)
    requires Inv(s) && t < |s.pcs| && s.pcs[t] == Arrived(x) && s.lock.None? && s.interrupts == []
    ensures x < |s.reqs| && Inv(JustList(s, t, x))
  {
    assert Ids(s.reqs, s.list) && Distinct(s.interrupts);
    hide Tally, Calls, ReqLocking, Locking, Counted, Lists;
    assert Relying(s, s.pcs[t]);
    var s' := JustList(s, t, x);
    ListsMore(s, s', t, x);
    forall r | 0 <= r < |s.reqs|
      ensures Counted(s', r)
    {
      CountsListing(s, t, x, r);
    }
    BusyStep(s, s', t);
  }

  /** An interrupt kept for later is unlike any request that arrives. */
  lemma KeptFresh(s: State, t: nat, x: Id, p: Id)
    requires Inv(s) && t < |s.pcs| && s.pcs[t] == Arrived(x) && p in s.interrupts
    ensures x < |s.reqs| && p != x && Fresh(s, p) && s.reqs[p].live && Counted(s, p) && Distinct(s.interrupts)
    ensures Ids(s.reqs, s.list) && Ids(s.reqs, s.interrupts)
  {
    hide Tally, Calls, ReqLocking, Locking;
    assert Relying(s, s.pcs[t]);
    assert Counted(s, p);
  }

  lemma CountsMatching(s: State, t: nat, x: Id, p: Id, r: Id)
    requires t < |s.pcs| && s.pcs[t] == Arrived(x) && p in s.interrupts && Distinct(s.interrupts)
    requires x < |s.reqs| && x != p && Fresh(s, p) && r < |s.reqs| && Counted(s, r)
    ensures Counted(MatchLate(s, t, x, p), r)
  {
    hide Tally;
    CountMove(s, MatchLate(s, t, x, p), t, r);
  }

  lemma ListsMatching(s: State, t: nat, x: Id, p: Id)
    requires Inv(s) && t < |s.pcs| && s.pcs[t] == Arrived(x) && p in s.interrupts
    requires x < |s.reqs| && p < |s.reqs| && s.reqs[p].u == Target(s.reqs[x].unique)
    ensures Lists(MatchLate(s, t, x, p))
  {
    hide Tally, Calls, ReqLocking, Locking, Counted, Relying;
    KeptFresh(s, t, x, p);
    OwnedOnce(s, t, x);
    ListsMore(s, MatchLate(s, t, x, p), t, x);
  }

  lemma KeepMatching(s: State, t: nat, x: Id, p: Id)
    requires Inv(s) && t < |s.pcs| && s.pcs[t] == Arrived(x) && p in s.interrupts && s.lock.None?
    requires x < |s.reqs| && p < |s.reqs| && s.reqs[p].u == Target(s.reqs[x].unique)
    ensures Inv(MatchLate(s, t, x, p))
  {
    KeptFresh(s, t, x, p);
    ListsMatching(s, t, x, p);
    hide Tally, Calls, ReqLocking, Locking, Counted, Lists;
    assert Relying(s, s.pcs[t]);
    var s' := MatchLate(s, t, x, p);
    forall r | 0 <= r < |s.reqs|
      ensures Counted(s', r)
    {
      CountsMatching(s, t, x, p, r);
    }
    BusyStep(s, s', t);
  }

  lemma CountsBouncing(s: State, t: nat, x: Id, p: Id, r: Id)
    requires t < |s.pcs| && s.pcs[t] == Arrived(x) && p in s.interrupts && Distinct(s.interrupts)
    requires x < |s.reqs| && x != p && p < |s.reqs| && r < |s.reqs| && Counted(s, r)
    ensures Counted(Bounce(s, t, x, p), r)
  {
    hide Tally;
    CountMove(s, Bounce(s, t, x, p), t, r);
  }

  lemma ListsBouncing(s: State, t: nat, x: Id, p: Id)
    requires Inv(s) && t < |s.pcs| && s.pcs[t] == Arrived(x) && p in s.interrupts
    requires x < |s.reqs| && p < |s.reqs|
    requires forall q :: q in s.interrupts ==> s.reqs[q].u != Target(s.reqs[x].unique)
    ensures Lists(Bounce(s, t, x, p))
  {
    hide Tally, Calls, ReqLocking, Locking, Counted, Relying;
    KeptFresh(s, t, x, p);
    OwnedOnce(s, t, x);
    ListsMore(s, Bounce(s, t, x, p), t, x);
  }

  lemma KeepBouncing(s: State, t: nat, x: Id, p: Id)
    requires Inv(s) && t < |s.pcs| && s.pcs[t] == Arrived(x) && p in s.interrupts && s.lock.None?
    requires x < |s.reqs| && p < |s.reqs|
    requires forall q :: q in s.interrupts ==> s.reqs[q].u != Target(s.reqs[x].unique)
    ensures Inv(Bounce(s, t, x, p))
  {
    KeptFresh(s, t, x, p);
    ListsBouncing(s, t, x, p);
    hide Tally, Calls, ReqLocking, Locking, Counted, Lists;
    assert Relying(s, s.pcs[t]);
    var s' := Bounce(s, t, x, p);
    forall r | 0 <= r < |s.reqs|
      ensures Counted(s', r)
    {
      CountsBouncing(s, t, x, p, r);
    }
    BusyStep(s, s', t);
  }

  lemma KeepChecking(s: State, t: nat, c: Choice)
    requires Inv(s) && Ready(s, t, c) && s.pcs[t].Arrived?
    ensures Inv(Step(s, t, c))
  {
    hide Tally, Calls, ReqLocking, Locking, Counted, Lists, JustList, MatchLate, Bounce;
    var r := s.pcs[t].req;
    assert Relying(s, s.pcs[t]);
    match FindTarget(s.reqs, s.interrupts, s.reqs[r].unique)
    case Some(p) => KeepMatching(s, t, r, p);
    case None =>
      if s.interrupts == [] {
        KeepListing(s, t, r);
      } else {
        assert s.interrupts[0] in s.interrupts;
        KeepBouncing(s, t, r, s.interrupts[0]);
      }
  }

  // Receiving a message

  lemma CountsReceiving(s: State, t: nat, c: Choice, r: Id)
    requires t < |s.pcs| && s.pcs[t].Idle? && !c.SetFunc? && !c.Reply? && Ids(s.reqs, s.interrupts)
    requires if r < |s.reqs| then Counted(s, r) else r == |s.reqs| && forall role :: Tally(s.pcs, role, r) == 0
    ensures Counted(Receive(s, t, c), r)
  {
    hide Tally;
    CountMove(s, Receive(s, t, c), t, r);
  }

  lemma KeepReceiving(s: State, t: nat, c: Choice)
    requires Inv(s) && t < |s.pcs| && s.pcs[t].Idle? && !c.SetFunc? && !c.Reply?
    ensures Inv(Receive(s, t, c))
  {
    var s' := Receive(s, t, c);
    ListsReceiving(s, t, c);
    NewUnlocked(s, t, c);
    hide Tally, Calls, ReqLocking, Locking, Counted, Lists;
    assert Relying(s, s.pcs[t]);
    forall r | 0 <= r < |s'.reqs|
      ensures Counted(s', r)
    {
      CountsReceiving(s, t, c, r);
    }
    BusyStep(s, s', t);
  }

  lemma ListsReceiving(s: State, t: nat, c: Choice)
    requires Inv(s) && t < |s.pcs| && s.pcs[t].Idle? && !c.SetFunc? && !c.Reply?
    ensures Lists(Receive(s, t, c)) && Ids(s.reqs, s.interrupts) && Ids(s.reqs, s.list)
  {
    hide Tally, Calls, ReqLocking, Locking, Counted, Relying;
    ListsSame(s, Receive(s, t, c), t);
  }

  lemma NewUnlocked(s: State, t: nat, c: Choice)
    requires Inv(s) && t < |s.pcs| && s.pcs[t].Idle? && !c.SetFunc? && !c.Reply?
    ensures ReqLocking(Receive(s, t, c), |s.reqs|) && Calls(Receive(s, t, c), |s.reqs|)
  {
    hide Tally, Counted, Lists, Locking;
    var s' := Receive(s, t, c);
    forall u | 0 <= u < |s'.pcs|
      ensures !s'.pcs[u].HoldsLock(|s.reqs|)
    {
      assert Relying(s, s.pcs[u]);
    }
  }

  /** Every step of every thread keeps the invariant. */
  lemma StepKeepsInv(s: State, t: nat, c: Choice)
    requires Inv(s) && Ready(s, t, c)
    ensures Inv(Step(s, t, c))
  {
    hide Inv, Receive, CheckInterrupt, FindInterrupted, Unlist, Destroy, Release, Ids;
    var pc := s.pcs[t];
    match pc
    case Idle => KeepReceiving(s, t, c);
    case Arrived(_) => KeepChecking(s, t, c);
    case Listed(_, _) => KeepListed(s, t, c);
    case Running(_) => KeepOperation(s, t, c);
    case Setting(_, _) => KeepOperation(s, t, c);
    case SetDone(_) => KeepOperation(s, t, c);
    case FreeStart(_, _) => KeepClearing(s, t, c);
    case Cleared(_, _) => KeepClearing(s, t, c);
    case Unlisting(r, next) => KeepUnlisting(s, t, r, next);
    case Unlisted(_, _, _) => KeepUnlisted(s, t, c);
    case Dropped(r, ctr, next) => if ctr == 0 { KeepDestroying(s, t, r, next); } else { KeepDropped(s, t, c); }
    case IntArrived(_) => KeepFinding(s, t, c);
    case Matched(_, _) => KeepLocking(s, t, c);
    case WantLock(_, _) => KeepLocking(s, t, c);
    case Locked(_, _) => KeepLocking(s, t, c);
    case Marked(_, _) => KeepCalling(s, t, c);
    case Calling(_, _) => KeepCalling(s, t, c);
    case InCall(_, _, _) => KeepCalling(s, t, c);
    case Called(_, _) => KeepCalling(s, t, c);
    case Releasing(q, r) => KeepReleasing(s, t, q, r);
    case IntDone => KeepDone(s, t, c);
  }
}
