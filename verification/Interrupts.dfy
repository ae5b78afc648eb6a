/** Requests and the interrupts that chase them, as threads that take the list lock and the request
  * locks. One step runs from one lock operation to the next; any thread may take the next step. */
module Interrupts {
  import opened Bytes

  type Id = nat

  /** What a request stores about interrupts: an INTERRUPT its target, any other request its callback
    * (0 for none). The two share their storage. */
  datatype Union = Target(unique: int) | Func(func: nat)

  /** How an INTERRUPT is disposed of. */
  datatype Way = Delivered | Duplicate | MatchedLate | Bounced

  /** `called` tells that the present callback has been called, `ways` what became of an INTERRUPT. A
    * destroyed request stays in the heap with live == false, so that touching it can be observed. */
  datatype Req = Req(unique: int, ctr: int, u: Union, interrupted: bool, lock: Option<nat>, live: bool,
                     called: bool, ways: seq<Way>)

  /** Where a thread is. `next` is the request whose processing goes on after another one was freed. */
  datatype Pc =
    | Idle
    | Arrived(req: Id)                                    // about to check for an early interrupt
    | Listed(req: Id, early: Option<Id>)                  // holds the list lock
    | Running(req: Id)                                    // in the file system operation
    | Setting(req: Id, func: nat)                         // about to set the callback
    | SetDone(req: Id)                                    // holds the request's lock
    | FreeStart(req: Id, next: Option<Id>)                // about to clear the callback
    | Cleared(req: Id, next: Option<Id>)                  // holds the request's lock
    | Unlisting(req: Id, next: Option<Id>)                // about to take it off the list
    | Unlisted(req: Id, ctr: int, next: Option<Id>)       // holds the list lock
    | Dropped(req: Id, ctr: int, next: Option<Id>)        // about to destroy it if unused
    | IntArrived(intr: Id)                                // an INTERRUPT about to look for its target
    | Matched(intr: Id, req: Id)                          // holds the list lock
    | WantLock(intr: Id, req: Id)                         // about to lock the target
    | Locked(intr: Id, req: Id)                           // holds the target's lock
    | Marked(intr: Id, req: Id)                           // holds both locks
    | Calling(intr: Id, req: Id)                          // holds the target's lock, about to call
    | InCall(intr: Id, req: Id, func: nat)                // holds the target's lock, in the callback
    | Called(intr: Id, req: Id)                           // holds the target's lock
    | Releasing(intr: Id, req: Id)                        // about to drop the target
    | IntDone                                             // holds the list lock
  {
    predicate HoldsList() {
      Listed? || Unlisted? || Matched? || Marked? || IntDone?
    }

    predicate HoldsReqLock() {
      SetDone? || Cleared? || Locked? || Marked? || Calling? || InCall? || Called?
    }

    predicate HoldsLock(r: Id) {
      HoldsReqLock() && req == r
    }

    /** Interrupting request r, on which a reference is held. */
    predicate Interrupting(r: Id) {
      (Matched? || WantLock? || Locked? || Marked? || Calling? || InCall? || Called? || Releasing?) && req == r
    }

    predicate AboutToCall(r: Id) {
      (Marked? || Calling?) && req == r
    }

    /** Answering for request r, that is holding the reference it was created with. */
    predicate Owning(r: Id) {
      || ((Arrived? || Listed? || Running? || Setting? || SetDone? || FreeStart? || Cleared? || Unlisting?) && req == r)
      || ((IntArrived? || Matched? || WantLock? || Locked? || Marked? || Calling? || InCall? || Called? || Releasing?)
          && intr == r)
      || (Listed? && early == Some(r))
      || ((FreeStart? || Cleared? || Unlisting? || Unlisted? || Dropped?) && next == Some(r))
    }

    /** About to destroy request r. */
    predicate Dooming(r: Id) {
      (Unlisted? || Dropped?) && ctr == 0 && req == r
    }

    /** The requests whose fields the next step may read or write, those on the lists aside. */
    predicate Touching(r: Id) {
      Owning(r) || Interrupting(r) || Dooming(r)
    }
  }

  datatype State = State(reqs: seq<Req>, pcs: seq<Pc>, list: seq<Id>, interrupts: seq<Id>, lock: Option<nat>)

  /** What the environment decides: the message received and what the operation does next. */
  datatype Choice = Ordinary(unique: int) | Interrupt(unique: int, target: int) | Rejected(unique: int)
                  | SetFunc(func: nat) | Reply

  predicate Ids(reqs: seq<Req>, ids: seq<Id>) {
    forall r :: r in ids ==> r < |reqs|
  }

  /** The first of the requests with this unique number. */
  function FindUnique(reqs: seq<Req>, ids: seq<Id>, unique: int): (r: Option<Id>)
    requires Ids(reqs, ids)
    ensures r.Some? ==> r.value in ids && reqs[r.value].unique == unique
    ensures r.None? ==> forall x :: x in ids ==> reqs[x].unique != unique
  {
    if ids == [] then None
    else
      assert ids[0] in ids && forall x :: x in ids[1..] ==> x in ids;
      if reqs[ids[0]].unique == unique then Some(ids[0])
      else FindUnique(reqs, ids[1..], unique)
  }

  /** The first of the interrupts with this target. */
  function FindTarget(reqs: seq<Req>, ids: seq<Id>, unique: int): (r: Option<Id>)
    requires Ids(reqs, ids)
    ensures r.Some? ==> r.value in ids && reqs[r.value].u == Target(unique)
    ensures r.None? ==> forall x :: x in ids ==> reqs[x].u != Target(unique)
  {
    if ids == [] then None
    else
      assert ids[0] in ids && forall x :: x in ids[1..] ==> x in ids;
      if reqs[ids[0]].u == Target(unique) then Some(ids[0])
      else FindTarget(reqs, ids[1..], unique)
  }

  /** Deletion from a list; a request that is not listed is linked to itself, and deleting it changes nothing. */
  function Remove(ids: seq<Id>, r: Id): (out: seq<Id>)
    ensures forall x :: x in ids && x != r ==> x in out
    ensures forall x :: x in out ==> x in ids
    ensures Distinct(ids) ==> Distinct(out) && r !in out
  {
    if ids == [] then []
    else if ids[0] == r then ids[1..]
    else
      assert Distinct(ids) ==> Distinct(ids[1..]) && ids[0] !in ids[1..];
      [ids[0]] + Remove(ids[1..], r)
  }

  ghost predicate Distinct(ids: seq<Id>) {
    forall i, j :: 0 <= i < j < |ids| ==> ids[i] != ids[j]
  }

  /** The requests a thread refers to exist, and one that it reads the target of is an INTERRUPT. */
  predicate InRange(s: State, pc: Pc) {
    match pc
    case Idle | IntDone => true
    case Arrived(r) => r < |s.reqs|
    case Listed(r, early) => r < |s.reqs|
    case Running(r) => r < |s.reqs|
    case Setting(r, _) => r < |s.reqs|
    case SetDone(r) => r < |s.reqs|
    case FreeStart(r, _) => r < |s.reqs|
    case Cleared(r, _) => r < |s.reqs|
    case Unlisting(r, _) => r < |s.reqs|
    case Unlisted(r, _, _) => r < |s.reqs|
    case Dropped(r, _, _) => r < |s.reqs|
    case IntArrived(q) => q < |s.reqs| && s.reqs[q].u.Target?
    case Matched(q, r) => q < |s.reqs| && r < |s.reqs|
    case WantLock(q, r) => q < |s.reqs| && r < |s.reqs|
    case Locked(q, r) => q < |s.reqs| && r < |s.reqs|
    case Marked(q, r) => q < |s.reqs| && r < |s.reqs|
    case Calling(q, r) => q < |s.reqs| && r < |s.reqs|
    case InCall(q, r, _) => q < |s.reqs| && r < |s.reqs|
    case Called(q, r) => q < |s.reqs| && r < |s.reqs|
    case Releasing(q, r) => q < |s.reqs| && r < |s.reqs|
  }

  /** Nothing but a taken lock keeps a thread from its next step. */
  predicate Enabled(s: State, t: nat, c: Choice)
    requires t < |s.pcs| && InRange(s, s.pcs[t])
  {
    match s.pcs[t]
    case Idle => !c.SetFunc? && !c.Reply?
    case Running(_) => c.SetFunc? || c.Reply?
    case Arrived(_) => s.lock.None?
    case Unlisting(_, _) => s.lock.None?
    case IntArrived(_) => s.lock.None?
    case Locked(_, _) => s.lock.None?
    case Releasing(_, _) => s.lock.None?
    case Setting(r, _) => s.reqs[r].lock.None?
    case FreeStart(r, _) => s.reqs[r].lock.None?
    case WantLock(_, r) => s.reqs[r].lock.None?
    case _ => true
  }

  function Goto(s: State, t: nat, pc: Pc): State
    requires t < |s.pcs|
  {
    s.(pcs := s.pcs[t := pc])
  }

  function Put(s: State, r: Id, q: Req): State
    requires r < |s.reqs|
  {
    s.(reqs := s.reqs[r := q])
  }

  function Dispose(q: Req, way: Way): Req {
    q.(live := false, ways := q.ways + [way])
  }

  /** Receiving a message allocates a request, whose fields are all zero at first. */
  function Receive(s: State, t: nat, c: Choice): State
    requires t < |s.pcs| && !c.SetFunc? && !c.Reply?
  {
    var u := if c.Interrupt? then Target(c.target) else Func(0);
    var q := Req(c.unique, 1, u, false, None, true, false, []);
    var r := |s.reqs|;
    var pc := if c.Ordinary? then Arrived(r) else if c.Interrupt? then IntArrived(r) else FreeStart(r, None);
    Goto(s.(reqs := s.reqs + [q]), t, pc)
  }

  /** check_interrupt finds interrupt p waiting for request r, and r is listed. */
  function MatchLate(s: State, t: nat, r: Id, p: Id): State
    requires t < |s.pcs| && r < |s.reqs| && p < |s.reqs|
  {
    var s1 := Put(Put(s, r, s.reqs[r].(interrupted := true)), p, Dispose(s.reqs[p], MatchedLate));
    Goto(s1.(list := s.list + [r], lock := Some(t), interrupts := Remove(s.interrupts, p)), t, Listed(r, None))
  }

  /** check_interrupt takes the first interrupt kept, to be answered by EAGAIN. */
  function Bounce(s: State, t: nat, r: Id, p: Id): State
    requires t < |s.pcs| && r < |s.reqs| && p < |s.reqs|
  {
    var s1 := Put(s, p, s.reqs[p].(ways := s.reqs[p].ways + [Bounced]));
    Goto(s1.(list := s.list + [r], lock := Some(t), interrupts := Remove(s.interrupts, p)), t, Listed(r, Some(p)))
  }

  function JustList(s: State, t: nat, r: Id): State
    requires t < |s.pcs| && r < |s.reqs|
  {
    Goto(s.(list := s.list + [r], lock := Some(t)), t, Listed(r, None))
  }

  /** check_interrupt and the listing of the request, under the list lock. */
  function CheckInterrupt(s: State, t: nat, r: Id): State
    requires t < |s.pcs| && r < |s.reqs| && Ids(s.reqs, s.interrupts)
  {
    match FindTarget(s.reqs, s.interrupts, s.reqs[r].unique)
    case Some(p) => MatchLate(s, t, r, p)
    case None =>
      if s.interrupts == [] then JustList(s, t, r)
      else
        assert s.interrupts[0] in s.interrupts;
        Bounce(s, t, r, s.interrupts[0])
  }

  function Hold(s: State, t: nat, q: Id, r: Id): State
    requires t < |s.pcs| && q < |s.reqs| && r < |s.reqs|
  {
    var s1 := Put(s.(lock := Some(t)), q, s.reqs[q].(ways := s.reqs[q].ways + [Delivered]));
    Goto(Put(s1, r, s1.reqs[r].(ctr := s.reqs[r].ctr + 1)), t, Matched(q, r))
  }

  function DropDuplicate(s: State, t: nat, q: Id): State
    requires t < |s.pcs| && q < |s.reqs|
  {
    Goto(Put(s.(lock := Some(t)), q, Dispose(s.reqs[q], Duplicate)), t, IntDone)
  }

  function Postpone(s: State, t: nat, q: Id): State
    requires t < |s.pcs|
  {
    Goto(s.(lock := Some(t), interrupts := s.interrupts + [q]), t, IntDone)
  }

  /** find_interrupted up to the first unlocking, and what do_interrupt does when nothing is found. */
  function FindInterrupted(s: State, t: nat, q: Id): State
    requires t < |s.pcs| && q < |s.reqs| && s.reqs[q].u.Target?
    requires Ids(s.reqs, s.list) && Ids(s.reqs, s.interrupts)
  {
    var target := s.reqs[q].u.unique;
    match FindUnique(s.reqs, s.list, target)
    case Some(r) => Hold(s, t, q, r)
    case None =>
      if FindTarget(s.reqs, s.interrupts, target).Some? then DropDuplicate(s, t, q) else Postpone(s, t, q)
  }

  function Release(s: State, t: nat, q: Id, r: Id): State
    requires t < |s.pcs| && q < |s.reqs| && r < |s.reqs|
  {
    var ctr := s.reqs[r].ctr - 1;
    var s1 := Put(s.(lock := Some(t)), r, s.reqs[r].(ctr := ctr, live := s.reqs[r].live && ctr != 0));
    Goto(Put(s1, q, s1.reqs[q].(live := false)), t, IntDone)
  }

  function Resume(next: Option<Id>): Pc {
    if next.Some? then Running(next.value) else Idle
  }

  /** free_req takes the request off the list and drops its reference. */
  function Unlist(s: State, t: nat, r: Id, next: Option<Id>): State
    requires t < |s.pcs| && r < |s.reqs|
  {
    var ctr := s.reqs[r].ctr - 1;
    var s1 := Put(s.(list := Remove(s.list, r), lock := Some(t)), r, s.reqs[r].(ctr := ctr));
    Goto(s1, t, Unlisted(r, ctr, next))
  }

  function Destroy(s: State, t: nat, r: Id, next: Option<Id>): State
    requires t < |s.pcs| && r < |s.reqs|
  {
    Goto(Put(s, r, s.reqs[r].(live := false)), t, Resume(next))
  }

  predicate Ready(s: State, t: nat, c: Choice) {
    && Ids(s.reqs, s.list) && Ids(s.reqs, s.interrupts)
    && t < |s.pcs| && InRange(s, s.pcs[t]) && Enabled(s, t, c)
  }

  /** The next step of thread t. */
  function Step(s: State, t: nat, c: Choice): State
    requires Ready(s, t, c)
  {
    match s.pcs[t]
    case Idle => Receive(s, t, c)
    case Arrived(r) => CheckInterrupt(s, t, r)
    case Listed(r, early) =>
      Goto(s.(lock := None), t, if early.Some? then FreeStart(early.value, Some(r)) else Running(r))
    case Running(r) => Goto(s, t, if c.SetFunc? then Setting(r, c.func) else FreeStart(r, None))
    case Setting(r, func) =>
      var q := s.reqs[r];
      Goto(Put(s, r, q.(u := Func(func), called := q.interrupted && func != 0, lock := Some(t))), t, SetDone(r))
    case SetDone(r) => Goto(Put(s, r, s.reqs[r].(lock := None)), t, Running(r))
    case FreeStart(r, next) =>
      Goto(Put(s, r, s.reqs[r].(u := Func(0), called := false, lock := Some(t))), t, Cleared(r, next))
    case Cleared(r, next) => Goto(Put(s, r, s.reqs[r].(lock := None)), t, Unlisting(r, next))
    case Unlisting(r, next) => Unlist(s, t, r, next)
    case Unlisted(r, ctr, next) => Goto(s.(lock := None), t, Dropped(r, ctr, next))
    case Dropped(r, ctr, next) => if ctr == 0 then Destroy(s, t, r, next) else Goto(s, t, Resume(next))
    case IntArrived(q) => FindInterrupted(s, t, q)
    case Matched(q, r) => Goto(s.(lock := None), t, WantLock(q, r))
    case WantLock(q, r) => Goto(Put(s, r, s.reqs[r].(lock := Some(t))), t, Locked(q, r))
    case Locked(q, r) => Goto(Put(s.(lock := Some(t)), r, s.reqs[r].(interrupted := true)), t, Marked(q, r))
    case Marked(q, r) => Goto(s.(lock := None), t, Calling(q, r))
    case Calling(q, r) =>
      var u := s.reqs[r].u;
      if u.Func? && u.func != 0 then Goto(Put(s, r, s.reqs[r].(called := true)), t, InCall(q, r, u.func))
      else Goto(s, t, Called(q, r))
    case InCall(q, r, _) => Goto(s, t, Called(q, r))
    case Called(q, r) => Goto(Put(s, r, s.reqs[r].(lock := None)), t, Releasing(q, r))
    case Releasing(q, r) => Release(s, t, q, r)
    case IntDone => Goto(s.(lock := None), t, Idle)
  }
}
