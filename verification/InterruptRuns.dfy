/** What holds throughout every run of the interruption protocol, whatever the order of the steps. */
module InterruptRuns {
  import opened Bytes
  import opened Interrupts
  import opened InterruptInvariant

  /** Thread t makes a step, the environment deciding c. */
  datatype Move = Move(t: nat, c: Choice)

  predicate Initial(s: State) {
    s.reqs == [] && s.list == [] && s.interrupts == [] && s.lock == None && forall t :: 0 <= t < |s.pcs| ==>
      s.pcs[t] == Idle
  }

  ghost predicate Moves(s: State, m: Move, s': State) {
    Ready(s, m.t, m.c) && s' == Step(s, m.t, m.c)
  }

  /** A run: states that follow one another by steps of the threads. */
  ghost predicate Run(states: seq<State>, moves: seq<Move>) {
    && |states| == |moves| + 1 && Initial(states[0])
    && forall i :: 0 <= i < |moves| ==> Moves(states[i], moves[i], states[i + 1])
  }

  lemma NobodyAtFirst(pcs: seq<Pc>, role: Role, r: Id)
    requires forall t :: 0 <= t < |pcs| ==> pcs[t] == Idle
    ensures Tally(pcs, role, r) == 0
  {
  }

  lemma InitialInv(s: State)
    requires Initial(s)
    ensures Inv(s)
  {
    forall role, r
      ensures Tally(s.pcs, role, r) == 0
    {
      NobodyAtFirst(s.pcs, role, r);
    }
  }

  lemma {:induction false} InvAlways(states: seq<State>, moves: seq<Move>, i: nat)
    requires Run(states, moves) && i < |states|
    ensures Inv(states[i])
  {
    if i == 0 {
      InitialInv(states[0]);
    } else {
      InvAlways(states, moves, i - 1);
      assert Moves(states[i - 1], moves[i - 1], states[i]);
      StepKeepsInv(states[i - 1], moves[i - 1].t, moves[i - 1].c);
    }
  }

  /** A thread refers only to requests that exist: only a lock can keep it from going on. */
  lemma OnlyLocksBlock(states: seq<State>, moves: seq<Move>, i: nat, t: nat, c: Choice)
    requires Run(states, moves) && i < |states| && t < |states[i].pcs|
    ensures InRange(states[i], states[i].pcs[t])
    ensures Enabled(states[i], t, c) ==> Ready(states[i], t, c)
  {
    InvAlways(states, moves, i);
    assert Relying(states[i], states[i].pcs[t]);
  }

  /** The counter of a request is one for its creation, until it is freed, plus one for each thread that is
    * interrupting it; the reference of its creation is never held twice. */
  lemma CounterExact(states: seq<State>, moves: seq<Move>, i: nat, r: Id)
    requires Run(states, moves) && i < |states| && r < |states[i].reqs| && states[i].reqs[r].live
    ensures Owners(states[i], r) <= 1
    ensures states[i].reqs[r].ctr == Owners(states[i], r) + Tally(states[i].pcs, Holder, r)
  {
    InvAlways(states, moves, i);
    assert Counted(states[i], r);
  }

  lemma {:induction false} Somebody(pcs: seq<Pc>, role: Role, r: Id) returns (t: nat)
    requires Tally(pcs, role, r) > 0
    ensures t < |pcs| && Weight(pcs[t], role, r) == 1
  {
    if Weight(pcs[0], role, r) == 1 {
      t := 0;
    } else {
      t := Somebody(pcs[1..], role, r);
      t := t + 1;
    }
  }

  /** Somebody has business with request r. */
  ghost predicate Known(s: State, r: Id) {
    r in s.interrupts || exists t :: 0 <= t < |s.pcs| && s.pcs[t].Touching(r)
  }

  /** No use after destruction and no leak: the requests that a thread or a list refers to are exactly those
    * not yet destroyed. */
  lemma LiveIffKnown(states: seq<State>, moves: seq<Move>, i: nat, r: Id)
    requires Run(states, moves) && i < |states| && r < |states[i].reqs|
    ensures states[i].reqs[r].live <==> Known(states[i], r)
    ensures r in states[i].list ==> states[i].reqs[r].live
  {
    var s := states[i];
    InvAlways(states, moves, i);
    assert Counted(s, r);
    if s.reqs[r].live && r !in s.interrupts {
      var role := if Tally(s.pcs, Owner, r) > 0 then Owner else if Tally(s.pcs, Holder, r) > 0 then Holder else Doomer;
      var t := Somebody(s.pcs, role, r);
      assert s.pcs[t].Touching(r);
    }
    forall t | 0 <= t < |s.pcs| && s.pcs[t].Touching(r)
      ensures s.reqs[r].live
    {
      TallyAtLeast(s.pcs, t, Owner, r);
      TallyAtLeast(s.pcs, t, Holder, r);
      TallyAtLeast(s.pcs, t, Doomer, r);
    }
  }

  /** While a callback runs, the request is not destroyed and this is the callback that is set: once it has been
    * cleared, or another one set, it does not run. */
  lemma CallbackIsSet(states: seq<State>, moves: seq<Move>, i: nat, t: nat)
    requires Run(states, moves) && i < |states| && t < |states[i].pcs| && states[i].pcs[t].InCall?
    ensures var pc := states[i].pcs[t];
            && pc.req < |states[i].reqs| && states[i].reqs[pc.req].live
            && states[i].reqs[pc.req].u == Func(pc.func) && pc.func != 0
  {
    InvAlways(states, moves, i);
    assert Relying(states[i], states[i].pcs[t]);
    LiveIffKnown(states, moves, i, states[i].pcs[t].req);
  }

  /** No interrupt is lost: whenever the lock of an interrupted request is free, its callback, if one is set,
    * has been called since it was set. */
  lemma InterruptedIsTold(states: seq<State>, moves: seq<Move>, i: nat, r: Id)
    requires Run(states, moves) && i < |states| && r < |states[i].reqs| && states[i].reqs[r].lock.None?
    ensures Notified(states[i].reqs[r])
  {
    var s := states[i];
    InvAlways(states, moves, i);
    assert Calls(s, r) && ReqLocking(s, r);
  }

  /** When the INTERRUPT of a listed request is about to be given up, that request is marked, and unless its lock
    * is taken, it has been told. */
  lemma DeliveredIsSeen(states: seq<State>, moves: seq<Move>, i: nat, t: nat)
    requires Run(states, moves) && i < |states| && t < |states[i].pcs| && states[i].pcs[t].Releasing?
    ensures var r := states[i].pcs[t].req;
            && r < |states[i].reqs| && states[i].reqs[r].interrupted
            && (states[i].reqs[r].lock.None? && states[i].reqs[r].u != Func(0) ==> states[i].reqs[r].called)
  {
    InvAlways(states, moves, i);
    assert Relying(states[i], states[i].pcs[t]);
    var r := states[i].pcs[t].req;
    if states[i].reqs[r].lock.None? {
      InterruptedIsTold(states, moves, i, r);
    }
  }

  /** An INTERRUPT is kept only as long as its target is not listed, and no two are kept for the same target. */
  lemma KeptInterrupts(states: seq<State>, moves: seq<Move>, i: nat, p: Id, q: Id)
    requires Run(states, moves) && i < |states| && p in states[i].interrupts && q in states[i].interrupts
    ensures p < |states[i].reqs| && q < |states[i].reqs| && Ids(states[i].reqs, states[i].list)
    ensures p != q ==> states[i].reqs[p].u != states[i].reqs[q].u
    ensures forall r :: r in states[i].list ==> states[i].reqs[q].u != Target(states[i].reqs[r].unique)
  {
    InvAlways(states, moves, i);
  }

  /** An INTERRUPT is disposed of in at most one of the four ways. */
  lemma OneWay(states: seq<State>, moves: seq<Move>, i: nat, r: Id)
    requires Run(states, moves) && i < |states| && r < |states[i].reqs|
    ensures |states[i].reqs[r].ways| <= 1
  {
    InvAlways(states, moves, i);
  }

  /** What a step may do to a request: it is never revived, what became of it is never forgotten, and only
    * fuse_req_interrupt_func sets a callback. */
  ghost predicate Evolves(q: Req, q': Req, sets: bool) {
    && q'.unique == q.unique && (q'.live ==> q.live) && q.ways <= q'.ways && (q.interrupted ==> q'.interrupted)
    && (q'.u == q.u || q'.u == Func(0) || sets)
  }

  lemma FindingEvolves(s: State, t: nat, q: Id, r: Id)
    requires t < |s.pcs| && q < |s.reqs| && s.reqs[q].u.Target? && Ids(s.reqs, s.list) && Ids(s.reqs, s.interrupts)
    requires r < |s.reqs|
    ensures r < |FindInterrupted(s, t, q).reqs| && Evolves(s.reqs[r], FindInterrupted(s, t, q).reqs[r], false)
  {
  }

  lemma CheckingEvolves(s: State, t: nat, x: Id, r: Id)
    requires t < |s.pcs| && x < |s.reqs| && Ids(s.reqs, s.interrupts) && r < |s.reqs|
    ensures r < |CheckInterrupt(s, t, x).reqs| && Evolves(s.reqs[r], CheckInterrupt(s, t, x).reqs[r], false)
  {
  }

  lemma StepEvolves(s: State, t: nat, c: Choice, r: Id)
    requires Ready(s, t, c) && r < |s.reqs|
    ensures r < |Step(s, t, c).reqs|
    ensures Evolves(s.reqs[r], Step(s, t, c).reqs[r], s.pcs[t].Setting? && s.pcs[t].req == r)
  {
    hide CheckInterrupt, FindInterrupted;
    if s.pcs[t].IntArrived? {
      FindingEvolves(s, t, s.pcs[t].intr, r);
    } else if s.pcs[t].Arrived? {
      CheckingEvolves(s, t, s.pcs[t].req, r);
    }
  }

  lemma StepTouches(s: State, t: nat, c: Choice, r: Id)
    requires Ready(s, t, c) && r < |s.reqs| && r < |Step(s, t, c).reqs|
    ensures s.reqs[r] != Step(s, t, c).reqs[r] ==> s.pcs[t].Touching(r) || r in s.list || r in s.interrupts
  {
  }

  lemma UnknownStays(s: State, m: Move, s': State, r: Id)
    requires Moves(s, m, s') && r < |s.reqs| && !Known(s, r) && r !in s.list
    ensures r < |s'.reqs| && s'.reqs[r] == s.reqs[r]
  {
    assert !s.pcs[m.t].Touching(r);
    hide Step, Ready;
    StepEvolves(s, m.t, m.c, r);
    StepTouches(s, m.t, m.c, r);
  }

  /** A destroyed request is never touched again; in particular it is destroyed only once. */
  lemma {:induction false} DeadForever(states: seq<State>, moves: seq<Move>, i: nat, j: nat, r: Id)
    requires Run(states, moves) && i <= j < |states| && r < |states[i].reqs| && !states[i].reqs[r].live
    ensures r < |states[j].reqs| && states[j].reqs[r] == states[i].reqs[r]
    decreases j
  {
    hide Moves, Known;
    if i < j {
      DeadForever(states, moves, i, j - 1, r);
      LiveIffKnown(states, moves, j - 1, r);
      UnknownStays(states[j - 1], moves[j - 1], states[j], r);
    }
  }

  /** From the time the callback of request r is cleared until one is set again, none runs. */
  lemma {:induction false} ClearedStaysClear(states: seq<State>, moves: seq<Move>, i: nat, j: nat, r: Id)
    requires Run(states, moves) && i <= j < |states| && r < |states[i].reqs| && states[i].reqs[r].u == Func(0)
    requires forall k :: i <= k < j ==> !SetsCallback(states[k], moves[k], r)
    ensures r < |states[j].reqs| && states[j].reqs[r].u == Func(0)
    ensures forall t :: 0 <= t < |states[j].pcs| && states[j].pcs[t].InCall? ==> states[j].pcs[t].req != r
    decreases j
  {
    if i < j {
      ClearedStaysClear(states, moves, i, j - 1, r);
      var s, m := states[j - 1], moves[j - 1];
      assert Moves(s, m, states[j]) && !SetsCallback(s, m, r);
      StepEvolves(s, m.t, m.c, r);
    }
    forall t | 0 <= t < |states[j].pcs| && states[j].pcs[t].InCall?
      ensures states[j].pcs[t].req != r
    {
      CallbackIsSet(states, moves, j, t);
    }
  }

  ghost predicate SetsCallback(s: State, m: Move, r: Id) {
    m.t < |s.pcs| && s.pcs[m.t].Setting? && s.pcs[m.t].req == r
  }

  ghost predicate CanMove(s: State, t: nat) {
    t < |s.pcs| && InRange(s, s.pcs[t]) && (Enabled(s, t, Reply) || Enabled(s, t, Ordinary(0)))
  }

  /** No deadlock: while a thread has to wait, a thread that holds a lock can go on. */
  lemma NoDeadlock(states: seq<State>, moves: seq<Move>, i: nat, t: nat)
    requires Run(states, moves) && i < |states| && t < |states[i].pcs|
    ensures CanMove(states[i], t) || exists u: nat :: CanMove(states[i], u) && HoldsSome(states[i].pcs[u])
  {
    var s := states[i];
    InvAlways(states, moves, i);
    hide Lists, Calls, Counted, Tally;
    assert Relying(s, s.pcs[t]);
    if !CanMove(s, t) {
      if s.lock.Some? {
        var u := s.lock.value;
        assert Relying(s, s.pcs[u]);
        assert CanMove(s, u) && HoldsSome(s.pcs[u]);
      } else {
        var r := s.pcs[t].req;
        var u := s.reqs[r].lock.value;
        assert ReqLocking(s, r) && s.pcs[u].HoldsLock(r);
        assert Relying(s, s.pcs[u]);
        assert CanMove(s, u) && HoldsSome(s.pcs[u]);
      }
    }
  }

  predicate HoldsSome(pc: Pc) {
    pc.HoldsList() || pc.HoldsReqLock()
  }
}
