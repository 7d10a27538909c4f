/** The dispatch loop and whole runs of the server: every ready entry finds the connection it was
    reported for, and the invariant holds for ever. */
module ReactorRuns {
  import opened Reactor
  import opened ReactorInvariant
  import opened ReactorEcho

  /** One answer of epoll_wait: registered slots, each at most once, with whatever is ready on them. */
  ghost predicate IsBatch(s: State, batch: seq<Ready>)
    requires Table(s)
  {
    && (forall k :: 0 <= k < |batch| ==> 0 <= batch[k].slot <= MAX_EVENTS && s.Live(batch[k].slot))
    && (forall k, m :: 0 <= k < m < |batch| ==> batch[k].slot != batch[m].slot)
  }

  lemma AServer()
    ensures Inv(InitListenSocket(Zeroed(3, NulDropped), 4, 0)) && Conversing(InitListenSocket(Zeroed(3, NulDropped), 4, 0))
  {
    StartConverses(3, 4, 0, NulDropped);
  }

  /** The states of a server that has started and is keeping both invariants. */
  type Server = s: State | Inv(s) && Conversing(s)
    ghost witness (AServer(); InitListenSocket(Zeroed(3, NulDropped), 4, 0))

  // ---------- One entry ----------

  predicate FirstFires(s: State, r: Ready)
    requires Table(s) && 0 <= r.slot <= MAX_EVENTS
  {
    r.events.rd && s.slots[r.slot].events.rd
  }

  predicate SecondFires(s: State, r: Ready)
    requires Table(s) && 0 <= r.slot <= MAX_EVENTS
  {
    r.events.wr && s.slots[r.slot].events.wr
  }

  function First(s: Server, r: Ready, env: Env): (s1: Server)
    requires 0 <= r.slot <= MAX_EVENTS && s.Live(r.slot)
    ensures SparesOthers(s, s1, r.slot)
    ensures s1.slots[r.slot].events.wr ==> s1.Live(r.slot)
  {
    if FirstFires(s, r) then
      CallKeeps(s, r.slot, env);
      CallConverses(s, r.slot, env);
      ReceiveEndsWritingOrDead(s, r.slot, env);
      Call(s, r.slot, env)
    else s
  }

  /** After a callback on a slot waiting to read, the slot waits to write only if it is live: a slot
      recvdata has just closed does not pass the second test. */
  lemma ReceiveEndsWritingOrDead(s: Server, i: int, env: Env)
    requires 0 <= i <= MAX_EVENTS && s.Live(i) && s.slots[i].events.rd
    ensures s.slots[i].callBack != Null && s.slots[i].arg == i
    ensures Call(s, i, env).slots[i].events.wr ==> Call(s, i, env).Live(i)
    ensures i != LISTENER && !Call(s, i, env).Live(i) ==> Call(s, i, env).slots[i].events == EPOLLIN
  {
    CallKeeps(s, i, env);
    assert ArmedAs(s.slots[i], i);
  }

  function Entry(s: Server, r: Ready, envs: (Env, Env)): (s2: Server)
    requires 0 <= r.slot <= MAX_EVENTS && s.Live(r.slot)
    ensures SparesOthers(s, s2, r.slot)
  {
    var s1 := First(s, r, envs.0);
    if SecondFires(s1, r) then
      CallKeeps(s1, r.slot, envs.1);
      CallConverses(s1, r.slot, envs.1);
      Call(s1, r.slot, envs.1)
    else s1
  }

  // ---------- One batch ----------

  /** The listener, or a slot with no entry among the first k. */
  ghost predicate Spared(batch: seq<Ready>, k: nat, j: int)
    requires k <= |batch|
  {
    j == LISTENER || forall m :: 0 <= m < k ==> batch[m].slot != j
  }

  /** The state after the first k entries. No entry is stale: until its turn comes, the slot of each
      later entry is live and holds the connection it held when the batch was taken, whatever slots
      the earlier callbacks closed, and whatever slots acceptconn filled. */
  function Dispatch(s: Server, batch: seq<Ready>, envs: seq<(Env, Env)>, k: nat): (r: Server)
    requires IsBatch(s, batch) && |envs| == |batch| && k <= |batch|
    ensures r.checkpos == s.checkpos && r.layout == s.layout && (s.history.overran ==> r.history.overran)
    ensures forall m :: k <= m < |batch| ==> Same(s, r, batch[m].slot) && r.Live(batch[m].slot)
    ensures forall j {:trigger Spared(batch, k, j)} ::
              0 <= j <= MAX_EVENTS && s.Live(j) && Spared(batch, k, j) ==> Same(s, r, j)
  {
    if k == 0 then s
    else
      var before := Dispatch(s, batch, envs, k - 1);
      SparedBefore(batch, k);
      Entry(before, batch[k - 1], envs[k - 1])
  }

  lemma SparedBefore(batch: seq<Ready>, k: nat)
    requires 0 < k <= |batch|
    ensures forall j {:trigger Spared(batch, k, j)} :: Spared(batch, k, j) ==>
              Spared(batch, k - 1, j) && (j == LISTENER || batch[k - 1].slot != j)
  {
  }

  lemma DispatchNext(s: Server, batch: seq<Ready>, envs: seq<(Env, Env)>, k: nat)
    requires IsBatch(s, batch) && |envs| == |batch| && k < |batch|
    ensures 0 <= batch[k].slot <= MAX_EVENTS && Dispatch(s, batch, envs, k).Live(batch[k].slot)
    ensures Dispatch(s, batch, envs, k + 1) == Entry(Dispatch(s, batch, envs, k), batch[k], envs[k])
  {
  }

  // ---------- One round, and many ----------

  datatype Round = Round(now: int, batch: seq<Ready>, envs: seq<(Env, Env)>)

  /** The state in which epoll_wait is called. */
  function Swept(s: Server, now: int): Server {
    SweepKeeps(s, now, SWEEP);
    SweepConverses(s, now, SWEEP);
    Sweep(s, now, SWEEP)
  }

  ghost predicate CanRound(s: Server, round: Round) {
    IsBatch(Swept(s, round.now), round.batch) && |round.envs| == |round.batch|
  }

  function DoRound(s: Server, round: Round): (r: Server)
    requires CanRound(s, round)
    ensures r.checkpos == Swept(s, round.now).checkpos
  {
    Dispatch(Swept(s, round.now), round.batch, round.envs, |round.batch|)
  }

  lemma {:induction false} RoundSparesUnswept(s: Server, round: Round, j: int)
    requires CanRound(s, round) && 0 <= j <= MAX_EVENTS && Spared(round.batch, |round.batch|, j)
    requires Swept(s, round.now).Live(j)
    ensures Same(Swept(s, round.now), DoRound(s, round), j)
  {
  }

  ghost predicate CanRun(s: Server, rounds: seq<Round>)
    decreases |rounds|
  {
    rounds == [] || (CanRound(s, rounds[0]) && CanRun(DoRound(s, rounds[0]), rounds[1..]))
  }

  /** Every reachable state has both invariants: table and kernel agree, every live slot is armed with
      its callback, every descriptor is accounted for, and on every connection there ever was receives
      and sends strictly alternate, each send being a prefix of the chunk before it. */
  function Run(s: Server, rounds: seq<Round>): (r: State)
    requires CanRun(s, rounds)
    ensures Inv(r) && Conversing(r)
    decreases |rounds|
  {
    if rounds == [] then s else Run(DoRound(s, rounds[0]), rounds[1..])
  }

  // ---------- The listener ----------

  lemma {:induction false} SweepSparesListener(s: State, now: int, steps: nat)
    requires Inv(s)
    ensures Same(s, Sweep(s, now, steps), LISTENER)
  {
    if steps > 0 {
      SweepSparesListener(s, now, steps - 1);
    }
  }

  /** Neither the slot search nor the sweep ever reaches the listener: it stays as it was set up, live
      and waiting to accept, in every run. */
  lemma {:induction false} ListenerStays(s: Server, rounds: seq<Round>)
    requires CanRun(s, rounds)
    ensures Same(s, Run(s, rounds), LISTENER)
    ensures Run(s, rounds).Live(LISTENER) && ArmedAs(Run(s, rounds).slots[LISTENER], LISTENER)
    decreases |rounds|
  {
    if rounds != [] {
      SweepSparesListener(s, rounds[0].now, SWEEP);
      RoundSparesUnswept(s, rounds[0], LISTENER);
      ListenerStays(DoRound(s, rounds[0]), rounds[1..]);
    }
  }

  // ---------- Descriptors ----------

  /** What was accepted over a run and is still open is held by a live slot or was refused, so
      that refused connections are the only ones that leak. */
  lemma {:induction false} OnlyRefusedLeak(s: Server, rounds: seq<Round>)
    requires CanRun(s, rounds)
    ensures var r := Run(s, rounds);
            forall fd :: fd in r.kernel.open <==>
              fd == r.kernel.efd || fd in r.history.refused ||
              exists i :: 0 <= i <= MAX_EVENTS && r.Live(i) && r.slots[i].fd == fd
  {
    var r := Run(s, rounds);
    forall fd | fd in r.kernel.open && fd != r.kernel.efd && fd !in r.history.refused
      ensures exists i :: 0 <= i <= MAX_EVENTS && r.Live(i) && r.slots[i].fd == fd
    {
      assert fd in r.kernel.interest;
      var i := r.kernel.interest[fd].slot;
      assert r.Live(i) && r.slots[i].fd == fd;
    }
  }
}
