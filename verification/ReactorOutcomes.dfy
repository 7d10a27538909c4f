/** What a ready entry brings about: which callback runs, what goes over its connection, and what is
    left of that when the round is over. */
module ReactorOutcomes {
  import opened Options
  import opened Reactor
  import opened ReactorInvariant
  import opened ReactorEcho
  import opened ReactorRuns

  // ---------- Which callback runs ----------

  /** A client slot waiting to read, reported readable and nothing else, receives. */
  lemma EntryReads(s: Server, r: Ready, envs: (Env, Env))
    requires 0 <= r.slot < 1024 && s.Live(r.slot)
    requires s.slots[r.slot].events == Mask(true, false) && r.events == Mask(true, false)
    ensures Entry(s, r, envs) == Receive(s, s.slots[r.slot].fd, r.slot, envs.0)
  {
    assert ArmedAs(s.slots[r.slot], r.slot);
    ReceiveOutcome(s, r.slot, envs.0);
  }

  /** Reported writable as well, it answers at once, unless receiving has closed it. */
  lemma EntryReadsAndWrites(s: Server, r: Ready, envs: (Env, Env))
    requires 0 <= r.slot < 1024 && s.Live(r.slot)
    requires s.slots[r.slot].events == Mask(true, false) && r.events == Mask(true, true)
    ensures var fd := s.slots[r.slot].fd; var s1 := Receive(s, fd, r.slot, envs.0);
            Entry(s, r, envs) == if s1.Live(r.slot) then Send(s1, fd, r.slot, envs.1) else s1
  {
    assert ArmedAs(s.slots[r.slot], r.slot);
    ReceiveOutcome(s, r.slot, envs.0);
  }

  /** A client slot waiting to write sends when it is reported writable, readable or not. */
  lemma EntryWrites(s: Server, r: Ready, envs: (Env, Env))
    requires 0 <= r.slot < 1024 && s.Live(r.slot)
    requires s.slots[r.slot].events == Mask(false, true) && r.events.wr
    ensures Entry(s, r, envs) == Send(s, s.slots[r.slot].fd, r.slot, envs.1)
  {
    assert ArmedAs(s.slots[r.slot], r.slot);
  }

  /** The listener accepts when it is reported readable. */
  lemma EntryAccepts(s: Server, r: Ready, envs: (Env, Env))
    requires r.slot == 1024 && r.events.rd
    ensures s.Live(1024) && Entry(s, r, envs) == AcceptConnection(s, envs.0)
  {
    assert ArmedAs(s.slots[LISTENER], LISTENER);
  }

  /** An entry that reports nothing its slot is waiting for changes nothing. */
  lemma EntryIgnores(s: Server, r: Ready, envs: (Env, Env))
    requires 0 <= r.slot <= 1024 && s.Live(r.slot)
    requires !(r.events.rd && s.slots[r.slot].events.rd) && !(r.events.wr && s.slots[r.slot].events.wr)
    ensures Entry(s, r, envs) == s
  {
  }

  // ---------- What it puts on its connection ----------

  /** What sending `chunk` puts on a connection, with room for `room` bytes. */
  function Reply(chunk: string, room: int, layout: Layout): seq<Traffic> {
    if room <= 0 || (layout == LowByteFirst && |chunk| == 128) then []
    else [Sent(if room >= |chunk| then chunk else chunk[..room])]
  }

  predicate Waiting(env: Env) {
    env.incoming.Some? && env.incoming.value != ""
  }

  function FirstChunk(env: Env): string
    requires Waiting(env)
  {
    if |env.incoming.value| <= 128 then env.incoming.value else env.incoming.value[..128]
  }

  /** What an entry puts on the connection of a client slot that waits to read, or to write `pending`. */
  function Exchanged(events: Mask, pending: string, layout: Layout, ready: Mask, envs: (Env, Env)): seq<Traffic> {
    if events == Mask(true, false) then
      if !ready.rd || !Waiting(envs.0) then []
      else [Received(FirstChunk(envs.0))] + if ready.wr then Reply(FirstChunk(envs.0), envs.1.room, layout) else []
    else if ready.wr then Reply(pending, envs.1.room, layout)
    else []
  }

  /** Whether the connection outlives the entry: what was to be received or sent was not in vain. */
  predicate Outlives(events: Mask, pending: string, layout: Layout, ready: Mask, envs: (Env, Env)) {
    if events == Mask(true, false) then
      ready.rd ==> Waiting(envs.0) && (ready.wr ==> Reply(FirstChunk(envs.0), envs.1.room, layout) != [])
    else
      ready.wr ==> Reply(pending, envs.1.room, layout) != []
  }

  /** From b to a, connection c of slot j has had these items added to its log, and is still held by the
      slot, on the same descriptor, exactly if it stays. */
  ghost predicate Outcome(b: State, a: State, j: int, c: nat, items: seq<Traffic>, stays: bool)
    requires Table(b) && Table(a) && 0 <= j < 1024 && c in b.history.log
  {
    && c in a.history.log && a.history.log[c] == b.history.log[c] + items
    && (a.Live(j) && a.history.conn[j] == c <==> stays)
    && (stays ==> a.slots[j].fd == b.slots[j].fd)
  }

  lemma ReadOutcome(b: Server, j: int, env: Env) returns (c: nat)
    requires 0 <= j < 1024 && b.Live(j) && b.slots[j].events == Mask(true, false)
    ensures c == b.history.conn[j] && c in b.history.log
    ensures var a := Receive(b, b.slots[j].fd, j, env);
            && Inv(a) && Conversing(a) && a.layout == b.layout
            && Outcome(b, a, j, c, if Waiting(env) then [Received(FirstChunk(env))] else [], Waiting(env))
            && (Waiting(env) ==> a.slots[j].events == Mask(false, true) && Pending(a.history.log[c]) == FirstChunk(env))
  {
    c := b.history.conn[j];
    assert ArmedAs(b.slots[j], j);
    ReceiveOutcome(b, j, env);
    ReceiveKeeps(b, j, env);
    ReceiveConverses(b, j, env);
  }

  lemma WriteOutcome(b: State, j: int, env: Env) returns (c: nat)
    requires Inv(b) && Conversing(b) && 0 <= j < 1024 && b.Live(j) && b.slots[j].events == Mask(false, true)
    ensures c == b.history.conn[j] && c in b.history.log
    ensures var a := Send(b, b.slots[j].fd, j, env); var reply := Reply(Pending(b.history.log[c]), env.room, b.layout);
            Outcome(b, a, j, c, reply, reply != [])
  {
    c := b.history.conn[j];
    assert ArmedAs(b.slots[j], j);
    assert InPhase(b.slots[j], b.history.log[c], b.layout);
    SendOutcome(b, j, env);
  }

  lemma OutcomeThen(b: State, s1: State, a: State, j: int, c: nat, x: seq<Traffic>, y: seq<Traffic>, stays: bool)
    requires Table(b) && Table(s1) && Table(a) && 0 <= j < 1024 && c in b.history.log && c in s1.history.log
    requires Outcome(b, s1, j, c, x, true) && Outcome(s1, a, j, c, y, stays)
    ensures Outcome(b, a, j, c, x + y, stays)
  {
    assert b.history.log[c] + (x + y) == b.history.log[c] + x + y;
  }

  /** Receiving and answering in one entry. */
  lemma ReadWriteOutcome(b: Server, r: Ready, envs: (Env, Env)) returns (c: nat)
    requires 0 <= r.slot < 1024 && b.Live(r.slot) && b.slots[r.slot].events == Mask(true, false) && r.events == Mask(true, true)
    ensures c == b.history.conn[r.slot] && c in b.history.log
    ensures var items := Exchanged(Mask(true, false), "", b.layout, Mask(true, true), envs);
            Outcome(b, Entry(b, r, envs), r.slot, c, items, Outlives(Mask(true, false), "", b.layout, Mask(true, true), envs))
  {
    EntryReadsAndWrites(b, r, envs);
    c := ReadOutcome(b, r.slot, envs.0);
    if Waiting(envs.0) {
      var s1 := Receive(b, b.slots[r.slot].fd, r.slot, envs.0);
      var a := Send(s1, s1.slots[r.slot].fd, r.slot, envs.1);
      c := WriteOutcome(s1, r.slot, envs.1);
      var reply := Reply(FirstChunk(envs.0), envs.1.room, b.layout);
      OutcomeThen(b, s1, a, r.slot, c, [Received(FirstChunk(envs.0))], reply, reply != []);
    }
  }

  /** What an entry of a client slot does to that slot's connection. */
  lemma EntryOutcome(b: Server, r: Ready, envs: (Env, Env)) returns (c: nat)
    requires 0 <= r.slot < 1024 && b.Live(r.slot)
    ensures c == b.history.conn[r.slot] && c in b.history.log
    ensures var events := b.slots[r.slot].events; var pending := Pending(b.history.log[c]);
            Outcome(b, Entry(b, r, envs), r.slot, c, Exchanged(events, pending, b.layout, r.events, envs),
                    Outlives(events, pending, b.layout, r.events, envs))
  {
    c := b.history.conn[r.slot];
    assert ArmedAs(b.slots[r.slot], r.slot);
    if b.slots[r.slot].events == Mask(false, true) {
      if r.events.wr {
        EntryWrites(b, r, envs);
        c := WriteOutcome(b, r.slot, envs.1);
      } else {
        EntryIgnores(b, r, envs);
      }
    } else if !r.events.rd {
      EntryIgnores(b, r, envs);
    } else if r.events.wr {
      c := ReadWriteOutcome(b, r, envs);
    } else {
      EntryReads(b, r, envs);
      c := ReadOutcome(b, r.slot, envs.0);
    }
  }

  // ---------- What is left of it when the round is over ----------

  /** From a to f, connection c of slot j is left alone: its log, and whether and how the slot holds it. */
  ghost predicate LeftAlone(a: State, f: State, j: int, c: nat)
    requires Table(a) && Table(f) && 0 <= j < 1024 && c in a.history.log
  {
    && c in f.history.log && f.history.log[c] == a.history.log[c]
    && (f.Live(j) && f.history.conn[j] == c <==> a.Live(j) && a.history.conn[j] == c)
    && (a.Live(j) && a.history.conn[j] == c ==> f.slots[j] == a.slots[j])
    && a.history.refused <= f.history.refused
  }

  lemma AcceptLeavesAlone(b: Server, env: Env, j: int, c: nat)
    requires 0 <= j < 1024 && c in b.history.log
    ensures LeftAlone(b, AcceptConnection(b, env), j, c)
  {
    assert c < b.history.admitted;
  }

  lemma ReceiveLeavesAlone(b: Server, i: int, env: Env, j: int, c: nat)
    requires 0 <= i < 1024 && b.Live(i) && 0 <= j < 1024 && i != j && c in b.history.log && b.history.conn[i] != c
    ensures LeftAlone(b, Receive(b, b.slots[i].fd, i, env), j, c)
  {
  }

  lemma SendLeavesAlone(b: Server, i: int, env: Env, j: int, c: nat)
    requires 0 <= i < 1024 && b.Live(i) && 0 <= j < 1024 && i != j && c in b.history.log && b.history.conn[i] != c
    ensures LeftAlone(b, Send(b, b.slots[i].fd, i, env), j, c)
  {
  }

  lemma CallLeavesAlone(b: Server, i: int, env: Env, j: int, c: nat)
    requires 0 <= i <= 1024 && b.Live(i) && 0 <= j < 1024 && i != j && c in b.history.log
    requires i < 1024 ==> b.history.conn[i] != c
    ensures b.slots[i].callBack != Null && b.slots[i].arg == i
    ensures LeftAlone(b, Call(b, i, env), j, c)
  {
    assert ArmedAs(b.slots[i], i);
    match b.slots[i].callBack
    case AcceptConn => AcceptLeavesAlone(b, env, j, c);
    case RecvData => ReceiveLeavesAlone(b, i, env, j, c);
    case SendData => SendLeavesAlone(b, i, env, j, c);
  }

  lemma EntryLeavesAlone(b: Server, r: Ready, envs: (Env, Env), j: int, c: nat)
    requires 0 <= r.slot <= 1024 && b.Live(r.slot) && 0 <= j < 1024 && r.slot != j && c in b.history.log
    requires r.slot < 1024 ==> b.history.conn[r.slot] != c
    ensures LeftAlone(b, Entry(b, r, envs), j, c)
  {
    var s1 := First(b, r, envs.0);
    if FirstFires(b, r) {
      CallLeavesAlone(b, r.slot, envs.0, j, c);
    }
    if SecondFires(s1, r) {
      FirstKeepsConnection(b, r, envs.0);
      CallLeavesAlone(s1, r.slot, envs.1, j, c);
    }
  }

  lemma FirstKeepsConnection(b: Server, r: Ready, env: Env)
    requires 0 <= r.slot <= 1024 && b.Live(r.slot) && SecondFires(First(b, r, env), r)
    ensures First(b, r, env).history.conn[r.slot] == b.history.conn[r.slot]
  {
    assert ArmedAs(b.slots[r.slot], r.slot);
  }

  /** The connection a live client slot holds is no other's. */
  lemma HoldsAlone(w: Server, i: int, j: int)
    requires 0 <= i < 1024 && 0 <= j < 1024 && i != j && w.Live(i) && w.Live(j)
    ensures w.history.conn[i] != w.history.conn[j] && w.history.conn[j] in w.history.log
  {
    if i < j {
      assert w.slots[i].status == w.slots[j].status == 1;
    } else {
      assert w.slots[j].status == w.slots[i].status == 1;
    }
  }

  /** One entry after the other: each finds its slot live, as it was at first, and is processed. */
  ghost predicate GoesAt(states: seq<Server>, batch: seq<Ready>, envs: seq<(Env, Env)>, q: nat)
    requires |states| == |batch| + 1 == |envs| + 1 && q < |batch|
  {
    && 0 <= batch[q].slot <= MAX_EVENTS && states[q].Live(batch[q].slot) && Same(states[0], states[q], batch[q].slot)
    && states[q].layout == states[0].layout
    && states[q + 1] == Entry(states[q], batch[q], envs[q])
  }

  ghost predicate Goes(states: seq<Server>, batch: seq<Ready>, envs: seq<(Env, Env)>)
    requires |states| == |batch| + 1 == |envs| + 1
  {
    IsBatch(states[0], batch) && forall q :: 0 <= q < |batch| ==> GoesAt(states, batch, envs, q)
  }

  /** The states a batch goes through. */
  ghost function Trace(w: Server, batch: seq<Ready>, envs: seq<(Env, Env)>): (states: seq<Server>)
    requires IsBatch(w, batch) && |envs| == |batch|
    ensures |states| == |batch| + 1 && forall k :: 0 <= k <= |batch| ==> states[k] == Dispatch(w, batch, envs, k)
  {
    seq(|batch| + 1, k requires 0 <= k <= |batch| && IsBatch(w, batch) && |envs| == |batch| => Dispatch(w, batch, envs, k))
  }

  lemma TraceGoes(w: Server, batch: seq<Ready>, envs: seq<(Env, Env)>) returns (states: seq<Server>)
    requires IsBatch(w, batch) && |envs| == |batch|
    ensures states == Trace(w, batch, envs) && Goes(states, batch, envs)
    ensures states[0] == w && states[|batch|] == Dispatch(w, batch, envs, |batch|)
  {
    states := Trace(w, batch, envs);
    forall q | 0 <= q < |batch|
      ensures GoesAt(states, batch, envs, q)
    {
      DispatchNext(w, batch, envs, q);
    }
  }

  /** None of the entries from the m-th to the k-th is for slot j, or for a slot that held c. */
  ghost predicate NoneFor(w: State, batch: seq<Ready>, m: nat, k: nat, j: int, c: nat)
    requires Table(w) && IsBatch(w, batch) && m <= k <= |batch|
    decreases k
  {
    m == k ||
    (batch[k - 1].slot != j && (batch[k - 1].slot < 1024 ==> w.history.conn[batch[k - 1].slot] != c) &&
     NoneFor(w, batch, m, k - 1, j, c))
  }

  lemma NextLeavesAlone(states: seq<Server>, batch: seq<Ready>, envs: seq<(Env, Env)>, a: Server, q: nat, j: int, c: nat)
    requires |states| == |batch| + 1 == |envs| + 1 && q < |batch| && Goes(states, batch, envs)
    requires 0 <= j < 1024 && c in a.history.log
    requires batch[q].slot != j && (batch[q].slot < 1024 ==> states[0].history.conn[batch[q].slot] != c)
    ensures LeftAlone(a, states[q], j, c) ==> LeftAlone(a, states[q + 1], j, c)
  {
    assert GoesAt(states, batch, envs, q);
    if LeftAlone(a, states[q], j, c) {
      EntryLeavesAlone(states[q], batch[q], envs[q], j, c);
    }
  }

  lemma {:induction false} NoneForAt(w: State, batch: seq<Ready>, m: nat, k: nat, q: nat, j: int, c: nat)
    requires Table(w) && IsBatch(w, batch) && m <= q < k <= |batch| && NoneFor(w, batch, m, k, j, c)
    ensures batch[q].slot != j && (batch[q].slot < 1024 ==> w.history.conn[batch[q].slot] != c)
    decreases k
  {
    if q < k - 1 {
      NoneForAt(w, batch, m, k - 1, q, j, c);
    }
  }

  /** What each step keeps holds in the end. */
  lemma {:induction false} StepByStep<S>(states: seq<S>, p: S -> bool, m: nat, k: nat)
    requires m <= k < |states| && p(states[m])
    requires forall q :: m <= q < k && p(states[q]) ==> p(states[q + 1])
    ensures p(states[k])
    decreases k
  {
    if m < k {
      StepByStep(states, p, m, k - 1);
    }
  }

  lemma {:induction false} AllLeaveAlone(states: seq<Server>, batch: seq<Ready>, envs: seq<(Env, Env)>, m: nat, k: nat, j: int, c: nat)
    requires |states| == |batch| + 1 == |envs| + 1 && Goes(states, batch, envs) && m <= k <= |batch|
    requires 0 <= j < 1024 && c in states[m].history.log && NoneFor(states[0], batch, m, k, j, c)
    ensures LeftAlone(states[m], states[k], j, c)
  {
    var a := states[m];
    var alone := (f: State) => Table(f) && LeftAlone(a, f, j, c);
    forall q | m <= q < k && alone(states[q])
      ensures alone(states[q + 1])
    {
      NoneForAt(states[0], batch, m, k, q, j, c);
      NextLeavesAlone(states, batch, envs, a, q, j, c);
    }
    StepByStep(states, alone, m, k);
  }

  lemma {:induction false} OthersHoldOthers(w: Server, batch: seq<Ready>, m: nat, lo: nat, hi: nat)
    requires IsBatch(w, batch) && m < |batch| && batch[m].slot < 1024 && lo <= hi <= |batch| && !(lo <= m < hi)
    ensures NoneFor(w, batch, lo, hi, batch[m].slot, w.history.conn[batch[m].slot])
    decreases hi
  {
    if lo < hi {
      OthersHoldOthers(w, batch, m, lo, hi - 1);
      if batch[hi - 1].slot < 1024 {
        HoldsAlone(w, batch[hi - 1].slot, batch[m].slot);
      }
    }
  }

  lemma OutcomeBetween(w: State, b: State, a: State, f: State, j: int, c: nat, items: seq<Traffic>, stays: bool)
    requires Table(w) && Table(b) && Table(a) && Table(f) && 0 <= j < 1024
    requires c in w.history.log && c in b.history.log && c in a.history.log && w.Live(j) && w.history.conn[j] == c
    requires LeftAlone(w, b, j, c) && Outcome(b, a, j, c, items, stays) && LeftAlone(a, f, j, c)
    ensures Outcome(w, f, j, c, items, stays)
  {
  }

  lemma TurnOutcome(states: seq<Server>, batch: seq<Ready>, envs: seq<(Env, Env)>, m: nat) returns (c: nat)
    requires |states| == |batch| + 1 == |envs| + 1 && m < |batch| && GoesAt(states, batch, envs, m) && batch[m].slot < 1024
    requires states[0].history.conn[batch[m].slot] in states[0].history.log
    requires LeftAlone(states[0], states[m], batch[m].slot, states[0].history.conn[batch[m].slot])
    ensures var w := states[0]; var j := batch[m].slot; var events := w.slots[j].events;
            && c == w.history.conn[j] && c in w.history.log && c in states[m].history.log
            && var pending := Pending(w.history.log[c]);
               Outcome(states[m], states[m + 1], j, c, Exchanged(events, pending, w.layout, batch[m].events, envs[m]),
                       Outlives(events, pending, w.layout, batch[m].events, envs[m]))
  {
    c := EntryOutcome(states[m], batch[m], envs[m]);
  }

  lemma TraceOutcome(states: seq<Server>, batch: seq<Ready>, envs: seq<(Env, Env)>, m: nat) returns (c: nat)
    requires |states| == |batch| + 1 == |envs| + 1 && Goes(states, batch, envs) && m < |batch| && batch[m].slot < 1024
    ensures var w := states[0]; var j := batch[m].slot; var events := w.slots[j].events;
            && c == w.history.conn[j] && c in w.history.log
            && var pending := Pending(w.history.log[c]);
               Outcome(w, states[|batch|], j, c, Exchanged(events, pending, w.layout, batch[m].events, envs[m]),
                       Outlives(events, pending, w.layout, batch[m].events, envs[m]))
  {
    var w, j := states[0], batch[m].slot;
    c := w.history.conn[j];
    OthersHoldOthers(w, batch, m, 0, m);
    OthersHoldOthers(w, batch, m, m + 1, |batch|);
    AllLeaveAlone(states, batch, envs, 0, m, j, c);
    c := TurnOutcome(states, batch, envs, m);
    AllLeaveAlone(states, batch, envs, m + 1, |batch|, j, c);
    var events, pending := w.slots[j].events, Pending(w.history.log[c]);
    OutcomeBetween(w, states[m], states[m + 1], states[|batch|], j, c,
                   Exchanged(events, pending, w.layout, batch[m].events, envs[m]),
                   Outlives(events, pending, w.layout, batch[m].events, envs[m]));
  }

  /** Over a whole round: whatever the other entries and the connections they close and open, every ready
      client slot's connection has had put on it what its callbacks exchange, and is still open in its slot
      exactly if they were not in vain. */
  lemma RoundOutcome(s: Server, round: Round, m: nat) returns (c: nat)
    requires CanRound(s, round) && m < |round.batch| && round.batch[m].slot < 1024
    ensures var w := Swept(s, round.now); var j := round.batch[m].slot; var events := w.slots[j].events;
            && c == w.history.conn[j] && c in w.history.log
            && var pending := Pending(w.history.log[c]); var ready := round.batch[m].events;
               Outcome(w, DoRound(s, round), j, c, Exchanged(events, pending, w.layout, ready, round.envs[m]),
                       Outlives(events, pending, w.layout, ready, round.envs[m]))
  {
    var states := TraceGoes(Swept(s, round.now), round.batch, round.envs);
    c := TraceOutcome(states, round.batch, round.envs, m);
  }

  /** A client slot without an entry, and its connection, are left alone by the whole batch. */
  lemma RoundLeavesAlone(s: Server, round: Round, j: int)
    requires CanRound(s, round) && 0 <= j < 1024 && Swept(s, round.now).Live(j)
    requires forall m :: 0 <= m < |round.batch| ==> round.batch[m].slot != j
    ensures var w := Swept(s, round.now); w.history.conn[j] in w.history.log && LeftAlone(w, DoRound(s, round), j, w.history.conn[j])
  {
    var w := Swept(s, round.now);
    assert w.history.conn[j] in w.history.log;
    var states := TraceGoes(w, round.batch, round.envs);
    NoneForUnlisted(w, round.batch, |round.batch|, j);
    AllLeaveAlone(states, round.batch, round.envs, 0, |round.batch|, j, w.history.conn[j]);
  }

  lemma {:induction false} NoneForUnlisted(w: Server, batch: seq<Ready>, k: nat, j: int)
    requires IsBatch(w, batch) && k <= |batch| && 0 <= j < 1024 && w.Live(j)
    requires forall m :: 0 <= m < |batch| ==> batch[m].slot != j
    ensures NoneFor(w, batch, 0, k, j, w.history.conn[j])
  {
    if k > 0 {
      NoneForUnlisted(w, batch, k - 1, j);
      if batch[k - 1].slot < 1024 {
        HoldsAlone(w, batch[k - 1].slot, j);
      }
    }
  }

  // ---------- What is left of an accepted connection ----------

  lemma CallKeepsRefused(b: Server, i: int, env: Env)
    requires 0 <= i <= 1024 && b.Live(i)
    ensures b.slots[i].callBack != Null && b.slots[i].arg == i
    ensures b.history.refused <= Call(b, i, env).history.refused
  {
    assert ArmedAs(b.slots[i], i);
  }

  lemma EntryKeepsRefused(b: Server, r: Ready, envs: (Env, Env))
    requires 0 <= r.slot <= 1024 && b.Live(r.slot)
    ensures b.history.refused <= Entry(b, r, envs).history.refused
  {
    var s1 := First(b, r, envs.0);
    if FirstFires(b, r) {
      CallKeepsRefused(b, r.slot, envs.0);
    }
    if SecondFires(s1, r) {
      CallKeepsRefused(s1, r.slot, envs.1);
    }
  }

  lemma AllKeepRefused(states: seq<Server>, batch: seq<Ready>, envs: seq<(Env, Env)>, m: nat, fd: int)
    requires |states| == |batch| + 1 == |envs| + 1 && Goes(states, batch, envs) && m <= |batch|
    requires fd in states[m].history.refused
    ensures fd in states[|batch|].history.refused
  {
    var refused := (f: State) => fd in f.history.refused;
    forall q | m <= q < |batch| && refused(states[q])
      ensures refused(states[q + 1])
    {
      assert GoesAt(states, batch, envs, q);
      EntryKeepsRefused(states[q], batch[q], envs[q]);
    }
    StepByStep(states, refused, m, |batch|);
  }

  /** No later entry is for the slot a new connection has been put into, or can hold its number. */
  lemma {:induction false} NewcomerIsNew(w: Server, b: Server, batch: seq<Ready>, lo: nat, hi: nat, i: int, c: nat)
    requires IsBatch(w, batch) && lo <= hi <= |batch| && 0 <= i < 1024 && !b.Live(i) && c !in b.history.log
    requires forall q :: lo <= q < hi ==> b.Live(batch[q].slot) && Same(w, b, batch[q].slot)
    ensures NoneFor(w, batch, lo, hi, i, c)
    decreases hi
  {
    if lo < hi {
      NewcomerIsNew(w, b, batch, lo, hi - 1, i, c);
      if batch[hi - 1].slot < 1024 {
        assert b.history.conn[batch[hi - 1].slot] in b.history.log;
      }
    }
  }

  /** Slot i is the first that was idle in b; in f it holds descriptor cfd, nothing having gone over it yet. */
  ghost predicate Admitted(b: State, f: State, i: int, cfd: int)
    requires Table(b) && Table(f) && 0 <= i < 1024
  {
    && !b.Live(i) && (forall k :: 0 <= k < i ==> b.Live(k))
    && f.Live(i) && f.slots[i].fd == cfd && f.history.conn[i] in f.history.log && f.history.log[f.history.conn[i]] == []
  }

  lemma TraceAccepts(states: seq<Server>, batch: seq<Ready>, envs: seq<(Env, Env)>, m: nat)
    requires |states| == |batch| + 1 == |envs| + 1 && Goes(states, batch, envs) && m < |batch|
    requires batch[m].slot == 1024 && batch[m].events.rd
    requires envs[m].0.offer >= 0 && envs[m].0.offer !in states[m].kernel.open
    requires forall q :: m <= q < |batch| ==> states[m].Live(batch[q].slot) && Same(states[0], states[m], batch[q].slot)
    ensures var b := states[m]; var f := states[|batch|]; var env := envs[m].0;
            if env.nonblock && exists i :: 0 <= i < 1024 && !b.Live(i)
            then exists i :: 0 <= i < 1024 && Admitted(b, f, i, env.offer)
            else env.offer in f.history.refused
  {
    var b, env := states[m], envs[m].0;
    assert GoesAt(states, batch, envs, m);
    EntryAccepts(b, batch[m], envs[m]);
    AcceptOutcome(b, env);
    if env.nonblock && exists i :: 0 <= i < 1024 && !b.Live(i) {
      var a := states[m + 1];
      var i :| 0 <= i < 1024 && SettlesAt(b, a, i, env.offer, env.now);
      var c := a.history.conn[i];
      NewcomerIsNew(states[0], b, batch, m + 1, |batch|, i, c);
      AllLeaveAlone(states, batch, envs, m + 1, |batch|, i, c);
      assert Admitted(b, states[|batch|], i, env.offer);
    } else {
      AllKeepRefused(states, batch, envs, m + 1, env.offer);
    }
  }

  /** Over a whole round: what the listener's entry accepts has, when the round is over, either gone into the
      slot that was the first idle one when its turn came, or been refused, there being none or fcntl failing. */
  lemma RoundAccepts(s: Server, round: Round, m: nat) returns (b: Server)
    requires CanRound(s, round) && m < |round.batch| && round.batch[m].slot == 1024 && round.batch[m].events.rd
    ensures b == Dispatch(Swept(s, round.now), round.batch, round.envs, m)
    ensures var f := DoRound(s, round); var env := round.envs[m].0;
            env.offer >= 0 && env.offer !in b.kernel.open ==>
              if env.nonblock && exists i :: 0 <= i < 1024 && !b.Live(i)
              then exists i :: 0 <= i < 1024 && Admitted(b, f, i, env.offer)
              else env.offer in f.history.refused
  {
    var w := Swept(s, round.now);
    var states := Trace(w, round.batch, round.envs);
    b := states[m];
    var states' := TraceGoes(w, round.batch, round.envs);
    if round.envs[m].0.offer >= 0 && round.envs[m].0.offer !in b.kernel.open {
      TraceAccepts(states', round.batch, round.envs, m);
    }
  }
}
