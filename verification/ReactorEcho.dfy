/** What goes over the connections: on each of them receives and sends alternate, and every send
    answers the chunk before it with a prefix of it. */
module ReactorEcho {
  import opened Reactor
  import opened ReactorInvariant

  /** The NUL behind this chunk has wiped out its length. */
  predicate Lost(chunk: string, layout: Layout) {
    layout == LowByteFirst && |chunk| == BUFLEN
  }

  /** The k-th item on a connection: a nonempty chunk, or the nonempty prefix of the chunk just before,
      which has kept its length. */
  ghost predicate ItemOk(t: seq<Traffic>, k: nat, layout: Layout)
    requires k < |t|
  {
    t[k].bytes != "" &&
    if k % 2 == 0 then t[k].Received? && |t[k].bytes| <= BUFLEN
    else t[k].Sent? && t[k].bytes <= t[k - 1].bytes && !Lost(t[k - 1].bytes, layout)
  }

  ghost predicate Alternates(t: seq<Traffic>, layout: Layout) {
    forall k :: 0 <= k < |t| ==> ItemOk(t, k, layout)
  }

  ghost predicate Holds(slot: Slot, chunk: string, layout: Layout) {
    0 < |chunk| <= |slot.buf| && slot.buf[..|chunk|] == chunk && slot.len == if Lost(chunk, layout) then 0 else |chunk|
  }

  /** What a live client slot holds of the conversation it is in. */
  ghost predicate InPhase(slot: Slot, t: seq<Traffic>, layout: Layout) {
    if slot.callBack == SendData then
      |t| % 2 == 1 && t[|t| - 1].Received? && Holds(slot, t[|t| - 1].bytes, layout)
    else
      |t| % 2 == 0
  }

  ghost predicate Conversing(s: State)
    requires Table(s)
  {
    Conversations(s.slots, s.history, s.layout)
  }

  ghost predicate Conversations(slots: seq<Slot>, h: History, layout: Layout)
    requires |slots| == |h.conn| == MAX_EVENTS + 1
  {
    && (forall c :: c in h.log ==> c < h.admitted && Alternates(h.log[c], layout))
    && (forall i :: 0 <= i < MAX_EVENTS && slots[i].status == 1 ==>
          h.conn[i] in h.log && InPhase(slots[i], h.log[h.conn[i]], layout))
    && (forall i, j :: 0 <= i < j < MAX_EVENTS && slots[i].status == slots[j].status == 1 ==> h.conn[i] != h.conn[j])
  }

  /** The sizes the program declares. */
  lemma Sizes(s: State)
    requires Table(s)
    ensures |s.slots| == 1025 && LISTENER == 1024
    ensures forall i :: 0 <= i < 1025 ==> |s.slots[i].buf| == 128
  {
  }

  // ---------- Every step keeps it ----------

  lemma AlternatesExtends(t: seq<Traffic>, x: Traffic, layout: Layout)
    requires Alternates(t, layout) && ItemOk(t + [x], |t|, layout)
    ensures Alternates(t + [x], layout)
  {
    forall k | 0 <= k < |t + [x]|
      ensures ItemOk(t + [x], k, layout)
    {
      assert k < |t| ==> ItemOk(t, k, layout);
    }
  }

  /** The step only concerns slot j and its connection. */
  ghost predicate OnlyAt(s: State, r: State, j: int)
    requires Table(s) && Table(r)
  {
    && r.history.conn == s.history.conn && r.history.admitted == s.history.admitted && r.layout == s.layout
    && forall i :: 0 <= i < MAX_EVENTS && i != j ==> r.slots[i] == s.slots[i]
  }

  lemma LogsOneMore(s: State, r: State, j: int, x: Traffic)
    requires Table(s) && Table(r) && Conversing(s) && 0 <= j < MAX_EVENTS && s.Live(j) && OnlyAt(s, r, j)
    requires var t := s.history.log[s.history.conn[j]];
             && r.history.log == s.history.log[s.history.conn[j] := t + [x]]
             && ItemOk(t + [x], |t|, s.layout)
             && InPhase(r.slots[j], t + [x], s.layout)
    ensures Conversing(r)
  {
    AlternatesExtends(s.history.log[s.history.conn[j]], x, s.layout);
  }

  lemma LogsNothing(s: State, r: State, j: int)
    requires Table(s) && Table(r) && Conversing(s) && OnlyAt(s, r, j)
    requires r.history.log == s.history.log && 0 <= j < MAX_EVENTS && !r.Live(j)
    ensures Conversing(r)
  {
  }

  lemma ReceiveConverses(s: State, j: int, env: Env)
    requires Inv(s) && Conversing(s) && 0 <= j < MAX_EVENTS && s.Live(j) && s.slots[j].callBack == RecvData
    ensures Conversing(Receive(s, s.slots[j].fd, j, env))
  {
    var r := Receive(s, s.slots[j].fd, j, env);
    var n := if env.incoming.None? then -1 else Min(|env.incoming.value|, BUFLEN);
    if n > 0 {
      var chunk := env.incoming.value[..n];
      assert r.slots[j].buf[..n] == chunk;
      assert Holds(r.slots[j], chunk, s.layout);
      LogsOneMore(s, r, j, Received(chunk));
    } else {
      LogsNothing(s, r, j);
    }
  }

  lemma SendConverses(s: State, j: int, env: Env)
    requires Inv(s) && Conversing(s) && 0 <= j < MAX_EVENTS && s.Live(j) && s.slots[j].callBack == SendData
    ensures Conversing(Send(s, s.slots[j].fd, j, env))
  {
    var r := Send(s, s.slots[j].fd, j, env);
    var n := if env.room < 0 then -1 else Min(env.room, s.slots[j].len);
    if n > 0 {
      var x := Sent(s.slots[j].buf[..n]);
      var t := s.history.log[s.history.conn[j]];
      assert Holds(s.slots[j], t[|t| - 1].bytes, s.layout);
      assert x.bytes <= t[|t| - 1].bytes;
      LogsOneMore(s, r, j, x);
    } else {
      LogsNothing(s, r, j);
    }
  }

  lemma AdmitConverses(s: State, i: int, cfd: int, now: int)
    requires Table(s) && Conversing(s) && 0 <= i < MAX_EVENTS && !s.Live(i)
    ensures Conversing(Admit(s, i, cfd, now))
  {
  }

  lemma AcceptConverses(s: State, env: Env)
    requires Table(s) && Conversing(s)
    ensures Conversing(AcceptConnection(s, env))
  {
    var i := FirstFree(s.slots, 0);
    var cfd := s.kernel.Accepts(env.offer);
    if cfd != -1 && i < MAX_EVENTS && env.nonblock {
      var s1 := s.(kernel := s.kernel.(open := s.kernel.open + {cfd}));
      assert AcceptConnection(s, env) == Admit(s1, i, cfd, env.now);
      AdmitConverses(s1, i, cfd, env.now);
    } else {
      AcceptAdmitsNothing(s, env);
    }
  }

  lemma AcceptAdmitsNothing(s: State, env: Env)
    requires Table(s)
    requires s.kernel.Accepts(env.offer) == -1 || FirstFree(s.slots, 0) == MAX_EVENTS || !env.nonblock
    ensures AcceptConnection(s, env).slots == s.slots
    ensures var h := AcceptConnection(s, env).history; h == s.history.(refused := h.refused)
  {
  }

  lemma CallConverses(s: State, i: int, env: Env)
    requires Inv(s) && Conversing(s) && 0 <= i <= MAX_EVENTS && s.Live(i)
    ensures s.slots[i].callBack != Null && s.slots[i].arg == i
    ensures Conversing(Call(s, i, env))
  {
    CallKeeps(s, i, env);
    assert ArmedAs(s.slots[i], i);
    match s.slots[i].callBack
    case AcceptConn => AcceptConverses(s, env);
    case RecvData => ReceiveConverses(s, i, env);
    case SendData => SendConverses(s, i, env);
  }

  lemma {:induction false} SweepConverses(s: State, now: int, steps: nat)
    requires Inv(s) && Conversing(s)
    ensures Conversing(Sweep(s, now, steps))
  {
    if steps > 0 {
      SweepConverses(s, now, steps - 1);
    }
  }

  // ---------- What each callback does, seen from outside ----------

  /** Slot j is closed in r, its descriptor with it, and its connection's log is left as it was. */
  ghost predicate Closes(s: State, r: State, j: int)
    requires Table(s) && Table(r) && 0 <= j < MAX_EVENTS
  {
    && !r.Live(j) && r.kernel.open == s.kernel.open - {s.slots[j].fd}
    && r.history.log == s.history.log
  }

  /** Slot j goes on with the same descriptor, now waiting for `events`, stamped with the time, and
      its connection's log has gained x. */
  ghost predicate GoesOn(s: State, r: State, j: int, events: Mask, now: int, x: Traffic)
    requires Table(s) && Table(r) && 0 <= j < MAX_EVENTS && s.history.conn[j] in s.history.log
  {
    var c := s.history.conn[j];
    && r.Live(j) && r.slots[j].fd == s.slots[j].fd && r.slots[j].events == events
    && r.slots[j].touched == now && r.kernel.open == s.kernel.open
    && r.history.log == s.history.log[c := s.history.log[c] + [x]]
  }

  /** recvdata answers waiting bytes, at most 128 of them, by holding them for sending (with a length of
      zero, if the NUL wiped it out), and everything else by closing. No other slot is concerned. */
  lemma ReceiveOutcome(s: State, j: int, env: Env)
    requires Inv(s) && Conversing(s) && 0 <= j < MAX_EVENTS && s.Live(j) && s.slots[j].callBack == RecvData
    ensures var r := Receive(s, s.slots[j].fd, j, env);
            && OnlyAt(s, r, j)
            && if env.incoming.Some? && env.incoming.value != "" then
                 var chunk := if |env.incoming.value| <= 128 then env.incoming.value else env.incoming.value[..128];
                 GoesOn(s, r, j, Mask(false, true), env.now, Received(chunk)) && Holds(r.slots[j], chunk, s.layout) &&
                 (r.history.overran <==> s.history.overran || |chunk| == 128)
               else Closes(s, r, j) && r.history.overran == s.history.overran
  {
    if env.incoming.Some? && |env.incoming.value| <= 128 {
      assert env.incoming.value[..|env.incoming.value|] == env.incoming.value;
    }
  }

  /** senddata sends as much of the held chunk as is taken, or closes when nothing is, or nothing is
      left to be sent because the NUL has wiped out the length. */
  lemma SendOutcome(s: State, j: int, env: Env)
    requires Inv(s) && Conversing(s) && 0 <= j < MAX_EVENTS && s.Live(j) && s.slots[j].callBack == SendData
    ensures var r := Send(s, s.slots[j].fd, j, env); var t := s.history.log[s.history.conn[j]];
            && OnlyAt(s, r, j) && t != []
            && var chunk := t[|t| - 1].bytes;
               if env.room > 0 && !Lost(chunk, s.layout) then
                 GoesOn(s, r, j, Mask(true, false), env.now, Sent(if env.room >= |chunk| then chunk else chunk[..env.room]))
               else Closes(s, r, j)
  {
    var t := s.history.log[s.history.conn[j]];
    var slot := s.slots[j];
    assert InPhase(slot, t, s.layout);
    var chunk := t[|t| - 1].bytes;
    if env.room > 0 && !Lost(chunk, s.layout) {
      assert slot.buf[..slot.len] == chunk;
      assert env.room < |chunk| ==> chunk[..env.room] == slot.buf[..env.room];
    }
  }

  /** Slot i, the first idle one, holds a connection on cfd with a number never used and an empty log. */
  ghost predicate SettlesAt(s: State, r: State, i: int, cfd: int, now: int)
    requires Table(s) && Table(r) && 0 <= i < MAX_EVENTS
  {
    && !s.Live(i) && (forall k :: 0 <= k < i ==> s.Live(k))
    && r.Live(i) && r.slots[i].fd == cfd && r.slots[i].touched == now
    && r.history.conn[i] !in s.history.log && r.history.log == s.history.log[r.history.conn[i] := []]
  }

  lemma FirstFreeIsFirstIdle(s: State)
    requires Table(s) && Armed(s)
    ensures var i := FirstFree(s.slots, 0); (i < MAX_EVENTS ==> !s.Live(i)) && forall k :: 0 <= k < i ==> s.Live(k)
  {
    forall k | 0 <= k < FirstFree(s.slots, 0)
      ensures s.Live(k)
    {
      assert s.slots[k].status == 0 || s.slots[k].status == 1;
    }
  }

  lemma AdmitOutcome(s: State, i: int, cfd: int, now: int)
    requires Inv(s) && Conversing(s) && 0 <= i < MAX_EVENTS && !s.Live(i) && forall k :: 0 <= k < i ==> s.Live(k)
    ensures var r := Admit(s.(kernel := s.kernel.(open := s.kernel.open + {cfd})), i, cfd, now);
            SettlesAt(s, r, i, cfd, now) && r.kernel.open == s.kernel.open + {cfd}
  {
    assert s.history.admitted !in s.history.log;
  }

  /** acceptconn puts an accepted connection into the first idle client slot; without one, or without
      O_NONBLOCK, the descriptor stays open and is refused. */
  lemma AcceptOutcome(s: State, env: Env)
    requires Inv(s) && Conversing(s) && env.offer >= 0 && env.offer !in s.kernel.open
    ensures var r := AcceptConnection(s, env); var cfd := env.offer;
            && r.kernel.open == s.kernel.open + {cfd}
            && if env.nonblock && exists i :: 0 <= i < 1024 && !s.Live(i) then
                 exists i :: 0 <= i < 1024 && SettlesAt(s, r, i, cfd, env.now)
               else r.slots == s.slots && r.history == s.history.(refused := s.history.refused + {cfd})
  {
    FirstFreeIsFirstIdle(s);
    var i := FirstFree(s.slots, 0);
    if env.nonblock && i < MAX_EVENTS {
      AdmitOutcome(s, i, env.offer, env.now);
    }
  }

  /** An accept that gives no descriptor changes nothing. */
  lemma FailedAcceptChangesNothing(s: State, env: Env)
    requires Table(s) && (env.offer < 0 || env.offer in s.kernel.open)
    ensures AcceptConnection(s, env) == s
  {
  }

  lemma StartConverses(efd: int, lfd: int, now: int, layout: Layout)
    requires efd >= 0 && lfd >= 0 && lfd != efd
    ensures Inv(InitListenSocket(Zeroed(efd, layout), lfd, now)) && Conversing(InitListenSocket(Zeroed(efd, layout), lfd, now))
  {
    StartEstablishesIff(efd, lfd, now, layout);
  }

  // ---------- Streams ----------

  function ReceivedStream(t: seq<Traffic>): string {
    if t == [] then ""
    else ReceivedStream(t[..|t| - 1]) + if t[|t| - 1].Received? then t[|t| - 1].bytes else ""
  }

  function SentStream(t: seq<Traffic>): string {
    if t == [] then ""
    else SentStream(t[..|t| - 1]) + if t[|t| - 1].Sent? then t[|t| - 1].bytes else ""
  }

  /** Every send on the connection took the whole chunk. */
  ghost predicate SendsComplete(t: seq<Traffic>) {
    forall k :: 0 < k < |t| && t[k].Sent? ==> t[k].bytes == t[k - 1].bytes
  }

  /** The chunk received last and not yet answered. */
  function Pending(t: seq<Traffic>): string {
    if t != [] && t[|t| - 1].Received? then t[|t| - 1].bytes else ""
  }

  lemma AlternatesPrefix(t: seq<Traffic>, n: nat, layout: Layout)
    requires Alternates(t, layout) && n <= |t|
    ensures Alternates(t[..n], layout)
  {
    forall k | 0 <= k < n
      ensures ItemOk(t[..n], k, layout)
    {
      assert ItemOk(t, k, layout);
    }
  }

  /** With complete sends, what was sent on a connection is what was received on it, but for the one
      chunk still to be answered. */
  lemma {:induction false} EchoIsExact(t: seq<Traffic>, layout: Layout)
    requires Alternates(t, layout) && SendsComplete(t)
    ensures ReceivedStream(t) == SentStream(t) + Pending(t)
    decreases |t|
  {
    if t != [] {
      var n := |t| - 1;
      AlternatesPrefix(t, n, layout);
      EchoIsExact(t[..n], layout);
      assert ItemOk(t, n, layout);
      if n % 2 == 0 {
        assert n > 0 ==> ItemOk(t, n - 1, layout);
        assert Pending(t[..n]) == "" && SentStream(t) == SentStream(t[..n]);
      } else {
        assert ItemOk(t, n - 1, layout);
        assert Pending(t[..n]) == t[n].bytes && ReceivedStream(t) == ReceivedStream(t[..n]);
      }
    }
  }

  /** The slot of a connection with a pending chunk holds that chunk, ready to be sent unless the NUL has
      wiped out its length. */
  lemma EchoOfLiveConnection(s: State, i: int)
    requires Inv(s) && Conversing(s) && 0 <= i < MAX_EVENTS && s.Live(i)
    ensures s.history.conn[i] in s.history.log
    ensures var t := s.history.log[s.history.conn[i]]; var slot := s.slots[i];
            && (if slot.callBack == SendData then Holds(slot, Pending(t), s.layout) else Pending(t) == "")
            && (SendsComplete(t) ==> ReceivedStream(t) == SentStream(t) + Pending(t))
  {
    var t := s.history.log[s.history.conn[i]];
    assert ArmedAs(s.slots[i], i);
    if t != [] {
      assert ItemOk(t, |t| - 1, s.layout);
    }
    if SendsComplete(t) {
      EchoIsExact(t, s.layout);
    }
  }
}
