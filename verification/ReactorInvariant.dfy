/** What every function of the server keeps: the kernel's interest map and the slot table agree, every
    live slot is armed with the callback its mask calls for, and no descriptor is lost track of. */
module ReactorInvariant {
  import opened Options
  import opened Reactor

  /** A slot is live exactly when its descriptor is registered, with its mask and its own position. */
  ghost predicate Agrees(s: State)
    requires Table(s)
  {
    && (forall i :: 0 <= i <= MAX_EVENTS && s.Live(i) ==>
          s.slots[i].fd in s.kernel.interest &&
          s.kernel.interest[s.slots[i].fd] == Interest(s.slots[i].events, i))
    && (forall fd :: fd in s.kernel.interest ==>
          var i := s.kernel.interest[fd].slot; 0 <= i <= MAX_EVENTS && s.Live(i) && s.slots[i].fd == fd)
  }

  predicate ArmedAs(slot: Slot, i: int) {
    slot.arg == i &&
    if i == LISTENER then slot.events == EPOLLIN && slot.callBack == AcceptConn
    else (slot.events == EPOLLIN && slot.callBack == RecvData) || (slot.events == EPOLLOUT && slot.callBack == SendData)
  }

  ghost predicate Armed(s: State)
    requires Table(s)
  {
    && s.Live(LISTENER)
    && forall i :: 0 <= i <= MAX_EVENTS ==>
         (s.slots[i].status == 0 || s.slots[i].status == 1) && (s.Live(i) ==> ArmedAs(s.slots[i], i))
  }

  /** Every open descriptor is the epoll instance, registered, refused, or one of `loose`, and only one of these. */
  ghost predicate Accounted(s: State, loose: set<int>) {
    var k := s.kernel;
    && k.open == {k.efd} + k.interest.Keys + s.history.refused + loose
    && k.efd !in k.interest && k.efd !in s.history.refused && k.efd !in loose
    && k.interest.Keys !! s.history.refused && k.interest.Keys !! loose && s.history.refused !! loose
  }

  /** The invariant, but for some descriptors between two owners. */
  ghost predicate Core(s: State, loose: set<int>) {
    Table(s) && 0 <= s.checkpos <= MAX_EVENTS && Agrees(s) && Armed(s) && Accounted(s, loose)
  }

  ghost predicate Inv(s: State) {
    Core(s, {})
  }

  /** `slot` and its connection are the same in both states. */
  ghost predicate Same(s: State, r: State, slot: int)
    requires Table(s) && Table(r) && 0 <= slot <= MAX_EVENTS
  {
    r.slots[slot] == s.slots[slot] && r.history.conn[slot] == s.history.conn[slot]
  }

  /** Of the live slots, a callback on slot i leaves all others alone, and one on the listener itself too. */
  ghost predicate SparesOthers(s: State, r: State, i: int)
    requires Table(s) && Table(r)
  {
    && r.checkpos == s.checkpos && r.layout == s.layout && r.kernel.efd == s.kernel.efd
    && (s.history.overran ==> r.history.overran)
    && forall j {:trigger s.slots[j]} {:trigger r.slots[j]} ::
         0 <= j <= MAX_EVENTS && s.slots[j].status == 1 && (j != i || j == LISTENER) ==>
         r.slots[j] == s.slots[j] && r.history.conn[j] == s.history.conn[j]
  }

  // ---------- What follows from it ----------

  /** Live slots hold pairwise distinct open descriptors. */
  lemma LiveDescriptorsAreDistinct(s: State, i: int, j: int)
    requires Inv(s) && 0 <= i < j <= MAX_EVENTS && s.Live(i) && s.Live(j)
    ensures s.slots[i].fd != s.slots[j].fd
    ensures s.slots[i].fd in s.kernel.open && s.slots[i].fd != s.kernel.efd
  {
  }

  /** event_add always picks the operation the kernel carries out: MOD for a live slot, ADD for an idle
      slot given an open descriptor nobody holds. */
  lemma EventAddIsLegal(s: State, i: int, fd: int)
    requires Core(s, {fd}) && 0 <= i <= MAX_EVENTS
    ensures s.Live(i) ==> s.kernel.Legal(CtlMod, s.slots[i].fd) && !s.kernel.Legal(CtlAdd, s.slots[i].fd)
    ensures !s.Live(i) ==> s.kernel.Legal(CtlAdd, fd) && !s.kernel.Legal(CtlMod, fd)
  {
  }

  // ---------- Steps ----------

  /** Taking a live client slot out of the interest map leaves its descriptor loose. */
  lemma EventDelLoosens(s: State, i: int)
    requires Inv(s) && 0 <= i < MAX_EVENTS && s.Live(i)
    ensures Core(EventDel(s, i), {s.slots[i].fd}) && !EventDel(s, i).Live(i)
    ensures EventDel(s, i).kernel == s.kernel.(interest := s.kernel.interest - {s.slots[i].fd})
  {
    var r := EventDel(s, i);
    var fd := s.slots[i].fd;
    forall f | f in r.kernel.interest
      ensures var j := r.kernel.interest[f].slot; 0 <= j <= MAX_EVENTS && r.Live(j) && r.slots[j].fd == f
    {
      assert f in s.kernel.interest;
    }
    forall j | 0 <= j <= MAX_EVENTS && r.Live(j)
      ensures r.slots[j].fd in r.kernel.interest && r.kernel.interest[r.slots[j].fd] == Interest(r.slots[j].events, j)
    {
      assert j != i && s.Live(j);
    }
  }

  /** A loose descriptor is settled by closing it. */
  lemma CloseSettles(s: State, fd: int)
    requires Core(s, {fd})
    ensures Inv(s.(kernel := s.kernel.Close(fd)))
  {
    assert s.kernel.interest - {fd} == s.kernel.interest;
  }

  /** Or by forgetting it. */
  lemma RefuseSettles(s: State, fd: int)
    requires Core(s, {fd})
    ensures Inv(Refuse(s, fd))
  {
  }

  /** Or by arming an idle client slot with it. */
  lemma RearmSettles(s: State, i: int, slot: Slot, events: Mask)
    requires Core(s, {slot.fd}) && 0 <= i < MAX_EVENTS && !s.Live(i)
    requires Sane(slot) && slot.status == 0 && ArmedAs(slot.(events := events), i)
    ensures Inv(EventAdd(s.(slots := s.slots[i := slot]), events, i))
  {
    var r := EventAdd(s.(slots := s.slots[i := slot]), events, i);
    assert r.kernel == s.kernel.(interest := s.kernel.interest[slot.fd := Interest(events, i)]);
    forall j | 0 <= j <= MAX_EVENTS && r.Live(j)
      ensures r.slots[j].fd in r.kernel.interest && r.kernel.interest[r.slots[j].fd] == Interest(r.slots[j].events, j)
    {
      assert j != i ==> s.Live(j);
    }
    forall f | f in r.kernel.interest
      ensures var j := r.kernel.interest[f].slot; 0 <= j <= MAX_EVENTS && r.Live(j) && r.slots[j].fd == f
    {
      assert f != slot.fd ==> f in s.kernel.interest;
    }
  }

  // ---------- acceptconn ----------

  lemma AcceptOpens(s: State, env: Env)
    requires Inv(s) && s.kernel.Accepts(env.offer) != -1
    ensures Core(s.(kernel := s.kernel.(open := s.kernel.open + {env.offer})), {env.offer})
    ensures env.offer !in s.kernel.open
  {
  }

  lemma AdmitKeeps(s: State, i: int, cfd: int, now: int)
    requires Core(s, {cfd}) && 0 <= i < MAX_EVENTS && !s.Live(i)
    ensures Inv(Admit(s, i, cfd, now))
  {
    var c := s.history.admitted;
    var h := s.history.(admitted := c + 1, conn := s.history.conn[i := c], log := s.history.log[c := []]);
    var s1 := s.(history := h);
    assert Core(s1, {cfd});
    RearmSettles(s1, i, EventSet(s.slots[i], cfd, RecvData, i, now), EPOLLIN);
  }

  /** Admitted over a live slot, a connection leaves that slot's former descriptor registered with a slot
      that no longer holds it. */
  lemma AdmitOverLiveBreaks(s: State, i: int, cfd: int, now: int)
    requires Core(s, {cfd}) && 0 <= i < MAX_EVENTS && s.Live(i)
    ensures !Inv(Admit(s, i, cfd, now))
  {
    var r := Admit(s, i, cfd, now);
    var was := s.slots[i].fd;
    assert was in s.kernel.interest && s.kernel.interest[was].slot == i;
    assert was != cfd;
    assert r.kernel.interest == s.kernel.interest[cfd := Interest(EPOLLIN, i)];
    assert r.slots[i].fd == cfd && was in r.kernel.interest && r.kernel.interest[was].slot == i;
  }

  /** acceptconn with its outer variable unset: whatever value i that variable has, the server survives
      exactly when nothing is accepted, the table is taken to be full, or i is a client slot that is
      either idle or not used after all. */
  lemma AcceptAtKeepsIff(s: State, env: Env, i: int)
    requires Inv(s)
    ensures (AcceptConnAt(s, env, i).Some? && Inv(AcceptConnAt(s, env, i).value)) <==>
            s.kernel.Accepts(env.offer) == -1 || i == MAX_EVENTS ||
            (0 <= i < MAX_EVENTS && (!env.nonblock || !s.Live(i)))
  {
    var cfd := s.kernel.Accepts(env.offer);
    if cfd != -1 {
      AcceptOpens(s, env);
      var s1 := s.(kernel := s.kernel.(open := s.kernel.open + {cfd}));
      RefuseSettles(s1, cfd);
      if 0 <= i < MAX_EVENTS && env.nonblock {
        if s.Live(i) {
          AdmitOverLiveBreaks(s1, i, cfd, env.now);
        } else {
          AdmitKeeps(s1, i, cfd, env.now);
        }
      }
    }
  }

  /** And it does what it does with the variable set, putting the connection where it belongs, exactly
      when nothing is accepted, the variable happens to be the first idle slot (1024 if there is none),
      or fcntl fails and it is at least a position of the table. */
  lemma AcceptAtMeetsIff(s: State, env: Env, i: int)
    requires Inv(s)
    ensures AcceptConnAt(s, env, i) == Some(AcceptConnection(s, env)) <==>
            s.kernel.Accepts(env.offer) == -1 || i == FirstFree(s.slots, 0) || (!env.nonblock && 0 <= i <= MAX_EVENTS)
  {
    var cfd := s.kernel.Accepts(env.offer);
    if cfd != -1 {
      AcceptOpens(s, env);
      var s1 := s.(kernel := s.kernel.(open := s.kernel.open + {cfd}));
      var f := FirstFree(s.slots, 0);
      var o := AcceptConnAt(s, env, f);
      if env.nonblock && 0 <= i <= MAX_EVENTS && i != f {
        LandsAt(s1, cfd, env.now, i);
        LandsAt(s1, cfd, env.now, f);
        assert AcceptConnAt(s, env, i).value.kernel.interest != o.value.kernel.interest;
      }
    }
  }

  /** Where acceptconn puts a descriptor can be read off the kernel's interest map. */
  lemma LandsAt(s: State, cfd: int, now: int, i: int)
    requires Core(s, {cfd}) && 0 <= i <= MAX_EVENTS
    ensures cfd !in Refuse(s, cfd).kernel.interest
    ensures i < MAX_EVENTS ==>
              cfd in Admit(s, i, cfd, now).kernel.interest && Admit(s, i, cfd, now).kernel.interest[cfd].slot == i
  {
  }

  /** A freshly started server refuses its first connection, all 1024 client slots being idle, when the
      variable happens to be 1024. The invariant is kept. */
  lemma AcceptAtRefusesWithRoom(now: int)
    ensures var s := InitListenSocket(Zeroed(3, NulDropped), 4, now); var env := Env(5, true, None, 0, now);
            && Inv(s) && (forall j :: 0 <= j < MAX_EVENTS ==> !s.Live(j))
            && AcceptConnAt(s, env, MAX_EVENTS) == Some(Refuse(s.(kernel := s.kernel.(open := s.kernel.open + {5})), 5))
            && AcceptConnection(s, env).slots[0].fd == 5 && AcceptConnection(s, env).Live(0)
  {
    StartEstablishesIff(3, 4, now, NulDropped);
  }

  /** A freshly started server leaves its table when the variable happens to be -1. */
  lemma AcceptAtFails(now: int)
    ensures var s := InitListenSocket(Zeroed(3, NulDropped), 4, now);
            Inv(s) && AcceptConnAt(s, Env(5, true, None, 0, now), -1) == None
  {
    StartEstablishesIff(3, 4, now, NulDropped);
  }

  lemma AcceptSpares(s: State, env: Env)
    requires Table(s)
    ensures SparesOthers(s, AcceptConnection(s, env), LISTENER)
  {
  }

  /** With the search in place acceptconn keeps the invariant, and touches at most one slot: the first
      idle one. */
  lemma AcceptKeeps(s: State, env: Env)
    requires Inv(s)
    ensures Inv(AcceptConnection(s, env))
    ensures SparesOthers(s, AcceptConnection(s, env), LISTENER)
  {
    AcceptAtKeepsIff(s, env, FirstFree(s.slots, 0));
    AcceptSpares(s, env);
  }

  // ---------- recvdata and senddata ----------

  lemma ReceiveKeeps(s: State, j: int, env: Env)
    requires Inv(s) && 0 <= j < MAX_EVENTS && s.Live(j)
    ensures Inv(Receive(s, s.slots[j].fd, j, env))
  {
    var fd := s.slots[j].fd;
    var n := if env.incoming.None? then -1 else Min(|env.incoming.value|, BUFLEN);
    if n > 0 {
      var chunk := env.incoming.value[..n];
      var read := s.(slots := s.slots[j := s.slots[j].(buf := chunk + s.slots[j].buf[n..])]);
      assert Inv(read);
      EventDelLoosens(read, j);
      var idle := EventDel(read, j);
      var slot := idle.slots[j].(len := n);
      var ended := EndString(slot, n, s.layout);
      var h := idle.history;
      var s1 := idle.(history := h.(log := Note(h.log, h.conn[j], Received(chunk)), overran := h.overran || n == BUFLEN));
      assert Core(s1, {fd});
      RearmSettles(s1, j, EventSet(ended, fd, SendData, j, env.now), EPOLLOUT);
    } else {
      EventDelLoosens(s, j);
      CloseSettles(EventDel(s, j), fd);
    }
  }

  lemma SendKeeps(s: State, j: int, env: Env)
    requires Inv(s) && 0 <= j < MAX_EVENTS && s.Live(j)
    ensures Inv(Send(s, s.slots[j].fd, j, env))
  {
    var fd := s.slots[j].fd;
    var n := if env.room < 0 then -1 else Min(env.room, s.slots[j].len);
    EventDelLoosens(s, j);
    var idle := EventDel(s, j);
    if n > 0 {
      var h := idle.history;
      var s1 := idle.(history := h.(log := Note(h.log, h.conn[j], Sent(s.slots[j].buf[..n]))));
      assert Core(s1, {fd});
      RearmSettles(s1, j, EventSet(idle.slots[j], fd, RecvData, j, env.now), EPOLLIN);
    } else {
      CloseSettles(idle, fd);
    }
  }

  /** A callback is run on its own slot, and leaves every other live slot and its connection alone. */
  lemma CallKeeps(s: State, i: int, env: Env)
    requires Inv(s) && 0 <= i <= MAX_EVENTS && s.Live(i)
    ensures s.slots[i].callBack != Null && s.slots[i].arg == i
    ensures Inv(Call(s, i, env))
    ensures SparesOthers(s, Call(s, i, env), i)
  {
    assert ArmedAs(s.slots[i], i);
    match s.slots[i].callBack
    case AcceptConn => AcceptKeeps(s, env);
    case RecvData => ReceiveKeeps(s, i, env);
    case SendData => SendKeeps(s, i, env);
  }

  // ---------- The sweep ----------

  /** The sweep closes first and leaves the interest map afterwards; the outcome is the same. */
  lemma CloseThenDel(s: State, i: int)
    requires Inv(s) && 0 <= i < MAX_EVENTS && s.Live(i)
    ensures var fd := s.slots[i].fd; var del := EventDel(s, i);
            EventDel(s.(kernel := s.kernel.Close(fd)), i) == del.(kernel := del.kernel.Close(fd))
  {
    var fd := s.slots[i].fd;
    assert s.kernel.interest - {fd} - {fd} == s.kernel.interest - {fd};
  }

  lemma SweepStepKeeps(s: State, now: int)
    requires Inv(s)
    ensures Inv(SweepStep(s, now))
  {
    var c := Cursor(s);
    if s.Live(c) && now - s.slots[c].lastActive >= 60 {
      CloseThenDel(s, c);
      EventDelLoosens(s, c);
      CloseSettles(EventDel(s, c), s.slots[c].fd);
    }
  }

  lemma {:induction false} SweepKeeps(s: State, now: int, steps: nat)
    requires Inv(s)
    ensures Inv(Sweep(s, now, steps))
  {
    if steps > 0 {
      SweepKeeps(s, now, steps - 1);
      SweepStepKeeps(Sweep(s, now, steps - 1), now);
    }
  }

  // ---------- Starting up ----------

  /** The zeroed table and the answer of epoll_create, negative for an error. */
  function Zeroed(efd: int, layout: Layout): (s: State)
    ensures Table(s)
  {
    var slot := Slot(0, NO_EVENTS, 0, Null, 0, seq(BUFLEN, _ => '\0'), 0, 0, 0);
    State(seq(MAX_EVENTS + 1, _ => slot), Kernel(efd, if efd >= 0 then {efd} else {}, map[]), 0,
          History(0, seq(MAX_EVENTS + 1, _ => 0), map[], {}, false), layout)
  }

  /** initlistensocket, socket having answered lfd. What bind and listen answer is not looked at. */
  function InitListenSocket(s: State, lfd: int, now: int): (r: State)
    requires Table(s)
    ensures Table(r)
  {
    var k := if lfd >= 0 then s.kernel.(open := s.kernel.open + {lfd}) else s.kernel;
    EventAdd(s.(kernel := k, slots := s.slots[LISTENER := EventSet(s.slots[LISTENER], lfd, AcceptConn, LISTENER, now)]),
             EPOLLIN, LISTENER)
  }

  /** Neither answer is checked before it is used: the invariant is established exactly when both calls
      have given a descriptor. */
  lemma StartEstablishesIff(efd: int, lfd: int, now: int, layout: Layout)
    requires efd < 0 || lfd != efd
    ensures Inv(InitListenSocket(Zeroed(efd, layout), lfd, now)) <==> efd >= 0 && lfd >= 0
  {
    var r := InitListenSocket(Zeroed(efd, layout), lfd, now);
    assert r.Live(LISTENER) && r.slots[LISTENER].fd == lfd;
    if efd >= 0 && lfd >= 0 {
      assert r.kernel == Kernel(efd, {efd, lfd}, map[lfd := Interest(EPOLLIN, LISTENER)]);
    } else {
      assert r.kernel.interest == map[];
    }
  }
}
