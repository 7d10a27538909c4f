/** The server itself: a table of slots updated in place. Each method is proved to take the step the
    state machine describes. */
module ReactorServer {
  import opened Reactor
  import opened ReactorInvariant
  import opened ReactorRuns
  import opened SlotMemory

  class EchoServer {
    const slots: array<Slot>  // g_events
    var kernel: Kernel  // what the operating system keeps for us; kernel.efd is g_efd
    var checkpos: int
    const layout: Layout  // where a byte stored past `buf` ends up on this platform
    ghost var history: History

    ghost function State(): State
      reads this, slots
    {
      Reactor.State(slots[..], kernel, checkpos, history, layout)
    }

    ghost predicate Valid()
      reads this, slots
    {
      slots.Length == MAX_EVENTS + 1 && Table(State())
    }

    /** The table as the program starts, epoll_create having answered efd. */
    constructor (efd: int, layout: Layout)
      ensures Valid() && State() == Zeroed(efd, layout) && fresh(slots)
    {
      this.layout := layout;
      var slot := Slot(0, NO_EVENTS, 0, Null, 0, seq(BUFLEN, _ => '\0'), 0, 0, 0);
      slots := new Slot[MAX_EVENTS + 1](_ => slot);
      kernel := Kernel(efd, if efd >= 0 then {efd} else {}, map[]);
      checkpos := 0;
      history := History(0, seq(MAX_EVENTS + 1, _ => 0), map[], {}, false);
      new;
      assert slots[..] == Zeroed(efd, layout).slots;
    }

    // ---------- event_set, event_add, event_del ----------

    method SetEvent(i: int, fd: int, callBack: Callback, arg: int, now: int)
      requires Valid() && 0 <= i <= MAX_EVENTS
      modifies slots
      ensures Valid()
      ensures slots[i] == Slot(fd, Mask(false, false), arg, callBack, 0, old(slots[i].buf), old(slots[i].len), Int32(now), now)
      ensures State() == old(State()).(slots := old(slots[..])[i := EventSet(old(slots[i]), fd, callBack, arg, now)])
    {
      slots[i] := slots[i].(fd := fd);
      slots[i] := slots[i].(callBack := callBack);
      slots[i] := slots[i].(arg := arg);
      slots[i] := slots[i].(status := 0);
      slots[i] := slots[i].(lastActive := Int32(now), touched := now);
      slots[i] := slots[i].(events := NO_EVENTS);
    }

    method AddEvent(events: Mask, i: int)
      requires Valid() && 0 <= i <= MAX_EVENTS
      modifies slots, this`kernel
      ensures Valid() && State() == EventAdd(old(State()), events, i)
    {
      slots[i] := slots[i].(events := events);
      var op;
      if slots[i].status == 1 {
        op := CtlMod;
      } else {
        op := CtlAdd;
        slots[i] := slots[i].(status := 1);
      }
      kernel := kernel.EpollCtl(op, slots[i].fd, Interest(events, i));
    }

    method DelEvent(i: int)
      requires Valid() && 0 <= i <= MAX_EVENTS
      modifies slots, this`kernel
      ensures Valid() && State() == EventDel(old(State()), i)
    {
      if slots[i].status != 1 {
        return;
      }
      slots[i] := slots[i].(status := 0);
      kernel := kernel.EpollCtl(CtlDel, slots[i].fd, Interest(slots[i].events, i));
    }

    // ---------- The callbacks ----------

    /** The loop of acceptconn, counting in the variable tested behind it. */
    method SearchFree() returns (i: int)
      requires Valid()
      ensures i == FirstFree(slots[..], 0)
    {
      i := 0;
      while i < MAX_EVENTS
        invariant 0 <= i <= MAX_EVENTS
        invariant FirstFree(slots[..], i) == FirstFree(slots[..], 0)
        decreases MAX_EVENTS - i
      {
        if slots[i].status == 0 {
          break;
        }
        i := i + 1;
      }
    }

    method AcceptConnection(env: Env)
      requires Valid()
      modifies slots, this`kernel, this`history
      ensures Valid() && State() == Reactor.AcceptConnection(old(State()), env)
    {
      var cfd := kernel.Accepts(env.offer);
      if cfd == -1 {
        return;
      }
      kernel := kernel.(open := kernel.open + {cfd});
      var i := SearchFree();
      if i == MAX_EVENTS || !env.nonblock {
        history := history.(refused := history.refused + {cfd});
        return;
      }
      Install(i, cfd, env.now);
    }

    /** The two calls that end acceptconn. */
    method Install(i: int, cfd: int, now: int)
      requires Valid() && 0 <= i < MAX_EVENTS
      modifies slots, this`kernel, this`history
      ensures Valid() && State() == Admit(old(State()), i, cfd, now)
    {
      history := history.(admitted := history.admitted + 1, conn := history.conn[i := history.admitted],
                          log := history.log[history.admitted := []]);
      SetEvent(i, cfd, RecvData, i, now);
      AddEvent(EPOLLIN, i);
    }

    /** `ev->buf[len] = '\0'`, a store of one byte of the slot's memory wherever it falls. Repaired, the
        program leaves out the one that falls outside `buf`. */
    method StoreNul(j: int, n: int)
      requires slots.Length == MAX_EVENTS + 1 && 0 <= j <= MAX_EVENTS
      requires |slots[j].buf| == BUFLEN && slots[j].len == n && 0 < n <= BUFLEN
      modifies slots
      ensures slots[..] == old(slots[..])[j := EndString(old(slots[j]), n, layout)]
    {
      if layout != NulDropped {
        EndStringIsTheStore(slots[j], n, layout);
        slots[j] := StoreByte(slots[j], n, '\0', layout);
      } else if n < BUFLEN {
        slots[j] := slots[j].(buf := slots[j].buf[n := '\0']);
      }
    }

    method Receive(fd: int, j: int, env: Env)
      requires Valid() && 0 <= j <= MAX_EVENTS
      modifies slots, this`kernel, this`history
      ensures Valid() && State() == Reactor.Receive(old(State()), fd, j, env)
    {
      var n := if env.incoming.None? then -1 else Min(|env.incoming.value|, BUFLEN);
      if n > 0 {
        slots[j] := slots[j].(buf := env.incoming.value[..n] + slots[j].buf[n..]);
      }
      DelEvent(j);
      if n > 0 {
        history := history.(log := Note(history.log, history.conn[j], Received(env.incoming.value[..n])),
                            overran := history.overran || n == BUFLEN);
        slots[j] := slots[j].(len := n);
        StoreNul(j, n);
        SetEvent(j, fd, SendData, j, env.now);
        AddEvent(EPOLLOUT, j);
      } else {
        kernel := kernel.Close(slots[j].fd);
      }
    }

    method Send(fd: int, j: int, env: Env)
      requires Valid() && 0 <= j <= MAX_EVENTS
      modifies slots, this`kernel, this`history
      ensures Valid() && State() == Reactor.Send(old(State()), fd, j, env)
    {
      var n := if env.room < 0 then -1 else Min(env.room, slots[j].len);
      DelEvent(j);
      if n > 0 {
        history := history.(log := Note(history.log, history.conn[j], Sent(slots[j].buf[..n])));
        SetEvent(j, fd, RecvData, j, env.now);
        AddEvent(EPOLLIN, j);
      } else {
        kernel := kernel.Close(slots[j].fd);
      }
    }

    method CallBack(i: int, env: Env)
      requires Valid() && 0 <= i <= MAX_EVENTS
      requires slots[i].callBack != Null && 0 <= slots[i].arg <= MAX_EVENTS
      modifies slots, this`kernel, this`history
      ensures Valid() && State() == Call(old(State()), i, env)
    {
      match slots[i].callBack
      case AcceptConn => AcceptConnection(env);
      case RecvData => Receive(slots[i].fd, slots[i].arg, env);
      case SendData => Send(slots[i].fd, slots[i].arg, env);
    }

    /** initlistensocket, socket having answered lfd. */
    method InitListen(lfd: int, now: int)
      requires Valid()
      modifies slots, this`kernel
      ensures Valid() && State() == InitListenSocket(old(State()), lfd, now)
    {
      if lfd >= 0 {
        kernel := kernel.(open := kernel.open + {lfd});
      }
      SetEvent(LISTENER, lfd, AcceptConn, LISTENER, now);
      AddEvent(EPOLLIN, LISTENER);
    }

    // ---------- main ----------

    /** The for loop that looks for idle slots. */
    method SweepLoop(now: int)
      requires Valid() && 0 <= checkpos <= MAX_EVENTS
      modifies slots, this`kernel, this`checkpos
      ensures Valid() && State() == Sweep(old(State()), now, 100)
    {
      var i := 0;
      while i < 100
        invariant 0 <= i <= 100 && Valid() && 0 <= checkpos <= MAX_EVENTS
        invariant State() == Sweep(old(State()), now, i)
      {
        StepLoop(now);
        i := i + 1;
      }
    }

    method StepLoop(now: int)
      requires Valid() && 0 <= checkpos <= MAX_EVENTS
      modifies slots, this`kernel, this`checkpos
      ensures Valid() && State() == SweepStep(old(State()), now)
    {
      if checkpos == MAX_EVENTS {
        checkpos := 0;
      }
      if slots[checkpos].status == 1 {
        var duration := now - slots[checkpos].lastActive;
        if 60 <= duration {
          kernel := kernel.Close(slots[checkpos].fd);
          DelEvent(checkpos);
        }
      }
      checkpos := checkpos + 1;
    }

    /** The for loop over the entries epoll_wait has filled in, from a state s of a started server. */
    method DispatchLoop(batch: seq<Ready>, envs: seq<(Env, Env)>, ghost s: Server)
      requires Valid() && State() == s
      requires IsBatch(s, batch) && |envs| == |batch|
      modifies slots, this`kernel, this`history
      ensures Valid() && State() == Dispatch(s, batch, envs, |batch|)
    {
      var i := 0;
      while i < |batch|
        invariant 0 <= i <= |batch| && Valid()
        invariant State() == Dispatch(s, batch, envs, i)
      {
        DispatchIth(batch, envs, i, s);
        i := i + 1;
      }
    }

    method DispatchIth(batch: seq<Ready>, envs: seq<(Env, Env)>, i: nat, ghost s: Server)
      requires Valid() && IsBatch(s, batch) && |envs| == |batch| && i < |batch|
      requires State() == Dispatch(s, batch, envs, i)
      modifies slots, this`kernel, this`history
      ensures Valid() && State() == Dispatch(s, batch, envs, i + 1)
    {
      DispatchNext(s, batch, envs, i);
      DispatchEntry(batch[i], envs[i], Dispatch(s, batch, envs, i));
    }

    /** One round of the endless loop, epoll_wait having answered with batch. */
    method OneRound(now: int, batch: seq<Ready>, envs: seq<(Env, Env)>, ghost s: Server)
      requires Valid() && State() == s && CanRound(s, Round(now, batch, envs))
      modifies slots, this
      ensures Valid() && State() == DoRound(s, Round(now, batch, envs))
    {
      SweepLoop(now);
      DispatchLoop(batch, envs, Swept(s, now));
    }

    method DispatchEntry(r: Ready, envs: (Env, Env), ghost s: Server)
      requires Valid() && State() == s
      requires 0 <= r.slot <= MAX_EVENTS && s.Live(r.slot)
      modifies slots, this`kernel, this`history
      ensures Valid() && State() == Entry(s, r, envs)
    {
      var ev := r.slot;
      ghost var s1 := First(s, r, envs.0);
      if r.events.rd && slots[ev].events.rd {
        CallKeeps(s, ev, envs.0);
        CallBack(ev, envs.0);
      }
      assert State() == s1;
      if r.events.wr && slots[ev].events.wr {
        CallKeeps(s1, ev, envs.1);
        CallBack(ev, envs.1);
      }
    }
  }
}
