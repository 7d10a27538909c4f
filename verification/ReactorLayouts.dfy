/** What the NUL behind a full read does to whole runs: where it falls into the low byte of `len` it ends
    the conversation, and a run in which no read fills the buffer does not depend on where it falls. */
module ReactorLayouts {
  import opened Reactor
  import opened ReactorInvariant
  import opened ReactorEcho
  import opened ReactorRuns

  lemma FullChunkIsLast(t: seq<Traffic>, k: nat)
    requires Alternates(t, LowByteFirst) && k < |t| && t[k].Received? && |t[k].bytes| == BUFLEN
    ensures k == |t| - 1
  {
    assert ItemOk(t, k, LowByteFirst);
    assert k + 1 < |t| ==> ItemOk(t, k + 1, LowByteFirst);
  }

  /** With the low byte first, in every run, a chunk that fills the buffer is the last thing ever to go over
      its connection: the server never answers it. */
  lemma {:induction false} FullReadIsNeverEchoed(s: Server, rounds: seq<Round>, c: nat, k: nat)
    requires CanRun(s, rounds) && c in Run(s, rounds).history.log
    requires var t := Run(s, rounds).history.log[c]; k < |t| && t[k].Received? && |t[k].bytes| == BUFLEN
    requires Run(s, rounds).layout == LowByteFirst
    ensures k == |Run(s, rounds).history.log[c]| - 1
  {
    FullChunkIsLast(Run(s, rounds).history.log[c], k);
  }

  // ---------- Two layouts side by side ----------

  function Laid(s: State, l: Layout): State {
    s.(layout := l)
  }

  /** The NUL of a full read changes something in layout l. */
  predicate Hurts(l: Layout, s: State) {
    l == LowByteFirst && s.history.overran
  }

  lemma ReceiveLaid(s: State, l: Layout, fd: int, j: int, env: Env)
    requires Table(s) && 0 <= j <= MAX_EVENTS && s.layout == NulDropped && !Hurts(l, s)
    ensures var a := Receive(s, fd, j, env); var b := Receive(Laid(s, l), fd, j, env);
            if Hurts(l, a) then a.slots[j].len != b.slots[j].len else b == Laid(a, l)
  {
  }

  lemma SendLaid(s: State, l: Layout, fd: int, j: int, env: Env)
    requires Table(s) && 0 <= j <= MAX_EVENTS
    ensures Send(Laid(s, l), fd, j, env) == Laid(Send(s, fd, j, env), l)
    ensures Send(s, fd, j, env).slots[j].len == s.slots[j].len
    ensures Send(s, fd, j, env).history.overran == s.history.overran
  {
  }

  lemma AcceptLaid(s: State, l: Layout, env: Env)
    requires Table(s)
    ensures AcceptConnection(Laid(s, l), env) == Laid(AcceptConnection(s, env), l)
    ensures AcceptConnection(s, env).history.overran == s.history.overran
  {
  }

  lemma SweepStepLaid(s: State, l: Layout, now: int)
    requires Table(s) && 0 <= s.checkpos <= MAX_EVENTS
    ensures SweepStep(Laid(s, l), now) == Laid(SweepStep(s, now), l)
    ensures SweepStep(s, now).history == s.history && SweepStep(s, now).layout == s.layout
  {
  }

  lemma {:induction false} SweepLaid(s: State, l: Layout, now: int, steps: nat)
    requires Table(s) && 0 <= s.checkpos <= MAX_EVENTS
    ensures Sweep(Laid(s, l), now, steps) == Laid(Sweep(s, now, steps), l)
    ensures Sweep(s, now, steps).history == s.history && Sweep(s, now, steps).layout == s.layout
  {
    if steps > 0 {
      SweepLaid(s, l, now, steps - 1);
      SweepStepLaid(Sweep(s, now, steps - 1), l, now);
    }
  }

  lemma FirstLaid(s: Server, t: Server, l: Layout, r: Ready, env: Env)
    requires 0 <= r.slot <= MAX_EVENTS && s.Live(r.slot)
    requires s.layout == NulDropped && !Hurts(l, s) && t == Laid(s, l)
    ensures var a := First(s, r, env); var b := First(t, r, env);
            if Hurts(l, a) then a.slots[r.slot].len != b.slots[r.slot].len else b == Laid(a, l)
  {
    var slot := s.slots[r.slot];
    assert ArmedAs(slot, r.slot);
    if FirstFires(s, r) {
      match slot.callBack
      case AcceptConn => AcceptLaid(s, l, env);
      case RecvData => ReceiveLaid(s, l, slot.fd, r.slot, env);
      case SendData => SendLaid(s, l, slot.fd, r.slot, env);
    }
  }

  /** The second test of an entry can only run senddata. */
  lemma SecondSends(s: Server, r: Ready, env: Env)
    requires 0 <= r.slot <= MAX_EVENTS && s.Live(r.slot) && SecondFires(s, r)
    ensures s.slots[r.slot].callBack == SendData && s.slots[r.slot].arg == r.slot
    ensures Call(s, r.slot, env) == Send(s, s.slots[r.slot].fd, r.slot, env)
  {
    assert ArmedAs(s.slots[r.slot], r.slot);
  }

  /** It leaves the slot's length alone. */
  lemma EntryEndsAsFirst(s: Server, r: Ready, envs: (Env, Env))
    requires 0 <= r.slot <= MAX_EVENTS && s.Live(r.slot)
    ensures Entry(s, r, envs).slots[r.slot].len == First(s, r, envs.0).slots[r.slot].len
    ensures Entry(s, r, envs).history.overran == First(s, r, envs.0).history.overran
  {
    var s1 := First(s, r, envs.0);
    if SecondFires(s1, r) {
      SecondSends(s1, r, envs.1);
      SendLaid(s1, s1.layout, s1.slots[r.slot].fd, r.slot, envs.1);
    }
  }

  lemma SecondLaid(s: Server, t: Server, l: Layout, r: Ready, envs: (Env, Env))
    requires 0 <= r.slot <= MAX_EVENTS && s.Live(r.slot) && t.Live(r.slot)
    requires First(t, r, envs.0) == Laid(First(s, r, envs.0), l)
    ensures Entry(t, r, envs) == Laid(Entry(s, r, envs), l)
  {
    var s1 := First(s, r, envs.0);
    var t1 := First(t, r, envs.0);
    if SecondFires(s1, r) {
      SecondSends(s1, r, envs.1);
      SecondSends(t1, r, envs.1);
      SendLaid(s1, l, s1.slots[r.slot].fd, r.slot, envs.1);
    }
  }

  lemma EntryLaid(s: Server, t: Server, l: Layout, r: Ready, envs: (Env, Env))
    requires 0 <= r.slot <= MAX_EVENTS && s.Live(r.slot)
    requires s.layout == NulDropped && !Hurts(l, s) && t == Laid(s, l)
    ensures var a := Entry(s, r, envs); var b := Entry(t, r, envs);
            if Hurts(l, a) then a.slots[r.slot].len != b.slots[r.slot].len else b == Laid(a, l)
  {
    FirstLaid(s, t, l, r, envs.0);
    EntryEndsAsFirst(s, r, envs);
    EntryEndsAsFirst(t, r, envs);
    if !Hurts(l, First(s, r, envs.0)) {
      SecondLaid(s, t, l, r, envs);
    }
  }

  /** Entries for other slots leave a slot's length alone, also when acceptconn fills it again. */
  lemma EntryKeepsLength(s: Server, r: Ready, envs: (Env, Env), j: int)
    requires 0 <= r.slot <= MAX_EVENTS && s.Live(r.slot) && 0 <= j <= MAX_EVENTS && j != r.slot
    ensures Entry(s, r, envs).slots[j].len == s.slots[j].len
    ensures s.history.overran ==> Entry(s, r, envs).history.overran
  {
    FirstKeepsLength(s, r, envs.0, j);
    var s1 := First(s, r, envs.0);
    if SecondFires(s1, r) {
      SecondSends(s1, r, envs.1);
    }
  }

  lemma FirstKeepsLength(s: Server, r: Ready, env: Env, j: int)
    requires 0 <= r.slot <= MAX_EVENTS && s.Live(r.slot) && 0 <= j <= MAX_EVENTS && j != r.slot
    ensures First(s, r, env).slots[j].len == s.slots[j].len
    ensures s.history.overran ==> First(s, r, env).history.overran
  {
    assert ArmedAs(s.slots[r.slot], r.slot);
  }

  /** Two states of the same server under two layouts after k entries: the same, or, a full read among
      the entries having hurt, different in the length of a slot that had its entry. */
  ghost predicate Compare(a: State, b: State, l: Layout, batch: seq<Ready>, k: nat)
    requires Table(a) && Table(b) && k <= |batch| && forall m :: 0 <= m < k ==> 0 <= batch[m].slot <= MAX_EVENTS
  {
    if !Hurts(l, a) then b == Laid(a, l)
    else
      k > 0 && (a.slots[batch[k - 1].slot].len != b.slots[batch[k - 1].slot].len || Compare(a, b, l, batch, k - 1))
  }

  lemma {:induction false} CompareLater(a: Server, b: Server, l: Layout, batch: seq<Ready>, envs: (Env, Env), k: nat, m: nat)
    requires m <= k < |batch| && 0 <= batch[k].slot <= MAX_EVENTS && a.Live(batch[k].slot) && b.Live(batch[k].slot)
    requires forall i :: 0 <= i < k ==> 0 <= batch[i].slot <= MAX_EVENTS && batch[i].slot != batch[k].slot
    requires Hurts(l, a) && Compare(a, b, l, batch, m)
    ensures Compare(Entry(a, batch[k], envs), Entry(b, batch[k], envs), l, batch, m)
    decreases m
  {
    EntryKeepsLength(a, batch[k], envs, batch[m - 1].slot);
    EntryKeepsLength(b, batch[k], envs, batch[m - 1].slot);
    if Compare(a, b, l, batch, m - 1) {
      CompareLater(a, b, l, batch, envs, k, m - 1);
    }
  }

  lemma CompareNext(a: Server, b: Server, l: Layout, batch: seq<Ready>, envs: (Env, Env), k: nat)
    requires k < |batch| && 0 <= batch[k].slot <= MAX_EVENTS && a.Live(batch[k].slot) && b.Live(batch[k].slot)
    requires forall i :: 0 <= i < k ==> 0 <= batch[i].slot <= MAX_EVENTS && batch[i].slot != batch[k].slot
    requires a.layout == NulDropped && Compare(a, b, l, batch, k)
    ensures Compare(Entry(a, batch[k], envs), Entry(b, batch[k], envs), l, batch, k + 1)
  {
    if Hurts(l, a) {
      CompareLater(a, b, l, batch, envs, k, k);
      EntryKeepsLength(a, batch[k], envs, batch[k - 1].slot);
    } else {
      EntryLaid(a, b, l, batch[k], envs);
    }
  }

  lemma {:induction false} DispatchLaid(s: Server, t: Server, l: Layout, batch: seq<Ready>, envs: seq<(Env, Env)>, k: nat)
    requires IsBatch(s, batch) && |envs| == |batch| && k <= |batch|
    requires s.layout == NulDropped && !Hurts(l, s) && t == Laid(s, l)
    ensures IsBatch(t, batch) && Compare(Dispatch(s, batch, envs, k), Dispatch(t, batch, envs, k), l, batch, k)
    decreases k
  {
    if k > 0 {
      DispatchLaid(s, t, l, batch, envs, k - 1);
      CompareNext(Dispatch(s, batch, envs, k - 1), Dispatch(t, batch, envs, k - 1), l, batch, envs[k - 1], k - 1);
    }
  }

  lemma {:induction false} CompareTells(a: State, b: State, l: Layout, batch: seq<Ready>, k: nat)
    requires Table(a) && Table(b) && k <= |batch| && forall m :: 0 <= m < k ==> 0 <= batch[m].slot <= MAX_EVENTS
    requires Compare(a, b, l, batch, k)
    ensures b == Laid(a, l) <==> !Hurts(l, a)
    decreases k
  {
    if Hurts(l, a) && Compare(a, b, l, batch, k - 1) {
      CompareTells(a, b, l, batch, k - 1);
    }
  }

  lemma {:induction false} RoundLaid(s: Server, t: Server, l: Layout, round: Round)
    requires CanRound(s, round) && s.layout == NulDropped && !Hurts(l, s) && t == Laid(s, l)
    ensures CanRound(t, round) && DoRound(s, round).layout == NulDropped
    ensures DoRound(t, round) == Laid(DoRound(s, round), l) <==> !Hurts(l, DoRound(s, round))
  {
    SweepLaid(s, l, round.now, SWEEP);
    DispatchLaid(Swept(s, round.now), Swept(t, round.now), l, round.batch, round.envs, |round.batch|);
    CompareTells(DoRound(s, round), DoRound(t, round), l, round.batch, |round.batch|);
  }

  // ---------- Whole runs ----------

  /** The two servers can do the same rounds, and are in the same state after each. */
  ghost predicate Alike(s: Server, t: Server, l: Layout, rounds: seq<Round>)
    requires CanRun(s, rounds)
    decreases |rounds|
  {
    t == Laid(s, l) &&
    (rounds == [] ||
     (CanRound(t, rounds[0]) && Alike(DoRound(s, rounds[0]), DoRound(t, rounds[0]), l, rounds[1..])))
  }

  lemma {:induction false} RunRemembers(s: Server, rounds: seq<Round>)
    requires CanRun(s, rounds) && s.history.overran
    ensures Run(s, rounds).history.overran
    decreases |rounds|
  {
    if rounds != [] {
      var round := rounds[0];
      SweepLaid(s, s.layout, round.now, SWEEP);
      RunRemembers(DoRound(s, round), rounds[1..]);
    }
  }

  /** A run of the program as written is the run of the repaired one, state for state, exactly if the NUL
      falls into a high byte or no read in the run fills the buffer. */
  lemma {:induction false} RunsAlikeIff(s: Server, t: Server, l: Layout, rounds: seq<Round>)
    requires CanRun(s, rounds) && s.layout == NulDropped && !Hurts(l, s) && t == Laid(s, l)
    ensures Alike(s, t, l, rounds) <==> !(l == LowByteFirst && Run(s, rounds).history.overran)
    decreases |rounds|
  {
    if rounds != [] {
      var s1 := DoRound(s, rounds[0]);
      RoundLaid(s, t, l, rounds[0]);
      if Hurts(l, s1) {
        RunRemembers(s1, rounds[1..]);
      } else {
        RunsAlikeIff(s1, DoRound(t, rounds[0]), l, rounds[1..]);
      }
    }
  }
}
