/** The idle-timeout sweep: in which round each slot gets its turn, what is closed and what is spared. */
module ReactorTimeout {
  import opened Reactor
  import opened ReactorInvariant
  import opened ReactorEcho
  import opened ReactorRuns

  // ---------- Where the cursor goes ----------

  /** How many steps slot j is ahead of the cursor, going round the table. */
  function Distance(s: State, j: int): (d: int)
    requires 0 <= s.checkpos <= MAX_EVENTS && 0 <= j < MAX_EVENTS
    ensures 0 <= d < MAX_EVENTS
  {
    if Cursor(s) <= j then j - Cursor(s) else j - Cursor(s) + MAX_EVENTS
  }

  /** The k-th step of a sweep looks at the slot k ahead, so no slot twice within 1024 steps. */
  lemma {:induction false} CursorMoves(s: State, now: int, k: nat)
    requires Table(s) && 0 <= s.checkpos <= MAX_EVENTS && k < MAX_EVENTS
    ensures Distance(s, Cursor(Sweep(s, now, k))) == k
  {
    if k > 0 {
      CursorMoves(s, now, k - 1);
    }
  }

  /** Which is to say that slot j is looked at in step Distance(s, j). */
  lemma TurnIsDistance(s: State, now: int, k: nat, j: int)
    requires Table(s) && 0 <= s.checkpos <= MAX_EVENTS && 0 <= j < MAX_EVENTS && k < MAX_EVENTS
    ensures Cursor(Sweep(s, now, k)) == j <==> Distance(s, j) == k
  {
    CursorMoves(s, now, k);
  }

  /** And that k steps bring the cursor k closer. */
  lemma DistanceShrinks(s: State, now: int, k: nat, j: int)
    requires Table(s) && 0 <= s.checkpos <= MAX_EVENTS && 0 <= j < MAX_EVENTS && k <= Distance(s, j)
    ensures Distance(Sweep(s, now, k), j) == Distance(s, j) - k
  {
    CursorMoves(s, now, k);
  }

  // ---------- What one sweep does to one slot ----------

  ghost predicate Idle(s: State, now: int, j: int)
    requires Table(s) && 0 <= j < MAX_EVENTS
  {
    now - s.slots[j].lastActive >= 60
  }

  /** A slot not yet idle for 60 seconds is never closed by the sweep. */
  lemma {:induction false} SweepSparesActive(s: State, now: int, k: nat, j: int)
    requires Inv(s) && 0 <= j < MAX_EVENTS && !Idle(s, now, j)
    ensures Same(s, Sweep(s, now, k), j)
    ensures s.Live(j) ==> s.slots[j].fd in Sweep(s, now, k).kernel.open
  {
    SweepKeeps(s, now, k);
    if k > 0 {
      SweepSparesActive(s, now, k - 1, j);
    }
  }

  /** Nor is a slot whose turn does not come. */
  lemma {:induction false} SweepSparesUnvisited(s: State, now: int, k: nat, j: int)
    requires Table(s) && 0 <= s.checkpos <= MAX_EVENTS && 0 <= j < MAX_EVENTS && k <= Distance(s, j)
    ensures Same(s, Sweep(s, now, k), j)
  {
    if k > 0 {
      SweepSparesUnvisited(s, now, k - 1, j);
      TurnIsDistance(s, now, k - 1, j);
    }
  }

  lemma StepClosesIdle(s: State, now: int)
    requires Table(s) && 0 <= s.checkpos <= MAX_EVENTS && s.Live(Cursor(s)) && Idle(s, now, Cursor(s))
    ensures !SweepStep(s, now).Live(Cursor(s)) && s.slots[Cursor(s)].fd !in SweepStep(s, now).kernel.open
  {
  }

  lemma StepOpensNothing(s: State, now: int, j: int, fd: int)
    requires Table(s) && 0 <= s.checkpos <= MAX_EVENTS && 0 <= j < MAX_EVENTS
    requires !s.Live(j) && fd !in s.kernel.open
    ensures !SweepStep(s, now).Live(j) && fd !in SweepStep(s, now).kernel.open
  {
  }

  lemma SweepClosesAtTurn(s: State, now: int, k: nat, j: int)
    requires Table(s) && 0 <= s.checkpos <= MAX_EVENTS && 0 <= j < MAX_EVENTS
    requires s.Live(j) && Idle(s, now, j) && k == Distance(s, j) + 1
    ensures !Sweep(s, now, k).Live(j) && s.slots[j].fd !in Sweep(s, now, k).kernel.open
  {
    TurnIsDistance(s, now, k - 1, j);
    SweepSparesUnvisited(s, now, k - 1, j);
    StepClosesIdle(Sweep(s, now, k - 1), now);
  }

  /** A live slot that is idle when its turn comes is closed. */
  lemma {:induction false} SweepClosesIdle(s: State, now: int, k: nat, j: int)
    requires Table(s) && 0 <= s.checkpos <= MAX_EVENTS && 0 <= j < MAX_EVENTS
    requires s.Live(j) && Idle(s, now, j) && Distance(s, j) < k <= MAX_EVENTS
    ensures !Sweep(s, now, k).Live(j) && s.slots[j].fd !in Sweep(s, now, k).kernel.open
  {
    if Distance(s, j) == k - 1 {
      SweepClosesAtTurn(s, now, k, j);
    } else {
      SweepClosesIdle(s, now, k - 1, j);
      StepOpensNothing(Sweep(s, now, k - 1), now, j, s.slots[j].fd);
    }
  }

  lemma {:induction false} SweepOpensNothing(s: State, now: int, k: nat, j: int)
    requires Table(s) && 0 <= s.checkpos <= MAX_EVENTS && 0 <= j < MAX_EVENTS && !s.Live(j)
    ensures !Sweep(s, now, k).Live(j)
  {
    if k > 0 {
      SweepOpensNothing(s, now, k - 1, j);
    }
  }

  lemma DistanceIs(s: State, j: int)
    requires 0 <= s.checkpos <= MAX_EVENTS && 0 <= j < MAX_EVENTS
    ensures Distance(s, j) == (j - s.checkpos) % 1024
  {
  }

  /** The sweep that starts a round looks at the 100 slots that follow the cursor, going round the 1024
      client slots: it closes exactly the live ones among them that have been idle for 60 seconds, leaves
      all others as they are, and leaves the cursor 100 slots on. */
  lemma SweptIs(s: Server, now: int, j: int)
    requires 0 <= j < 1024
    ensures Swept(s, now).Live(j) <==> s.Live(j) && !(now - s.slots[j].lastActive >= 60 && (j - s.checkpos) % 1024 < 100)
    ensures Swept(s, now).Live(j) ==> Same(s, Swept(s, now), j)
    ensures (Swept(s, now).checkpos - s.checkpos) % 1024 == 100
  {
    CursorAdvances(s, now);
    DistanceIs(s, j);
    if !s.Live(j) {
      SweepOpensNothing(s, now, SWEEP, j);
    } else if !Idle(s, now, j) {
      SweepSparesActive(s, now, SWEEP, j);
    } else if Distance(s, j) < SWEEP {
      SweepClosesIdle(s, now, SWEEP, j);
    } else {
      SweepSparesUnvisited(s, now, SWEEP, j);
    }
  }

  lemma CursorAdvances(s: Server, now: int)
    ensures (Swept(s, now).checkpos - s.checkpos) % 1024 == 100
  {
    CursorMoves(s, now, SWEEP);
    DistanceIs(s, Cursor(Swept(s, now)));
  }

  /** The first sweep of a server that has started looks at slots 0 to 99, in this order. */
  lemma FirstSweep(efd: int, lfd: int, start: int, now: int, layout: Layout, k: nat)
    requires efd >= 0 && lfd >= 0 && lfd != efd && k < 100
    ensures var s := InitListenSocket(Zeroed(efd, layout), lfd, start);
            s.checkpos == 0 && Cursor(Sweep(s, now, k)) == k && s.Live(1024) && forall j :: 0 <= j < 1024 ==> !s.Live(j)
  {
    StartConverses(efd, lfd, start, layout);
    TurnIsDistance(InitListenSocket(Zeroed(efd, layout), lfd, start), now, k, k);
  }

  // ---------- Over rounds ----------

  ghost predicate Uncalled(rounds: seq<Round>, j: int)
    decreases |rounds|
  {
    rounds == [] || (Spared(rounds[0].batch, |rounds[0].batch|, j) && Uncalled(rounds[1..], j))
  }

  /** The rounds can be done, and none of them runs a callback on slot j, which is live. */
  ghost predicate Waits(s: Server, rounds: seq<Round>, j: int)
    requires 0 <= j < MAX_EVENTS
  {
    CanRun(s, rounds) && s.Live(j) && Uncalled(rounds, j)
  }

  ghost predicate ElevenRounds(s: Server, rounds: seq<Round>) {
    CanRun(s, rounds) && |rounds| == 11
  }

  lemma {:induction false} RoundShrinks(s: Server, round: Round, j: int)
    requires CanRound(s, round) && 0 <= j < MAX_EVENTS && Distance(s, j) >= SWEEP
    ensures Distance(DoRound(s, round), j) == Distance(s, j) - SWEEP
  {
    DistanceShrinks(s, round.now, SWEEP, j);
  }

  lemma {:induction false} RoundSpares(s: Server, round: Round, j: int)
    requires CanRound(s, round) && 0 <= j < MAX_EVENTS && s.Live(j)
    requires Distance(s, j) >= SWEEP && Spared(round.batch, |round.batch|, j)
    ensures Same(s, DoRound(s, round), j)
    ensures Distance(DoRound(s, round), j) == Distance(s, j) - SWEEP
  {
    SweepSparesUnvisited(s, round.now, SWEEP, j);
    RoundShrinks(s, round, j);
    RoundSparesUnswept(s, round, j);
  }

  /** Slot j of s is closed in t if it is idle, and untouched if not. */
  ghost predicate ClosedIffIdle(s: State, t: State, now: int, j: int)
    requires Table(s) && Table(t) && 0 <= j < MAX_EVENTS
  {
    if Idle(s, now, j) then !t.Live(j) && s.slots[j].fd !in t.kernel.open
    else Same(s, t, j) && s.slots[j].fd in t.kernel.open
  }

  lemma StillTheSame(s: State, s1: State, t: State, now: int, j: int)
    requires Table(s) && Table(s1) && Table(t) && 0 <= j < MAX_EVENTS && Same(s, s1, j)
    ensures ClosedIffIdle(s1, t, now, j) <==> ClosedIffIdle(s, t, now, j)
  {
  }

  lemma TurnIsNow(s: Server, now: int, j: int)
    requires 0 <= j < MAX_EVENTS && s.Live(j) && Distance(s, j) < SWEEP
    ensures ClosedIffIdle(s, Swept(s, now), now, j)
  {
    if Idle(s, now, j) {
      SweepClosesIdle(s, now, SWEEP, j);
    } else {
      SweepSparesActive(s, now, SWEEP, j);
    }
  }

  lemma {:induction false} OneRoundCloser(s: Server, rounds: seq<Round>, j: int)
    requires 0 <= j < MAX_EVENTS && Waits(s, rounds, j) && rounds != []
    requires |rounds| * SWEEP <= Distance(s, j) < (|rounds| + 1) * SWEEP
    ensures var s1 := DoRound(s, rounds[0]);
            && Same(s, s1, j)
            && Uncalled(rounds[1..], j)
            && |rounds[1..]| * SWEEP <= Distance(s1, j) < |rounds| * SWEEP
  {
    assert Spared(rounds[0].batch, |rounds[0].batch|, j);
    RoundSpares(s, rounds[0], j);
  }

  lemma {:induction false} TurnAtDistance(s: Server, rounds: seq<Round>, now: int, j: int)
    requires 0 <= j < MAX_EVENTS && Waits(s, rounds, j)
    requires |rounds| * SWEEP <= Distance(s, j) < (|rounds| + 1) * SWEEP
    ensures ClosedIffIdle(s, Swept(Run(s, rounds), now), now, j)
    decreases |rounds|
  {
    if rounds == [] {
      TurnIsNow(s, now, j);
    } else {
      OneRoundCloser(s, rounds, j);
      var s1 := DoRound(s, rounds[0]);
      TurnAtDistance(s1, rounds[1..], now, j);
      StillTheSame(s, s1, Swept(Run(s, rounds), now), now, j);
    }
  }

  /** Every live client slot gets its turn in the round that its distance from the cursor, counted in
      hundreds, says; if no callback runs on it until then, it is closed there exactly when it has been idle
      for 60 seconds by that round's clock. */
  lemma {:induction false} TurnComes(s: Server, rounds: seq<Round>, now: int, j: int)
    requires 0 <= j < 1024 && Waits(s, rounds, j) && |rounds| == (j - s.checkpos) % 1024 / 100
    ensures |rounds| <= 10
    ensures ClosedIffIdle(s, Swept(Run(s, rounds), now), now, j)
  {
    DistanceIs(s, j);
    TurnAtDistance(s, rounds, now, j);
  }

  /** The sweep of one of the rounds looks at slot j. */
  ghost predicate Visited(s: Server, rounds: seq<Round>, j: int)
    requires CanRun(s, rounds)
    decreases |rounds|
  {
    rounds != [] &&
    ((exists k: nat :: k < 100 && Cursor(Sweep(s, rounds[0].now, k)) == j) ||
     Visited(DoRound(s, rounds[0]), rounds[1..], j))
  }

  /** In any eleven rounds, whatever the clock says and whatever callbacks run in between, the sweep looks
      at every client slot. */
  lemma {:induction false} ElevenSweepsVisitAll(s: Server, rounds: seq<Round>, j: int)
    requires ElevenRounds(s, rounds) && 0 <= j < MAX_EVENTS
    ensures Visited(s, rounds, j)
  {
    VisitedInTime(s, rounds, j);
  }

  lemma {:induction false} VisitedInTime(s: Server, rounds: seq<Round>, j: int)
    requires CanRun(s, rounds) && 0 <= j < MAX_EVENTS && |rounds| * SWEEP > Distance(s, j)
    ensures Visited(s, rounds, j)
    decreases |rounds|
  {
    if Distance(s, j) < SWEEP {
      TurnIsDistance(s, rounds[0].now, Distance(s, j), j);
    } else {
      var s1 := CursorNearer(s, rounds, j);
      VisitedInTime(s1, rounds[1..], j);
    }
  }

  lemma {:induction false} CursorNearer(s: Server, rounds: seq<Round>, j: int) returns (s1: Server)
    requires CanRun(s, rounds) && rounds != [] && 0 <= j < MAX_EVENTS && Distance(s, j) >= SWEEP
    ensures CanRun(s1, rounds[1..]) && Distance(s1, j) == Distance(s, j) - SWEEP
    ensures Visited(s1, rounds[1..], j) ==> Visited(s, rounds, j)
  {
    RoundShrinks(s, rounds[0], j);
    s1 := DoRound(s, rounds[0]);
  }

  /** The sweep of one of the rounds leaves slot j closed, and its descriptor fd with it. */
  ghost predicate ClosedIn(s: Server, rounds: seq<Round>, j: int, fd: int)
    requires CanRun(s, rounds) && 0 <= j < MAX_EVENTS
    decreases |rounds|
  {
    rounds != [] &&
    ((!Swept(s, rounds[0].now).Live(j) && fd !in Swept(s, rounds[0].now).kernel.open) ||
     ClosedIn(DoRound(s, rounds[0]), rounds[1..], j, fd))
  }

  ghost predicate IdleThroughout(rounds: seq<Round>, lastActive: int)
    decreases |rounds|
  {
    rounds == [] || (rounds[0].now - lastActive >= 60 && IdleThroughout(rounds[1..], lastActive))
  }

  /** A slot that is idle by the clock of each of eleven rounds, and on which no callback runs in them, is
      closed in one of their sweeps. */
  lemma {:induction false} ElevenRoundsCloseIdle(s: Server, rounds: seq<Round>, j: int)
    requires ElevenRounds(s, rounds) && 0 <= j < MAX_EVENTS && Waits(s, rounds, j)
    requires IdleThroughout(rounds, s.slots[j].lastActive)
    ensures ClosedIn(s, rounds, j, s.slots[j].fd)
  {
    ClosedInTime(s, rounds, j);
  }

  lemma {:induction false} OneRoundNearer(s: Server, rounds: seq<Round>, j: int) returns (s1: Server)
    requires 0 <= j < MAX_EVENTS && Waits(s, rounds, j) && rounds != [] && Distance(s, j) >= SWEEP
    ensures CanRun(s1, rounds[1..]) && s1.slots[j] == s.slots[j] && Uncalled(rounds[1..], j)
    ensures Distance(s1, j) == Distance(s, j) - SWEEP
    ensures ClosedIn(s1, rounds[1..], j, s.slots[j].fd) ==> ClosedIn(s, rounds, j, s.slots[j].fd)
  {
    assert Spared(rounds[0].batch, |rounds[0].batch|, j);
    RoundSpares(s, rounds[0], j);
    s1 := DoRound(s, rounds[0]);
  }

  lemma {:induction false} ClosedNow(s: Server, rounds: seq<Round>, j: int)
    requires CanRun(s, rounds) && rounds != [] && 0 <= j < MAX_EVENTS && s.Live(j)
    requires Distance(s, j) < SWEEP && Idle(s, rounds[0].now, j)
    ensures ClosedIn(s, rounds, j, s.slots[j].fd)
  {
    SweepClosesIdle(s, rounds[0].now, SWEEP, j);
  }

  lemma {:induction false} ClosedInTime(s: Server, rounds: seq<Round>, j: int)
    requires 0 <= j < MAX_EVENTS && Waits(s, rounds, j)
    requires |rounds| * SWEEP > Distance(s, j)
    requires IdleThroughout(rounds, s.slots[j].lastActive)
    ensures ClosedIn(s, rounds, j, s.slots[j].fd)
    decreases |rounds|
  {
    if Distance(s, j) < SWEEP {
      ClosedNow(s, rounds, j);
    } else {
      var s1 := OneRoundNearer(s, rounds, j);
      ClosedInTime(s1, rounds[1..], j);
    }
  }

  // ---------- The 32-bit clock ----------

  lemma Int32IsExactIff(t: int)
    requires 0 <= t <= 0xFFFF_FFFF
    ensures Int32(t) == if t < 0x8000_0000 then t else t - 0x1_0000_0000
    ensures Int32(t) == t <==> t < 0x8000_0000
  {
  }

  /** A slot set at second t and looked at in second now: the test is the intended one exactly when
      the time fits a signed int, or the slot is to be closed anyway. */
  lemma IdleTestIsRightIff(t: int, now: int)
    requires 0 <= t <= now <= 0xFFFF_FFFF
    ensures (now - Int32(t) >= 60 <==> now - t >= 60) <==> t < 0x8000_0000 || now - t >= 60
  {
  }

  /** In every reachable state the stamp of a slot is the second its last callback ran in (cut to 32
      bits), so that a slot whose last callback ran less than 60 seconds ago outlives the next sweep as
      long as that second fits a signed int. */
  lemma {:induction false} ActiveWithinAMinuteSurvives(s: Server, rounds: seq<Round>, now: int, k: nat, j: int)
    requires CanRun(s, rounds) && 0 <= j < MAX_EVENTS && Run(s, rounds).Live(j)
    requires 0 <= Run(s, rounds).slots[j].touched < 0x8000_0000 && now - Run(s, rounds).slots[j].touched < 60
    ensures var r := Run(s, rounds); Same(r, Sweep(r, now, k), j) && r.slots[j].fd in Sweep(r, now, k).kernel.open
  {
    SurvivesInTime(Run(s, rounds), now, k, j);
  }

  lemma SurvivesInTime(r: Server, now: int, k: nat, j: int)
    requires 0 <= j < MAX_EVENTS && r.Live(j) && 0 <= r.slots[j].touched < 0x8000_0000 && now - r.slots[j].touched < 60
    ensures Same(r, Sweep(r, now, k), j) && r.slots[j].fd in Sweep(r, now, k).kernel.open
  {
    assert Sane(r.slots[j]);
    Int32IsExactIff(r.slots[j].touched);
    SweepSparesActive(r, now, k, j);
  }

  /** From 2038-01-19 03:14:08 UTC on, a connection admitted in this very second is closed in it, if
      the cursor is there. */
  lemma SweepClosesActiveAfter2038(s: State, i: int, cfd: int)
    requires Core(s, {cfd}) && 0 <= i < MAX_EVENTS && !s.Live(i) && Cursor(s) == i
    ensures var now := 0x8000_0000; var r := Admit(s, i, cfd, now);
            r.Live(i) && !SweepStep(r, now).Live(i)
  {
  }
}
