/** The echo server of src/reactor/reactorServer.cpp as a state machine: the slot table, the kernel's
    view of it, and one function for each function of the program. What accept, recv, send, fcntl and
    the clock answer is an input. */
module Reactor {
  import opened Options

  const MAX_EVENTS: int := 1024
  const BUFLEN: int := 128
  const LISTENER: int := MAX_EVENTS  // the last slot of the table

  // ---------- The slot table ----------

  /** The events of interest, or those reported ready. */
  datatype Mask = Mask(rd: bool, wr: bool)
  const NO_EVENTS: Mask := Mask(false, false)
  const EPOLLIN: Mask := Mask(true, false)
  const EPOLLOUT: Mask := Mask(false, true)

  datatype Callback = Null | AcceptConn | RecvData | SendData

  /** struct myevent_s; `arg`, a pointer to a slot, is that slot's position. In memory `len` directly
      follows `buf`. */
  datatype Slot = Slot(fd: int, events: Mask, arg: int, callBack: Callback, status: int,
                       buf: string, len: int, lastActive: int,
                       touched: int)  // the second event_set last ran in, which the program does not keep

  /** Where a NUL stored one past `buf` ends up: in the lowest byte of `len`, in its highest byte, or, the
      program having been repaired, nowhere. SlotMemory derives what that does from the bytes. */
  datatype Layout = NulDropped | LowByteFirst | HighByteFirst

  // ---------- The kernel ----------

  datatype Interest = Interest(events: Mask, slot: int)
  datatype Ctl = CtlAdd | CtlMod | CtlDel

  datatype Kernel = Kernel(efd: int, open: set<int>, interest: map<int, Interest>) {

    /** The calls epoll_ctl carries out; it refuses the others, which the program does not notice. */
    predicate Legal(op: Ctl, fd: int) {
      efd in open && if op == CtlAdd then fd in open && fd !in interest else fd in interest
    }

    function EpollCtl(op: Ctl, fd: int, i: Interest): Kernel {
      if !Legal(op, fd) then this
      else if op == CtlDel then this.(interest := interest - {fd})
      else this.(interest := interest[fd := i])
    }

    /** Closing a descriptor drops its registration. */
    function Close(fd: int): Kernel {
      this.(open := open - {fd}, interest := interest - {fd})
    }

    /** A descriptor already open is never handed out: such an offer is a failed accept. */
    function Accepts(offer: int): int {
      if offer < 0 || offer in open then -1 else offer
    }
  }

  // ---------- History, which the program does not keep ----------

  datatype Traffic = Received(bytes: string) | Sent(bytes: string)

  /** Connections are numbered as they are admitted: conn gives the last one each slot held, log what
      went over it, refused the descriptors accepted but neither admitted nor closed. */
  datatype History = History(admitted: nat, conn: seq<nat>, log: map<nat, seq<Traffic>>,
                             refused: set<int>, overran: bool)

  datatype State = State(slots: seq<Slot>, kernel: Kernel, checkpos: int, history: History, layout: Layout) {

    predicate Live(i: int)
      requires 0 <= i < |slots|
    {
      slots[i].status == 1
    }
  }

  // ---------- The clock ----------

  /** `int last_active = time(NULL)`: the seconds cut to 32 bits. */
  function Int32(t: int): int {
    (t + 0x8000_0000) % 0x1_0000_0000 - 0x8000_0000
  }

  /** The table as allocated, every slot with the stamp event_set gave it. */
  ghost predicate Table(s: State) {
    && |s.slots| == |s.history.conn| == MAX_EVENTS + 1
    && forall i :: 0 <= i < |s.slots| ==> Sane(s.slots[i])
  }

  predicate Sane(slot: Slot) {
    |slot.buf| == BUFLEN && 0 <= slot.len <= BUFLEN && slot.lastActive == Int32(slot.touched)
  }

  // ---------- event_set, event_add, event_del ----------

  function EventSet(slot: Slot, fd: int, callBack: Callback, arg: int, now: int): Slot {
    slot.(fd := fd, callBack := callBack, arg := arg, status := 0, lastActive := Int32(now), touched := now, events := NO_EVENTS)
  }

  function EventAdd(s: State, events: Mask, i: int): (r: State)
    requires Table(s) && 0 <= i <= MAX_EVENTS
    ensures Table(r)
  {
    var slot := s.slots[i];
    var op := if slot.status == 1 then CtlMod else CtlAdd;
    s.(slots := s.slots[i := slot.(events := events, status := 1)],
       kernel := s.kernel.EpollCtl(op, slot.fd, Interest(events, i)))
  }

  function EventDel(s: State, i: int): (r: State)
    requires Table(s) && 0 <= i <= MAX_EVENTS
    ensures Table(r)
  {
    var slot := s.slots[i];
    if slot.status != 1 then s
    else s.(slots := s.slots[i := slot.(status := 0)],
            kernel := s.kernel.EpollCtl(CtlDel, slot.fd, Interest(slot.events, i)))
  }

  // ---------- acceptconn ----------

  /** What the outside answers during one callback: the descriptor accept offers (or a negative number),
      whether fcntl succeeds, the bytes waiting (None for an error, [] for a closed peer), how many bytes
      send will take (negative for an error), and the time. */
  datatype Env = Env(offer: int, nonblock: bool, incoming: Option<string>, room: int, now: int)

  /** The first slot whose status is 0, MAX_EVENTS if there is none. */
  function FirstFree(slots: seq<Slot>, from: int): (i: int)
    requires |slots| == MAX_EVENTS + 1 && 0 <= from <= MAX_EVENTS
    ensures from <= i <= MAX_EVENTS
    ensures i < MAX_EVENTS ==> slots[i].status == 0
    ensures forall j :: from <= j < i ==> slots[j].status != 0
    decreases MAX_EVENTS - from
  {
    if from == MAX_EVENTS || slots[from].status == 0 then from else FirstFree(slots, from + 1)
  }

  function Admit(s: State, i: int, cfd: int, now: int): (r: State)
    requires Table(s) && 0 <= i < MAX_EVENTS
    ensures Table(r)
  {
    var c := s.history.admitted;
    EventAdd(s.(slots := s.slots[i := EventSet(s.slots[i], cfd, RecvData, i, now)],
                history := s.history.(admitted := c + 1, conn := s.history.conn[i := c], log := s.history.log[c := []])),
             EPOLLIN, i)
  }

  /** acceptconn with `i` the value its outer variable has when it is tested; None when the slot table
      is left. The search the source writes declares an `i` of its own and leaves this one unset. */
  function AcceptConnAt(s: State, env: Env, i: int): (r: Option<State>)
    requires Table(s)
    ensures r.Some? ==> Table(r.value)
  {
    var cfd := s.kernel.Accepts(env.offer);
    if cfd == -1 then Some(s)
    else
      var s1 := s.(kernel := s.kernel.(open := s.kernel.open + {cfd}));
      if i == MAX_EVENTS then Some(Refuse(s1, cfd))
      else if !(0 <= i < MAX_EVENTS) then None
      else if !env.nonblock then Some(Refuse(s1, cfd))
      else Some(Admit(s1, i, cfd, env.now))
  }

  /** The descriptor is left open and forgotten. */
  function Refuse(s: State, cfd: int): State {
    s.(history := s.history.(refused := s.history.refused + {cfd}))
  }

  /** acceptconn with the search setting the variable it is meant to set. */
  function AcceptConnection(s: State, env: Env): (r: State)
    requires Table(s)
    ensures Table(r)
  {
    AcceptConnAt(s, env, FirstFree(s.slots, 0)).value
  }

  // ---------- recvdata and senddata ----------

  function Min(a: int, b: int): int {
    if a <= b then a else b
  }

  function Note(log: map<nat, seq<Traffic>>, c: nat, t: Traffic): map<nat, seq<Traffic>> {
    log[c := (if c in log then log[c] else []) + [t]]
  }

  /** `ev->buf[len] = '\0'`, len having been set to n. For n == BUFLEN the store leaves the buffer: with the
      low byte first it turns a length of 128 into 0, with the high byte first it changes nothing. */
  function EndString(slot: Slot, n: int, layout: Layout): Slot
    requires |slot.buf| == BUFLEN && 0 < n <= BUFLEN
  {
    if n < BUFLEN then slot.(buf := slot.buf[n := '\0'])
    else if layout == LowByteFirst then slot.(len := 0)
    else slot
  }

  /** recv on a 128-byte buffer, its answer stored, and the NUL behind it. `overran` remembers whether
      any read has filled the buffer. */
  function Receive(s: State, fd: int, j: int, env: Env): (r: State)
    requires Table(s) && 0 <= j <= MAX_EVENTS
    ensures Table(r)
  {
    var n := if env.incoming.None? then -1 else Min(|env.incoming.value|, BUFLEN);
    if n > 0 then
      var chunk := env.incoming.value[..n];
      var read := s.(slots := s.slots[j := s.slots[j].(buf := chunk + s.slots[j].buf[n..])]);
      var idle := EventDel(read, j);
      var slot := idle.slots[j].(len := n);
      var ended := EndString(slot, n, s.layout);
      var h := idle.history;
      EventAdd(idle.(slots := idle.slots[j := EventSet(ended, fd, SendData, j, env.now)],
                     history := h.(log := Note(h.log, h.conn[j], Received(chunk)), overran := h.overran || n == BUFLEN)),
               EPOLLOUT, j)
    else
      var idle := EventDel(s, j);
      idle.(kernel := idle.kernel.Close(idle.slots[j].fd))
  }

  function Send(s: State, fd: int, j: int, env: Env): (r: State)
    requires Table(s) && 0 <= j <= MAX_EVENTS
    ensures Table(r)
  {
    var n := if env.room < 0 then -1 else Min(env.room, s.slots[j].len);
    var idle := EventDel(s, j);
    if n > 0 then
      var h := idle.history;
      EventAdd(idle.(slots := idle.slots[j := EventSet(idle.slots[j], fd, RecvData, j, env.now)],
                     history := h.(log := Note(h.log, h.conn[j], Sent(s.slots[j].buf[..n])))),
               EPOLLIN, j)
    else
      idle.(kernel := idle.kernel.Close(idle.slots[j].fd))
  }

  // ---------- The sweep and the dispatch loop of main ----------

  /** The slot the sweep looks at next: past the last client it wraps to the first. */
  function Cursor(s: State): int {
    if s.checkpos == MAX_EVENTS then 0 else s.checkpos
  }

  function SweepStep(s: State, now: int): (r: State)
    requires Table(s) && 0 <= s.checkpos <= MAX_EVENTS
    ensures Table(r) && 0 <= r.checkpos <= MAX_EVENTS
  {
    var c := Cursor(s);
    var s1 :=
      if s.slots[c].status == 1 && now - s.slots[c].lastActive >= 60
      then EventDel(s.(kernel := s.kernel.Close(s.slots[c].fd)), c)
      else s;
    s1.(checkpos := c + 1)
  }

  function Sweep(s: State, now: int, steps: nat): (r: State)
    requires Table(s) && 0 <= s.checkpos <= MAX_EVENTS
    ensures Table(r) && 0 <= r.checkpos <= MAX_EVENTS
  {
    if steps == 0 then s else SweepStep(Sweep(s, now, steps - 1), now)
  }

  const SWEEP: nat := 100

  /** `ev->call_back(ev->fd, events, ev->arg)` */
  function Call(s: State, i: int, env: Env): (r: State)
    requires Table(s) && 0 <= i <= MAX_EVENTS
    requires s.slots[i].callBack != Null && 0 <= s.slots[i].arg <= MAX_EVENTS
    ensures Table(r)
  {
    var slot := s.slots[i];
    match slot.callBack
    case AcceptConn => AcceptConnection(s, env)
    case RecvData => Receive(s, slot.fd, slot.arg, env)
    case SendData => Send(s, slot.fd, slot.arg, env)
  }

  /** One entry of the array epoll_wait fills: what is ready, and the slot registered with it. */
  datatype Ready = Ready(slot: int, events: Mask)
}
