/** Timeval arithmetic and comparison (src/event2/util.h:174-196), the key type of the timer heap.
    Seconds and microseconds are unbounded integers here: overflow of `tv_sec` is not modelled. */
module Timevals {

  const USEC_PER_SEC: int := 1_000_000

  datatype Timeval = Timeval(sec: int, usec: int) {

    /** A struct timeval in canonical form. */
    predicate Normal() {
      0 <= usec < USEC_PER_SEC
    }

    /** The instant or duration denoted, in microseconds. */
    function Total(): int {
      sec * USEC_PER_SEC + usec
    }
  }

  /** The operator handed to evutil_timercmp. */
  datatype Cmp = Lt | Gt | Le | Ge | Eq | Ne

  predicate Apply(cmp: Cmp, a: int, b: int) {
    match cmp
    case Lt => a < b
    case Gt => a > b
    case Le => a <= b
    case Ge => a >= b
    case Eq => a == b
    case Ne => a != b
  }

  predicate TimerCmp(t: Timeval, u: Timeval, cmp: Cmp) {
    if t.sec == u.sec then Apply(cmp, t.usec, u.usec) else Apply(cmp, t.sec, u.sec)
  }

  predicate TimerIsSet(t: Timeval) {
    t.sec != 0 || t.usec != 0
  }

  function Add(t: Timeval, u: Timeval): Timeval {
    var usec := t.usec + u.usec;
    if usec >= USEC_PER_SEC then Timeval(t.sec + u.sec + 1, usec - USEC_PER_SEC)
    else Timeval(t.sec + u.sec, usec)
  }

  /** The borrow brings the microseconds back up; the source subtracts a million instead, see SubAsWritten. */
  function Sub(t: Timeval, u: Timeval): Timeval {
    var usec := t.usec - u.usec;
    if usec < 0 then Timeval(t.sec - u.sec - 1, usec + USEC_PER_SEC)
    else Timeval(t.sec - u.sec, usec)
  }

  /** evutil_timersub letter for letter. */
  function SubAsWritten(t: Timeval, u: Timeval): Timeval {
    var usec := t.usec - u.usec;
    if usec < 0 then Timeval(t.sec - u.sec - 1, usec - USEC_PER_SEC)
    else Timeval(t.sec - u.sec, usec)
  }

  // ---------- What the arithmetic means ----------

  /** A canonical timeval is determined by the microseconds it denotes. */
  lemma TotalIsInjective(t: Timeval, u: Timeval)
    requires t.Normal() && u.Normal() && t.Total() == u.Total()
    ensures t == u
  {
  }

  /** Add and Sub are exact on every input, and stay canonical on canonical inputs. */
  lemma ArithmeticIsExact(t: Timeval, u: Timeval)
    ensures Add(t, u).Total() == t.Total() + u.Total()
    ensures Sub(t, u).Total() == t.Total() - u.Total()
    ensures t.Normal() && u.Normal() ==> Add(t, u).Normal() && Sub(t, u).Normal()
  {
  }

  /** On canonical timevals the two operations undo each other, as values and not only as totals. */
  lemma AddSubUndo(t: Timeval, u: Timeval)
    requires t.Normal() && u.Normal()
    ensures Sub(Add(t, u), u) == t
    ensures Add(Sub(t, u), u) == t
  {
    ArithmeticIsExact(t, u);
    ArithmeticIsExact(Add(t, u), u);
    ArithmeticIsExact(Sub(t, u), u);
    TotalIsInjective(Sub(Add(t, u), u), t);
    TotalIsInjective(Add(Sub(t, u), u), t);
  }

  /** The subtraction as written is right exactly when no borrow is taken; with a borrow it is off
      by two seconds and leaves negative microseconds. */
  lemma SubAsWrittenIsExactIffNoBorrow(t: Timeval, u: Timeval)
    requires t.Normal() && u.Normal()
    ensures SubAsWritten(t, u) == Sub(t, u) <==> u.usec <= t.usec
    ensures SubAsWritten(t, u).Normal() <==> u.usec <= t.usec
    ensures SubAsWritten(t, u).Total() == t.Total() - u.Total() - (if u.usec <= t.usec then 0 else 2 * USEC_PER_SEC)
  {
  }

  /** 1 s minus 1 us, as written, is -1 s and -1000001 us. */
  lemma SubAsWrittenFails()
    ensures SubAsWritten(Timeval(1, 0), Timeval(0, 1)) == Timeval(0, -1_000_001)
    ensures Sub(Timeval(1, 0), Timeval(0, 1)) == Timeval(0, 999_999)
  {
  }

  // ---------- What the comparison means ----------

  /** On canonical timevals every operator compares the denoted microseconds, and a timeval is set
      unless it denotes none. */
  lemma CmpIsOnTotals(t: Timeval, u: Timeval, cmp: Cmp)
    requires t.Normal() && u.Normal()
    ensures TimerCmp(t, u, Lt) <==> t.Total() < u.Total()
    ensures TimerCmp(t, u, Gt) <==> t.Total() > u.Total()
    ensures TimerCmp(t, u, Le) <==> t.Total() <= u.Total()
    ensures TimerCmp(t, u, Ge) <==> t.Total() >= u.Total()
    ensures TimerCmp(t, u, Eq) <==> t.Total() == u.Total()
    ensures TimerCmp(t, u, Ne) <==> t.Total() != u.Total()
    ensures TimerCmp(t, u, cmp) <==> Apply(cmp, t.Total(), u.Total())
    ensures TimerIsSet(t) <==> t.Total() != 0
  {
    if t.sec < u.sec {
      assert t.Total() < u.Total();
    } else if u.sec < t.sec {
      assert u.Total() < t.Total();
    }
  }

  /** Outside canonical form the comparison and the microseconds disagree. */
  lemma CmpNeedsNormal()
    ensures TimerCmp(Timeval(1, 0), Timeval(0, 2_000_000), Gt)
    ensures Timeval(1, 0).Total() < Timeval(0, 2_000_000).Total()
  {
  }

  /** `>` is a strict total order on all timevals, canonical or not. */
  lemma GreaterIsStrictTotalOrder(t: Timeval, u: Timeval, v: Timeval)
    ensures !TimerCmp(t, t, Gt)
    ensures TimerCmp(t, u, Gt) && TimerCmp(u, v, Gt) ==> TimerCmp(t, v, Gt)
    ensures t == u || TimerCmp(t, u, Gt) || TimerCmp(u, t, Gt)
    ensures !(TimerCmp(t, u, Gt) && TimerCmp(u, t, Gt))
  {
  }

  /** Moving both instants by one common duration, forwards or backwards, changes no comparison. */
  lemma CmpIsShiftInvariant(t: Timeval, u: Timeval, d: Timeval, cmp: Cmp)
    requires t.Normal() && u.Normal() && d.Normal()
    ensures TimerCmp(Add(t, d), Add(u, d), cmp) <==> TimerCmp(t, u, cmp)
    ensures TimerCmp(Sub(t, d), Sub(u, d), cmp) <==> TimerCmp(t, u, cmp)
  {
    ArithmeticIsExact(t, d);
    ArithmeticIsExact(u, d);
    CmpIsOnTotals(t, u, cmp);
    CmpIsOnTotals(Add(t, d), Add(u, d), cmp);
    CmpIsOnTotals(Sub(t, d), Sub(u, d), cmp);
  }

  // ---------- The macros, which assign the fields of their output one by one ----------

  class TimevalCell {
    var sec: int
    var usec: int

    constructor (t: Timeval)
      ensures Value() == t
    {
      sec, usec := t.sec, t.usec;
    }

    function Value(): Timeval
      reads this
    {
      Timeval(sec, usec)
    }
  }

  /** The output may be the very cell of either input, or of both. */
  method TimerAdd(tvp: TimevalCell, uvp: TimevalCell, vvp: TimevalCell)
    modifies vvp
    ensures vvp.Value().Total() == old(tvp.Value().Total()) + old(uvp.Value().Total())
    ensures old(tvp.Value().Normal()) && old(uvp.Value().Normal()) ==> vvp.Value().Normal()
    ensures vvp.Value() == Add(old(tvp.Value()), old(uvp.Value()))
  {
    vvp.sec := tvp.sec + uvp.sec;
    vvp.usec := tvp.usec + uvp.usec;
    if vvp.usec >= USEC_PER_SEC {
      vvp.sec := vvp.sec + 1;
      vvp.usec := vvp.usec - USEC_PER_SEC;
    }
  }

  method TimerSub(tvp: TimevalCell, uvp: TimevalCell, vvp: TimevalCell)
    modifies vvp
    ensures vvp.Value().Total() == old(tvp.Value().Total()) - old(uvp.Value().Total())
    ensures old(tvp.Value().Normal()) && old(uvp.Value().Normal()) ==> vvp.Value().Normal()
    ensures vvp.Value() == Sub(old(tvp.Value()), old(uvp.Value()))
  {
    vvp.sec := tvp.sec - uvp.sec;
    vvp.usec := tvp.usec - uvp.usec;
    if vvp.usec < 0 {
      vvp.sec := vvp.sec - 1;
      vvp.usec := vvp.usec + USEC_PER_SEC;
    }
  }

  method TimerSubAsWritten(tvp: TimevalCell, uvp: TimevalCell, vvp: TimevalCell)
    modifies vvp
    ensures vvp.Value() == SubAsWritten(old(tvp.Value()), old(uvp.Value()))
  {
    vvp.sec := tvp.sec - uvp.sec;
    vvp.usec := tvp.usec - uvp.usec;
    if vvp.usec < 0 {
      vvp.sec := vvp.sec - 1;
      vvp.usec := vvp.usec - USEC_PER_SEC;
    }
  }

  method TimerClear(tvp: TimevalCell)
    modifies tvp
    ensures tvp.Value().Total() == 0 && tvp.Value().Normal() && !TimerIsSet(tvp.Value())
  {
    tvp.usec := 0;
    tvp.sec := tvp.usec;
  }
}
