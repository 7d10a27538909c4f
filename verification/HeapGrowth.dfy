/** The cost of growing the timer heap's array over a whole run of operations
    (src/event2/minheap-internal.h:69-76, 123-143). */
module HeapGrowth {
  import opened HeapProofs
  import opened HeapWords

  /** Size, capacity, the elements copied by reallocations so far, and the events stored so far. */
  datatype Arena = Arena(n: int, a: int, copied: int, stored: int)

  const EMPTY: Arena := Arena(0, 0, 0, 0)

  /** A push that finds or gets room, a push that does not, and the removal of an event. */
  datatype GrowOp = Store | Refuse | Remove

  /** min_heap_push_ refuses at n == UINT32_MAX, so an event is only stored below it. */
  predicate Enabled(s: Arena, op: GrowOp) {
    op == Store ==> s.n < UINT32_MAX
  }

  predicate Sized(s: Arena) {
    0 <= s.n <= s.a <= UINT32_MAX
  }

  function Step(s: Arena, op: GrowOp): (r: Arena)
    requires Sized(s) && Enabled(s, op)
    ensures Sized(r)
  {
    match op
    case Store =>
      if s.a < s.n + 1
      then Arena(s.n + 1, NewCapacity(s.a, s.n + 1), s.copied + s.a, s.stored + 1)
      else s.(n := s.n + 1, stored := s.stored + 1)
    case Refuse => s
    case Remove => if s.n > 0 then s.(n := s.n - 1) else s
  }

  predicate Feasible(s: Arena, ops: seq<GrowOp>)
    requires Sized(s)
    decreases |ops|
  {
    ops == [] || (Enabled(s, ops[0]) && Feasible(Step(s, ops[0]), ops[1..]))
  }

  function Run(s: Arena, ops: seq<GrowOp>): Arena
    requires Sized(s) && Feasible(s, ops)
    decreases |ops|
  {
    if ops == [] then s else Run(Step(s, ops[0]), ops[1..])
  }

  function Stores(ops: seq<GrowOp>): nat
    decreases |ops|
  {
    if ops == [] then 0 else (if ops[0] == Store then 1 else 0) + Stores(ops[1..])
  }

  /** The size never exceeds m. */
  predicate Within(s: Arena, ops: seq<GrowOp>, m: int)
    requires Sized(s) && Feasible(s, ops)
    decreases |ops|
  {
    ops == [] || (Step(s, ops[0]).n <= m && Within(Step(s, ops[0]), ops[1..], m))
  }

  /** As long as no doubling has wrapped: the capacity is a power of two, every copied element is one
      of the cells added after the first eight, and more than half the cells have been needed. */
  ghost predicate Doubling(s: Arena, j: nat) {
    && 0 <= s.n <= s.a && s.n <= s.stored
    && if s.a == 0 then s.copied == 0
       else 3 <= j <= 31 && s.a == Pow2(j) && s.copied == s.a - 8 && (j > 3 ==> s.a < 2 * s.stored) && 0 < s.stored
  }

  /** Once 2^31 cells were full, doubling has wrapped and given room for one more. */
  predicate WrappedOnce(s: Arena) {
    0 <= s.n <= s.a == 0x8000_0001 && s.copied == 0xFFFF_FFF8 && s.a <= s.stored
  }

  ghost predicate Affordable(s: Arena) {
    (exists j: nat :: Doubling(s, j)) || WrappedOnce(s)
  }

  lemma {:induction false} Pow2Grows(i: nat, j: nat)
    requires i <= j
    ensures 0 < Pow2(i) <= Pow2(j)
    ensures i < j ==> Pow2(i) < Pow2(j)
  {
    if i < j {
      Pow2Grows(i, j - 1);
    } else if i > 0 {
      Pow2Grows(i - 1, j - 1);
    }
  }

  lemma Pow2Values()
    ensures Pow2(3) == 8 && Pow2(31) == 0x8000_0000
  {
    assert Pow2(8) == 256;
    assert Pow2(16) == 0x1_0000;
    assert Pow2(24) == 0x100_0000;
    assert Pow2(31) == 0x8000_0000;
  }

  lemma StoreKeepsDoubling(s: Arena, j: nat) returns (j': nat)
    requires Doubling(s, j) && Sized(s) && s.n <= 0x8000_0000
    ensures if s.n == s.a == 0x8000_0000 then WrappedOnce(Step(s, Store)) else Doubling(Step(s, Store), j')
  {
    Pow2Values();
    j' := j;
    if s.a < s.n + 1 {
      if s.a == 0 {
        j' := 3;
      } else if j < 31 {
        j' := j + 1;
        Pow2Grows(j + 1, 31);
      }
    }
    if 0 < s.a && j < 31 {
      Pow2Grows(j, 31);
    }
  }

  /** No operation on an affordable arena makes it less than affordable, unless it stores an event beyond
      2^31 + 1 of them. */
  lemma StepKeepsAffordable(s: Arena, op: GrowOp)
    requires Affordable(s) && Sized(s) && Enabled(s, op)
    requires op == Store ==> s.n <= 0x8000_0000
    ensures Affordable(Step(s, op))
  {
    if !WrappedOnce(s) {
      var j: nat :| Doubling(s, j);
      if op == Store {
        var j' := StoreKeepsDoubling(s, j);
      } else {
        assert Doubling(Step(s, op), j);
      }
    }
  }

  /** Fewer than two elements copied for every event ever stored. */
  lemma AffordableIsCheap(s: Arena)
    requires Affordable(s) && 0 < s.stored
    ensures s.copied < 2 * s.stored
  {
    if !WrappedOnce(s) {
      var j: nat :| Doubling(s, j);
      Pow2Values();
      if j < 3 {
        assert s.a == 0;
      }
    }
  }

  lemma EmptyIsAffordable()
    ensures Affordable(EMPTY)
  {
    assert Doubling(EMPTY, 3);
  }

  lemma {:induction false} RunKeepsAffordable(s: Arena, ops: seq<GrowOp>)
    requires Affordable(s) && Sized(s) && Feasible(s, ops) && Within(s, ops, 0x8000_0001)
    ensures Affordable(Run(s, ops)) && Run(s, ops).stored == s.stored + Stores(ops)
    decreases |ops|
  {
    if ops != [] {
      StepKeepsAffordable(s, ops[0]);
      RunKeepsAffordable(Step(s, ops[0]), ops[1..]);
    }
  }

  /** In any run from the empty heap that never holds more than 2^31 + 1 events, refused pushes and
      removals interleaved at will, the reallocations copy fewer than two elements for every event stored. */
  lemma CopiesAreAmortised(ops: seq<GrowOp>)
    requires Feasible(EMPTY, ops) && Within(EMPTY, ops, 0x8000_0001) && 0 < Stores(ops)
    ensures Run(EMPTY, ops).copied < 2 * Stores(ops)
  {
    EmptyIsAffordable();
    RunKeepsAffordable(EMPTY, ops);
    AffordableIsCheap(Run(EMPTY, ops));
  }

  /** A run that stores no more than m events never holds more. */
  lemma {:induction false} FewStoresStayWithin(s: Arena, ops: seq<GrowOp>, m: int)
    requires Sized(s) && Feasible(s, ops) && s.n + Stores(ops) <= m
    ensures Within(s, ops, m)
    decreases |ops|
  {
    if ops != [] {
      FewStoresStayWithin(Step(s, ops[0]), ops[1..], m);
    }
  }

  // ---------- Where the doubling wraps ----------

  /** The heap after k pushes and nothing else. */
  function Fill(k: nat): (s: Arena)
    requires k <= UINT32_MAX
    ensures Sized(s) && s.n == s.stored == k
  {
    if k == 0 then EMPTY else Step(Fill(k - 1), Store)
  }

  lemma {:induction false} FillDoubles(k: nat) returns (j: nat)
    requires k <= 0x8000_0000
    ensures Doubling(Fill(k), j)
  {
    if k == 0 {
      j := 3;
    } else {
      var i := FillDoubles(k - 1);
      j := StoreKeepsDoubling(Fill(k - 1), i);
    }
  }

  lemma LargestPower(j: nat)
    requires j <= 31 && Pow2(j) >= 0x8000_0000
    ensures j == 31
  {
    Pow2Values();
    Pow2Grows(j, 31);
  }

  lemma DoublingAtTheWrap(s: Arena, j: nat)
    requires Doubling(s, j) && s.n == s.stored == 0x8000_0000
    ensures s == Arena(s.n, s.n, s.n - 8, s.n)
  {
    LargestPower(j);
    Pow2Values();
  }

  lemma FillAtTheWrap(k: nat)
    requires k == 0x8000_0000
    ensures Fill(k) == Arena(k, k, k - 8, k)
  {
    var j := FillDoubles(k);
    DoublingAtTheWrap(Fill(k), j);
  }

  lemma FillSucc(k: nat)
    requires k < UINT32_MAX
    ensures Fill(k + 1) == Step(Fill(k), Store)
  {
  }

  lemma StepPastTheWrap(k: nat, copied: int)
    requires 0x8000_0000 <= k < UINT32_MAX
    ensures Step(Arena(k, k, copied, k), Store) == Arena(k + 1, k + 1, copied + k, k + 1)
  {
  }

  /** From 2^31 pushes on, every push reallocates and copies everything. */
  lemma {:induction false} FillPastTheWrap(k: nat)
    requires 0x8000_0000 <= k <= UINT32_MAX
    ensures Fill(k).a == k
    ensures Fill(k).copied < 2 * k <==> k <= 0x8000_0001
    decreases k
  {
    if k == 0x8000_0000 {
      FillAtTheWrap(k);
    } else {
      FillPastTheWrap(k - 1);
      FillSucc(k - 1);
      StepPastTheWrap(k - 1, Fill(k - 1).copied);
      if k == 0x8000_0001 {
        FillAtTheWrap(k - 1);
      } else if k == 0x8000_0002 {
        FillAtTheWrap(k - 2);
        FillSucc(k - 2);
        StepPastTheWrap(k - 2, Fill(k - 2).copied);
      }
    }
  }

  lemma {:induction false} FillIsAffordable(k: nat)
    requires k <= 0x8000_0001
    ensures Affordable(Fill(k))
  {
    if k == 0 {
      EmptyIsAffordable();
    } else {
      FillIsAffordable(k - 1);
      StepKeepsAffordable(Fill(k - 1), Store);
    }
  }

  /** The bound outlives the first wrapped doubling by one push: k pushes and nothing else meet it exactly
      up to 2^31 + 1 of them. */
  lemma AmortisationEndsAtTheWrap(k: nat)
    requires 0 < k <= UINT32_MAX
    ensures Fill(k).copied < 2 * k <==> k <= 0x8000_0001
  {
    if k <= 0x8000_0001 {
      FillIsAffordable(k);
      AffordableIsCheap(Fill(k));
    } else {
      FillPastTheWrap(k);
    }
  }

  function Pushes(k: nat): (ops: seq<GrowOp>)
    ensures |ops| == k
  {
    if k == 0 then [] else [Store] + Pushes(k - 1)
  }

  lemma {:induction false} PushesFill(i: nat, k: nat)
    requires i + k <= UINT32_MAX
    ensures Feasible(Fill(i), Pushes(k)) && Run(Fill(i), Pushes(k)) == Fill(i + k)
    ensures Within(Fill(i), Pushes(k), i + k) && Stores(Pushes(k)) == k
    decreases k
  {
    if k > 0 {
      FillSucc(i);
      PushesFill(i + 1, k - 1);
      assert Pushes(k)[1..] == Pushes(k - 1);
    }
  }

  ghost predicate AmortisedUpTo(m: int) {
    forall ops {:trigger Feasible(EMPTY, ops)} ::
      Feasible(EMPTY, ops) && Within(EMPTY, ops, m) && 0 < Stores(ops) ==> Run(EMPTY, ops).copied < 2 * Stores(ops)
  }

  lemma {:induction false} WithinMore(s: Arena, ops: seq<GrowOp>, m: int, m': int)
    requires Sized(s) && Feasible(s, ops) && Within(s, ops, m) && m <= m'
    ensures Within(s, ops, m')
    decreases |ops|
  {
    if ops != [] {
      WithinMore(Step(s, ops[0]), ops[1..], m, m');
    }
  }

  /** So a cap of m events guarantees the bound for all runs under it exactly up to m == 2^31 + 1. */
  lemma AmortisedUpToIff(m: nat)
    requires 0 < m <= UINT32_MAX
    ensures AmortisedUpTo(m) <==> m <= 0x8000_0001
  {
    if m <= 0x8000_0001 {
      forall ops | Feasible(EMPTY, ops) && Within(EMPTY, ops, m) && 0 < Stores(ops)
        ensures Run(EMPTY, ops).copied < 2 * Stores(ops)
      {
        WithinMore(EMPTY, ops, m, 0x8000_0001);
        CopiesAreAmortised(ops);
      }
    } else {
      PushesFill(0, m);
      AmortisationEndsAtTheWrap(m);
    }
  }
}
