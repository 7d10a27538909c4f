/** The machine arithmetic of src/event2/minheap-internal.h: 32-bit unsigned positions, the signed int in
    which an event stores its position, and the doubling of the array. */
module HeapWords {
  import opened HeapSpec

  const WORD: int := 0x1_0000_0000
  const UINT32_MAX: int := 0xFFFF_FFFF
  const INT_MAX: int := 0x7FFF_FFFF

  /** The value an unsigned 32-bit variable holds after it is assigned x. */
  function U32(x: int): nat {
    x % WORD
  }

  /** An unsigned value stored in a signed 32-bit int. */
  function ToInt(x: int): int
    requires 0 <= x <= UINT32_MAX
  {
    if x <= INT_MAX then x else x - WORD
  }

  /** `parent = (hole_index - 1) / 2` on unsigned operands. */
  function ParentWord(hole: int): int
    requires 0 <= hole <= UINT32_MAX
  {
    U32(hole - 1) / 2
  }

  /** `min_child = (hole_index + 1) * 2` on unsigned operands. */
  function ChildWord(hole: int): int
    requires 0 <= hole <= UINT32_MAX
  {
    U32(U32(hole + 1) * 2)
  }

  /** The words are the mathematical parent and right child exactly up to these bounds; the parent of
      position 0 comes out as 2^31 - 1, which the sifts never use as an index. */
  lemma WordsAreExactUpTo(hole: int)
    requires 0 <= hole <= UINT32_MAX
    ensures hole > 0 ==> ParentWord(hole) == Parent(hole)
    ensures hole == 0 ==> ParentWord(hole) == INT_MAX
    ensures ChildWord(hole) == 2 * hole + 2 <==> hole < INT_MAX
    ensures ToInt(hole) == hole <==> hole <= INT_MAX
    ensures ToInt(hole) == -1 <==> hole == UINT32_MAX
  {
  }

  /** The positions of n events can all be told apart from what is stored exactly for up to 2^31 events; the
      next one would be stored as -2^31. */
  lemma PositionsFitIff(n: int)
    requires 0 <= n <= UINT32_MAX
    ensures (forall j :: 0 <= j < n ==> ToInt(j) == j) <==> n <= INT_MAX + 1
  {
    if n > INT_MAX + 1 {
      assert ToInt(INT_MAX + 1) == -INT_MAX - 1;
    }
  }

  // ---------- Growing the array ----------

  /** The capacity min_heap_revserse_ asks the allocator for. */
  function NewCapacity(a: int, n: int): int
    requires 0 <= a <= UINT32_MAX
  {
    var d := if a != 0 then U32(a * 2) else 8;
    if d < n then n else d
  }

  /** The capacity in numbers: eight cells at first, then twice as many as before until that wraps around,
      and never fewer than needed. */
  lemma NewCapacityIs(a: int, n: int)
    requires 0 <= a < n <= UINT32_MAX
    ensures a == 0 ==> NewCapacity(a, n) == if n <= 8 then 8 else n
    ensures 0 < a < 0x8000_0000 ==> NewCapacity(a, n) == if n <= 2 * a then 2 * a else n
    ensures a >= 0x8000_0000 ==> NewCapacity(a, n) == if n <= 2 * a - 0x1_0000_0000 then 2 * a - 0x1_0000_0000 else n
  {
  }

  /** Enough room, and never less than before, also when doubling wraps around. */
  lemma NewCapacitySuffices(a: int, n: int)
    requires 0 <= a < n <= UINT32_MAX
    ensures a < n <= NewCapacity(a, n) <= UINT32_MAX
    ensures a == 0 && n <= 8 ==> NewCapacity(a, n) == 8
    ensures a > INT_MAX ==> NewCapacity(a, n) < a + n
  {
  }

  /** Where size_t has 32 bits, the request is refused when its byte count would not fit. */
  predicate RequestFits(a: int, sizeIs32: bool) {
    sizeIs32 ==> a <= UINT32_MAX / 4
  }

  /** A request is let through exactly when its byte count fits: pointers have four bytes where size_t
      has 32 bits, and eight where it has 64, where every request fits. */
  lemma RequestFitsInSize(a: int, sizeIs32: bool)
    requires 0 <= a <= UINT32_MAX
    ensures RequestFits(a, sizeIs32) <==> (sizeIs32 ==> a * 4 <= 0xFFFF_FFFF)
    ensures !sizeIs32 ==> RequestFits(a, sizeIs32) && a * 8 <= 0xFFFF_FFFF_FFFF_FFFF
  {
  }
}
