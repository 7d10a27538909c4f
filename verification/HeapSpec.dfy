/** The index arithmetic and the sifts of src/event2/minheap-internal.h, as functions on the live part
    of the heap array. An entry pairs the event's identity with the timeout it is ordered by. The class
    MinHeap is proved equal to these functions; what they achieve is proved in HeapProofs. */
module HeapSpec {
  import opened Timevals

  datatype Entry<T> = Entry(item: T, key: Timeval)

  /** min_heap_elem_greater */
  predicate Greater<T>(x: Entry<T>, y: Entry<T>) {
    TimerCmp(x.key, y.key, Gt)
  }

  function Parent(i: int): int
    requires 0 < i
  {
    (i - 1) / 2
  }

  // ---------- The sifts ----------

  /** The final store of a sift. The hole of min_heap_shift_down_ may lie just past the live part, after
      the last event was erased; the live part is then left as it is. */
  function Store<T>(h: seq<Entry<T>>, i: nat, x: Entry<T>): seq<Entry<T>> {
    if i < |h| then h[i := x] else h
  }

  function SiftUp<T>(h: seq<Entry<T>>, hole: nat, x: Entry<T>): (r: seq<Entry<T>>)
    requires hole < |h|
    ensures |r| == |h|
    decreases hole
  {
    if hole > 0 && Greater(h[Parent(hole)], x)
    then SiftUp(h[hole := h[Parent(hole)]], Parent(hole), x)
    else h[hole := x]
  }

  /** The first move is made without a comparison. */
  function SiftUpUnconditional<T>(h: seq<Entry<T>>, hole: nat, x: Entry<T>): (r: seq<Entry<T>>)
    requires 0 < hole < |h|
    ensures |r| == |h|
  {
    SiftUp(h[hole := h[Parent(hole)]], Parent(hole), x)
  }

  /** The smaller child of a hole that has one, the right child when the two are equal. */
  function MinChild<T>(h: seq<Entry<T>>, hole: nat): (c: nat)
    requires 2 * hole + 1 < |h|
    ensures 2 * hole + 1 <= c <= 2 * hole + 2 && c < |h|
  {
    var c := 2 * hole + 2;
    if c == |h| || Greater(h[c], h[c - 1]) then c - 1 else c
  }

  function SiftDown<T>(h: seq<Entry<T>>, hole: nat, x: Entry<T>): (r: seq<Entry<T>>)
    requires hole <= |h|
    ensures |r| == |h|
    decreases |h| - hole
  {
    if 2 * hole + 2 <= |h| && Greater(x, h[MinChild(h, hole)])
    then SiftDown(h[hole := h[MinChild(h, hole)]], MinChild(h, hole), x)
    else Store(h, hole, x)
  }

  // ---------- The operations ----------

  function Push<T>(h: seq<Entry<T>>, x: Entry<T>): (r: seq<Entry<T>>)
    ensures |r| == |h| + 1
  {
    SiftUp(h + [x], |h|, x)
  }

  /** Removes the entry at the root. */
  function Pop<T>(h: seq<Entry<T>>): (r: seq<Entry<T>>)
    requires |h| > 0
    ensures |r| == |h| - 1
  {
    SiftDown(h[..|h| - 1], 0, h[|h| - 1])
  }

  /** Removes the entry at position i. */
  function Erase<T>(h: seq<Entry<T>>, i: nat): (r: seq<Entry<T>>)
    requires i < |h|
    ensures |r| == |h| - 1
  {
    var last := h[|h| - 1];
    if i > 0 && Greater(h[Parent(i)], last)
    then SiftUpUnconditional(h, i, last)[..|h| - 1]
    else SiftDown(h[..|h| - 1], i, last)
  }

  /** Puts the entry at position i back in order, its key having changed. */
  function Adjust<T>(h: seq<Entry<T>>, i: nat): (r: seq<Entry<T>>)
    requires i < |h|
    ensures |r| == |h|
  {
    if i > 0 && Greater(h[Parent(i)], h[i])
    then SiftUpUnconditional(h, i, h[i])
    else SiftDown(h, i, h[i])
  }

  // ---------- Heap order ----------

  /** No event is due before its parent. */
  ghost predicate Ordered<T>(h: seq<Entry<T>>) {
    forall j :: 0 < j < |h| ==> !Greater(h[Parent(j)], h[j])
  }

  /** Heap order at every edge that does not touch position i, and across i. */
  ghost predicate OrderedExceptAt<T>(h: seq<Entry<T>>, i: nat) {
    && (forall j :: 0 < j < |h| && j != i && Parent(j) != i ==> !Greater(h[Parent(j)], h[j]))
    && (forall j :: 0 < j < |h| && Parent(j) == i && 0 < i ==> !Greater(h[Parent(i)], h[j]))
  }

  ghost predicate Distinct<T>(h: seq<Entry<T>>) {
    forall i, j :: 0 <= i < j < |h| ==> h[i].item != h[j].item
  }

  ghost function ItemsOf<T>(h: seq<Entry<T>>): set<T> {
    set j | 0 <= j < |h| :: h[j].item
  }
}
