/** The intrusive timer heap of src/event2/minheap-internal.h, in place: an array of events, each of
    which stores its own position. Lines 66, 101-102, 162, 166 and 184 of the source are modelled with the
    repairs README.md lists; the text of those lines is the subject of MinHeapAsWritten. */
module MinHeaps {
  import opened Timevals
  import opened HeapSpec
  import opened HeapProofs
  import opened HeapWords
  import HeapGrowth
  import HeapRuns

  /** The part of `struct event` the heap looks at. */
  class Event {
    var timeout: Timeval
    var minHeapIdx: int

    constructor (timeout: Timeval)
      ensures this.timeout == timeout
    {
      this.timeout := timeout;
    }

    ghost function Entry(): Entry<Event>
      reads this
    {
      HeapSpec.Entry(this, timeout)
    }
  }

  class MinHeap {
    var p: array<Event?>
    var n: int
    var a: int
    const sizeIs32: bool  // whether SIZE_MAX == UINT32_MAX on this platform
    ghost var known: set<Event>  // every event initialised for use with this heap
    ghost var copied: int  // the elements copied by reallocations so far
    ghost var stored: int  // the events stored so far

    /** The first |m| cells other than the hole hold the entries of m, and their events know it. */
    ghost predicate Holds(m: seq<Entry<Event>>, hole: int, items: set<Event>)
      reads this`p, p, items
    {
      && |m| <= p.Length
      && forall j :: 0 <= j < |m| && j != hole ==>
           p[j] == m[j].item && m[j].item in items && m[j].item.Entry() == m[j] && m[j].item.minHeapIdx == j
    }

    /** Positions and back-pointers agree, in both directions: exactly the events without a position
        are outside the heap. Nothing is said about order. */
    ghost predicate Shape()
      reads this, p, known
    {
      && 0 <= n <= a == p.Length <= UINT32_MAX && n <= INT_MAX + 1
      && (forall j :: 0 <= j < n ==> p[j] != null && p[j] in known && p[j].minHeapIdx == j)
      && (forall e :: e in known && e.minHeapIdx != -1 ==> 0 <= e.minHeapIdx < n && p[e.minHeapIdx] == e)
    }

    ghost function Contents(): (m: seq<Entry<Event>>)
      requires Shape()
      reads this, p, known
      ensures |m| == n && Holds(m, -1, known)
    {
      seq(n, j requires 0 <= j < n && Shape() reads this, p, known => p[j].Entry())
    }

    /** The joint invariant of the heap, for sizes whose positions and child positions fit the words
        they are computed in. */
    ghost predicate Valid()
      reads this, p, known
    {
      Shape() && n <= INT_MAX && Ordered(Contents())
    }

    /** What the heap has cost so far. */
    ghost function Account(): HeapGrowth.Arena
      reads this
    {
      HeapGrowth.Arena(n, a, copied, stored)
    }

    /** The reallocations so far have been paid for by the events stored. */
    ghost predicate Paid()
      reads this
    {
      HeapGrowth.Affordable(Account())
    }

    /** min_heap_ctor_ */
    constructor (sizeIs32: bool)
      ensures Valid() && fresh(p) && known == {} && Contents() == []
      ensures Account() == HeapGrowth.EMPTY && Paid()
    {
      this.sizeIs32 := sizeIs32;
      p := new Event?[0];
      n, a := 0, 0;
      known := {};
      copied, stored := 0, 0;
      new;
      HeapGrowth.EmptyIsAffordable();
    }

    // ---------- The sifts ----------

    /** The two stores that fill the hole with the event at another live position, which becomes the hole. */
    method Fill(hole: int, from: int, ghost m: seq<Entry<Event>>, ghost items: set<Event>)
      requires Holds(m, hole, items) && |m| == n && 0 <= hole < n && 0 <= from < n && hole != from && hole <= INT_MAX
      modifies p, items`minHeapIdx
      ensures Holds(m[hole := m[from]], from, items)
      ensures forall j :: 0 <= j < p.Length && j != hole ==> p[j] == old(p[j])
    {
      p[hole] := p[from];
      p[hole].minHeapIdx := ToInt(hole);
    }

    /** The two stores that put an event into the hole. */
    method Place(hole: int, e: Event, ghost m: seq<Entry<Event>>, ghost items: set<Event>)
      requires Holds(m, hole, items) && |m| == n && 0 <= hole <= n && hole < p.Length && hole <= INT_MAX
      requires e in items && forall j :: 0 <= j < n && j != hole ==> m[j].item != e
      modifies p, items`minHeapIdx
      ensures Holds(Store(m, hole, e.Entry()), -1, items)
      ensures e.minHeapIdx == hole
      ensures forall j :: 0 <= j < p.Length && j != hole ==> p[j] == old(p[j])
    {
      p[hole] := e;
      p[hole].minHeapIdx := ToInt(hole);
    }

    method ShiftUp(hole0: int, e: Event, ghost m: seq<Entry<Event>>, ghost items: set<Event>) returns (ghost moves: nat)
      requires Holds(m, hole0, items) && |m| == n && 0 <= hole0 < n <= INT_MAX + 1
      requires e in items && forall j :: 0 <= j < n && j != hole0 ==> m[j].item != e
      modifies p, items`minHeapIdx
      ensures Holds(SiftUp(m, hole0, e.Entry()), -1, items)
      ensures moves == UpMoves(m, hole0, e.Entry())
      ensures forall j :: n <= j < p.Length ==> p[j] == old(p[j])
    {
      var hole := hole0;
      var parent := ParentWord(hole);
      WordsAreExactUpTo(hole);
      ghost var cur := m;
      moves := 0;
      while hole > 0 && TimerCmp(p[parent].timeout, e.timeout, Gt)
        invariant 0 <= hole <= hole0 && parent == ParentWord(hole)
        invariant hole > 0 ==> parent == Parent(hole)
        invariant |cur| == n && Holds(cur, hole, items)
        invariant forall j :: 0 <= j < n && j != hole ==> cur[j].item != e
        invariant SiftUp(cur, hole, e.Entry()) == SiftUp(m, hole0, e.Entry())
        invariant moves + UpMoves(cur, hole, e.Entry()) == UpMoves(m, hole0, e.Entry())
        invariant forall j :: n <= j < p.Length ==> p[j] == old(p[j])
        decreases hole
      {
        Fill(hole, parent, cur, items);
        cur := cur[hole := cur[parent]];
        moves := moves + 1;
        hole := parent;
        WordsAreExactUpTo(hole);
        parent := ParentWord(hole);
      }
      Place(hole, e, cur, items);
    }

    /** The body of the do-while loop once, then what is left of it: the loop of ShiftUp. */
    method ShiftUpUnconditional(hole0: int, e: Event, ghost m: seq<Entry<Event>>, ghost items: set<Event>) returns (ghost moves: nat)
      requires Holds(m, hole0, items) && |m| == n && 0 < hole0 < n <= INT_MAX + 1
      requires e in items && forall j :: 0 <= j < n && j != hole0 ==> m[j].item != e
      modifies p, items`minHeapIdx
      ensures Holds(SiftUpUnconditional(m, hole0, e.Entry()), -1, items)
      ensures moves == 1 + UpMoves(m[hole0 := m[Parent(hole0)]], Parent(hole0), e.Entry())
      ensures forall j :: n <= j < p.Length ==> p[j] == old(p[j])
    {
      WordsAreExactUpTo(hole0);
      var parent := ParentWord(hole0);
      Fill(hole0, parent, m, items);
      moves := ShiftUp(parent, e, m[hole0 := m[parent]], items);
      moves := moves + 1;
    }

    /** `min_child -= min_child == n || greater(p[min_child], p[min_child - 1])` */
    method SmallerChild(hole: int, right: int, ghost m: seq<Entry<Event>>, ghost items: set<Event>) returns (child: int)
      requires Holds(m, hole, items) && |m| == n && 0 <= hole && right == 2 * hole + 2 <= n
      ensures child == right - 1 || child == right
      ensures child == right <==> right < n && !TimerCmp(m[right].key, m[right - 1].key, Gt)
      ensures child == MinChild(m, hole)
    {
      child := right;
      if child == n || TimerCmp(p[child].timeout, p[child - 1].timeout, Gt) {
        child := child - 1;
      }
    }

    /** The hole may lie just past the live cells, when the event to be placed is the one that was erased. */
    method ShiftDown(hole0: int, e: Event, ghost m: seq<Entry<Event>>, ghost items: set<Event>) returns (ghost moves: nat)
      requires Holds(m, hole0, items) && |m| == n && 0 <= hole0 <= n && hole0 < p.Length && hole0 < INT_MAX
      requires n <= INT_MAX
      requires e in items && forall j :: 0 <= j < n && j != hole0 ==> m[j].item != e
      modifies p, items`minHeapIdx
      ensures Holds(SiftDown(m, hole0, e.Entry()), -1, items)
      ensures moves == DownMoves(m, hole0, e.Entry())
      ensures hole0 == n ==> e.minHeapIdx == n
      ensures forall j :: n <= j < p.Length && j != hole0 ==> p[j] == old(p[j])
    {
      var hole := hole0;
      WordsAreExactUpTo(hole);
      var minChild := ChildWord(hole);
      ghost var cur := m;
      moves := 0;
      while minChild <= n
        invariant 0 <= hole <= n && hole < p.Length && hole < INT_MAX && (hole0 == n <==> hole == n)
        invariant minChild == 2 * hole + 2
        invariant |cur| == n && Holds(cur, hole, items)
        invariant forall j :: 0 <= j < n && j != hole ==> cur[j].item != e
        invariant SiftDown(cur, hole, e.Entry()) == SiftDown(m, hole0, e.Entry())
        invariant moves + DownMoves(cur, hole, e.Entry()) == DownMoves(m, hole0, e.Entry())
        invariant forall j :: n <= j < p.Length && j != hole0 ==> p[j] == old(p[j])
        decreases n - hole
      {
        minChild := SmallerChild(hole, minChild, cur, items);
        if !TimerCmp(e.timeout, p[minChild].timeout, Gt) {
          break;
        }
        Fill(hole, minChild, cur, items);
        cur := cur[hole := cur[minChild]];
        moves := moves + 1;
        hole := minChild;
        WordsAreExactUpTo(hole);
        minChild := ChildWord(minChild);
      }
      Place(hole, e, cur, items);
    }

    // ---------- Proof steps shared by the operations ----------

    /** When the live cells hold r and every other known event has no position, the heap has its shape
        and its contents are r. */
    lemma Reseat(r: seq<Entry<Event>>)
      requires 0 <= n <= a == p.Length <= UINT32_MAX && n <= INT_MAX + 1
      requires |r| == n && Holds(r, -1, known)
      requires forall e :: e in known && e !in ItemsOf(r) ==> e.minHeapIdx == -1
      ensures Shape() && Contents() == r
    {
      forall e | e in known && e.minHeapIdx != -1
        ensures 0 <= e.minHeapIdx < n && p[e.minHeapIdx] == e
      {
        var j :| 0 <= j < |r| && r[j].item == e;
      }
    }

    ghost predicate Outside(members: set<Event>)
      reads this`known, known
    {
      forall e :: e in known && e !in members ==> e.minHeapIdx == -1
    }

    /** The members are those of m, now laid out as r. */
    ghost predicate LaidOut(m: seq<Entry<Event>>, r: seq<Entry<Event>>, hole: int)
      reads this, p, known
    {
      && 0 <= n <= a == p.Length <= UINT32_MAX && n <= INT_MAX + 1 && |m| == |r| == n
      && ItemsOf(m) <= known && Outside(ItemsOf(m)) && Holds(r, hole, ItemsOf(m))
    }

    /** The events whose positions a removal at i may write: all that stay, and the last one. */
    ghost function Touched(m: seq<Entry<Event>>, i: nat): set<Event>
      requires i < |m|
    {
      ItemsOf(m[..i] + m[i + 1..]) + {m[|m| - 1].item}
    }

    /** The heap held m, n has been decremented, and position i is a hole. */
    ghost predicate Parted(m: seq<Entry<Event>>, i: nat, r: seq<Entry<Event>>, hole: int)
      reads this, p, known
    {
      && 0 <= n < a == p.Length <= UINT32_MAX && n < INT_MAX
      && |m| == n + 1 && i < |m| && Ordered(m) && |r| == n
      && (forall j :: 0 <= j < |m| && j != i ==> m[j].item != m[i].item)
      && Touched(m, i) <= ItemsOf(m) <= known
      && Outside(ItemsOf(m))
      && Holds(r, hole, Touched(m, i))
    }

    lemma MembersOf(m: seq<Entry<Event>>)
      requires Shape() && m == Contents()
      ensures ItemsOf(m) <= known && Outside(ItemsOf(m))
      ensures forall j :: 0 <= j < n ==> m[j].item in ItemsOf(m)
    {
      forall j | 0 <= j < n
        ensures m[j].item in ItemsOf(m)
      {
      }
      forall x | x in known && x.minHeapIdx != -1
        ensures x in ItemsOf(m)
      {
        assert m[x.minHeapIdx].item == x;
      }
    }

    lemma HoleAt(m: seq<Entry<Event>>, i: nat)
      requires Shape() && m == Contents() && i < n
      ensures Touched(m, i) <= ItemsOf(m)
      ensures Holds(m[..n - 1], i, Touched(m, i))
      ensures forall j :: 0 <= j < n && j != i ==> m[j].item != m[i].item
      ensures forall j :: 0 <= j < n - 1 ==> m[j].item != m[n - 1].item
    {
      MembersOf(m);
      ItemsOfOthers(m, i);
    }

    /** `last = s->p[--s->n]` */
    method Part(i: int, ghost m: seq<Entry<Event>>) returns (last: Event)
      requires Valid() && 0 <= i < n && m == Contents()
      modifies this`n
      ensures n == old(n) - 1
      ensures Parted(m, i, m[..n], i) && last == m[n].item && last.Entry() == m[n] && p[0] == m[0].item
      ensures forall j :: 0 <= j < n && j != i ==> m[j].item != last
    {
      MembersOf(m);
      HoleAt(m, i);
      n := n - 1;
      last := p[n];
    }

    /** No sift down moves more than floor(log2 n) events, the placed one being one of the n. */
    lemma FewMovesDown(h: seq<Entry<Event>>, i: nat, x: Entry<Event>)
      requires i <= |h|
      ensures Pow2(DownMoves(h, i, x)) <= |h| + 1
      ensures i < |h| ==> Pow2(DownMoves(h, i, x)) <= |h|
    {
      if i < |h| {
        DownMovesLogarithmic(h, i, x);
        assert Pow2(DownMoves(h, i, x)) <= Pow2(DownMoves(h, i, x)) * (i + 1);
      }
    }

    method RefillDown(i: int, last: Event, ghost m: seq<Entry<Event>>) returns (ghost moves: nat)
      requires 0 <= i < |m| && Parted(m, i, m[..|m| - 1], i) && last == m[n].item && last.Entry() == m[n]
      requires forall j :: 0 <= j < n && j != i ==> m[j].item != last
      modifies p, Touched(m, i)`minHeapIdx
      ensures Parted(m, i, SiftDown(m[..n], i, m[n]), -1)
      ensures Pow2(moves) <= |m|
    {
      moves := ShiftDown(i, last, m[..n], Touched(m, i));
      FewMovesDown(m[..n], i, m[n]);
    }

    method RefillUp(i: int, last: Event, ghost m: seq<Entry<Event>>) returns (ghost moves: nat)
      requires 0 < i < |m| - 1 && Parted(m, i, m[..|m| - 1], i) && last == m[n].item && last.Entry() == m[n]
      requires forall j :: 0 <= j < n && j != i ==> m[j].item != last
      modifies p, Touched(m, i)`minHeapIdx
      ensures Parted(m, i, SiftUpUnconditional(m[..n], i, m[n]), -1)
      ensures Pow2(moves) <= |m|
    {
      moves := ShiftUpUnconditional(i, last, m[..n], Touched(m, i));
      UnconditionalMovesLogarithmic(m[..n], i, m[n]);
    }

    /** The store `e->min_heap_idx = -1` that ends a removal, once the sift is done. */
    method Forget(e: Event, ghost m: seq<Entry<Event>>, ghost i: nat)
      requires i < |m| && Parted(m, i, HeapSpec.Erase(m, i), -1) && e == m[i].item
      modifies e`minHeapIdx
      ensures Valid() && Contents() == HeapSpec.Erase(m, i)
      ensures e.minHeapIdx == -1
    {
      ghost var r := HeapSpec.Erase(m, i);
      EraseCorrect(m, i);
      EraseItems(m, i);
      ItemsOfOthers(m, i);
      assert e !in ItemsOf(r);
      forall j | 0 <= j < n
        ensures r[j].item in ItemsOf(r)
      {
      }
      e.minHeapIdx := -1;
      forall x | x in known && x !in ItemsOf(r)
        ensures x.minHeapIdx == -1
      {
        if x in ItemsOf(m) {
          var j :| 0 <= j < |m| && m[j].item == x;
        }
      }
      Reseat(r);
    }

    /** The heap is one HeapRuns speaks of, and the position an event stores is the one it is found at. */
    lemma PositionIsFound(e: Event)
      requires Valid() && e in known
      ensures HeapRuns.Good(Contents())
      ensures e.minHeapIdx != -1 <==> e in ItemsOf(Contents())
      ensures e.minHeapIdx != -1 ==> HeapRuns.Find(Contents(), e) == e.minHeapIdx
    {
      var m := Contents();
      MembersOf(m);
      forall i, j | 0 <= i < j < n
        ensures m[i].item != m[j].item
      {
        assert m[i].item.minHeapIdx == i && m[j].item.minHeapIdx == j;
      }
      if e.minHeapIdx != -1 {
        assert m[e.minHeapIdx].item == e;
        assert m[HeapRuns.Find(m, e)].item.minHeapIdx == HeapRuns.Find(m, e);
      }
    }

    // ---------- The operations ----------

    /** min_heap_elem_init_, for an event that is in no heap. */
    method ElemInit(e: Event)
      requires Valid() && e !in known
      modifies this`known, e`minHeapIdx
      ensures Valid() && known == old(known) + {e} && e.minHeapIdx == -1
      ensures Contents() == old(Contents())
    {
      e.minHeapIdx := -1;
      known := known + {e};
      assert Contents() == old(Contents());
    }

    /** min_heap_empty_ */
    method Empty() returns (empty: bool)
      requires Shape()
      ensures empty <==> Contents() == []
    {
      empty := n == 0;
    }

    /** min_heap_top_: null exactly when empty, else an event no other event is due before. */
    method Top() returns (e: Event?)
      requires Valid()
      ensures e == null <==> Contents() == []
      ensures e != null ==> e == Contents()[0].item && e.minHeapIdx == 0
      ensures e != null ==> forall j :: 0 <= j < n ==> !Greater(e.Entry(), Contents()[j])
    {
      if n == 0 {
        return null;
      }
      e := p[0];
      forall j | 0 <= j < n
        ensures !Greater(e.Entry(), Contents()[j])
      {
        RootIsMinimum(Contents(), j);
      }
    }

    /** Whether min_heap_revserse_ finds or gets room; `alloc` is what the allocator answers. */
    ghost predicate Grants(need: int, alloc: bool)
      requires 0 <= a <= UINT32_MAX
      reads this
    {
      need <= a || (RequestFits(NewCapacity(a, need), sizeIs32) && alloc)
    }

    lemma GrantsIs(need: int, alloc: bool)
      requires 0 <= a <= UINT32_MAX && 0 <= need <= UINT32_MAX
      ensures Grants(need, alloc) <==>
              need <= a || (alloc && (!sizeIs32 || 4 * NewCapacity(a, need) <= 0xFFFF_FFFF))
    {
      if a < need {
        NewCapacitySuffices(a, need);
        RequestFitsInSize(NewCapacity(a, need), sizeIs32);
      }
    }

    /** min_heap_revserse_ */
    method Reserve(need: int, alloc: bool) returns (code: int)
      requires Shape() && 0 <= need <= UINT32_MAX
      modifies this`p, this`a, this`copied
      ensures Shape() && Contents() == old(Contents())
      ensures copied == old(copied) + if code == 0 && old(a) < need then old(a) else 0
      ensures code == if need <= old(a) || (alloc && (!sizeIs32 || 4 * NewCapacity(old(a), need) <= 0xFFFF_FFFF)) then 0 else -1
      ensures code == if old(Grants(need, alloc)) then 0 else -1
      ensures code == 0 ==> need <= a
      ensures code == 0 && old(a) < need ==> a == NewCapacity(old(a), need) && fresh(p)
      ensures code != 0 || need <= old(a) ==> p == old(p) && a == old(a)
    {
      if a < need {
        NewCapacitySuffices(a, need);
        var newA := if a != 0 then U32(a * 2) else 8;
        if newA < need {
          newA := need;
        }
        if sizeIs32 && newA > UINT32_MAX / 4 {
          return -1;
        }
        if !alloc {
          return -1;
        }
        ghost var m := Contents();
        var q := new Event?[newA];
        forall j | 0 <= j < a {
          q[j] := p[j];
        }
        copied := copied + a;
        a := newA;
        p := q;
        assert Contents() == m;
      }
      return 0;
    }

    /** min_heap_push_ */
    method Push(e: Event, alloc: bool) returns (code: int, ghost moves: nat)
      requires Valid() && e in known && e.minHeapIdx == -1
      modifies this`p, this`a, this`n, this`copied, this`stored, p, known`minHeapIdx
      ensures p == old(p) || fresh(p)
      ensures Shape() && Ordered(Contents())
      ensures code == if old(n) < old(a) || (alloc && (!sizeIs32 || 4 * NewCapacity(old(a), old(n) + 1) <= 0xFFFF_FFFF))
                      then 0 else -1
      ensures code == 0 ==> Contents() == HeapSpec.Push(old(Contents()), e.Entry())
      ensures code != 0 ==> Contents() == old(Contents()) && n == old(n) && a == old(a) && e.minHeapIdx == -1
      ensures code == 0 ==> a == if old(a) < old(n) + 1 then NewCapacity(old(a), old(n) + 1) else old(a)
      ensures Account() == HeapGrowth.Step(old(Account()), if code == 0 then HeapGrowth.Store else HeapGrowth.Refuse)
      ensures old(Paid()) ==> Paid()
      ensures if code == 0 then Pow2(moves) <= n else moves == 0
    {
      GrantsIs(n + 1, alloc);
      code, moves := PushEvent(e, alloc);
      if old(Paid()) {
        HeapGrowth.StepKeepsAffordable(old(Account()), if code == 0 then HeapGrowth.Store else HeapGrowth.Refuse);
      }
    }

    /** The body of min_heap_push_. */
    method PushEvent(e: Event, alloc: bool) returns (code: int, ghost moves: nat)
      requires Valid() && e in known && e.minHeapIdx == -1
      modifies this`p, this`a, this`n, this`copied, this`stored, p, known`minHeapIdx
      ensures p == old(p) || fresh(p)
      ensures Shape() && Ordered(Contents())
      ensures code == if old(Grants(n + 1, alloc)) then 0 else -1
      ensures code == 0 ==> Contents() == HeapSpec.Push(old(Contents()), e.Entry()) && stored == old(stored) + 1
      ensures code != 0 ==> Contents() == old(Contents()) && stored == old(stored) && e.minHeapIdx == -1
      ensures a == if code == 0 && old(a) < old(n) + 1 then NewCapacity(old(a), old(n) + 1) else old(a)
      ensures copied == if code == 0 && old(a) < old(n) + 1 then old(copied) + old(a) else old(copied)
      ensures if code == 0 then n == old(n) + 1 && Pow2(moves) <= n else n == old(n) && moves == 0
    {
      code, moves := -1, 0;
      if n != UINT32_MAX {
        code := MakeRoom(alloc);
      }
      if code == 0 {
        moves := Append(e);
      }
    }

    /** The reservation min_heap_push_ makes. */
    method MakeRoom(alloc: bool) returns (code: int)
      requires Valid()
      modifies this`p, this`a, this`copied
      ensures Valid() && Contents() == old(Contents()) && (p == old(p) || fresh(p))
      ensures code == if old(Grants(n + 1, alloc)) then 0 else -1
      ensures code == 0 ==> n < p.Length
      ensures a == if code == 0 && old(a) < n + 1 then NewCapacity(old(a), n + 1) else old(a)
      ensures copied == if code == 0 && old(a) < n + 1 then old(copied) + old(a) else old(copied)
    {
      code := Reserve(n + 1, alloc);
    }

    /** `s->n++`, which makes the first unused cell the hole. */
    method Extend(e: Event, ghost m: seq<Entry<Event>>)
      requires Valid() && e in known && e.minHeapIdx == -1 && n < p.Length && m == Contents()
      modifies this`n, this`stored
      ensures n == old(n) + 1 && stored == old(stored) + 1
      ensures LaidOut(m + [e.Entry()], m + [e.Entry()], n - 1)
      ensures e in ItemsOf(m + [e.Entry()]) && forall j :: 0 <= j < n - 1 ==> m[j].item != e
    {
      MembersOf(m);
      ItemsOfAppend(m, e.Entry());
      n := n + 1;
      stored := stored + 1;
    }

    method PlaceLast(e: Event, ghost m: seq<Entry<Event>>) returns (ghost moves: nat)
      requires |m| > 0 && LaidOut(m, m, n - 1) && e in ItemsOf(m) && m[n - 1] == e.Entry()
      requires forall j :: 0 <= j < n - 1 ==> m[j].item != e
      modifies p, known`minHeapIdx
      ensures LaidOut(m, SiftUp(m, n - 1, m[n - 1]), -1)
      ensures Pow2(moves) <= n
    {
      moves := ShiftUp(n - 1, e, m, ItemsOf(m));
      UpMovesLogarithmic(m, n - 1, m[n - 1]);
    }

    /** `min_heap_shift_up_(s, s->n++, e)`, there being room. */
    method Append(e: Event) returns (ghost moves: nat)
      requires Valid() && e in known && e.minHeapIdx == -1 && n < p.Length
      modifies this`n, this`stored, p, known`minHeapIdx
      ensures Shape() && Ordered(Contents())
      ensures Contents() == HeapSpec.Push(old(Contents()), e.Entry())
      ensures stored == old(stored) + 1 && Pow2(moves) <= n
    {
      ghost var m := Contents();
      Extend(e, m);
      moves := PlaceLast(e, m + [e.Entry()]);
      PushCorrect(m, e.Entry());
      PermutationKeepsItems(m + [e.Entry()], HeapSpec.Push(m, e.Entry()));
      Reseat(HeapSpec.Push(m, e.Entry()));
    }

    /** min_heap_pop_ */
    method Pop() returns (e: Event?, ghost moves: nat)
      requires Valid()
      modifies this`n, p, known`minHeapIdx
      ensures Valid()
      ensures e == null <==> old(Contents()) == []
      ensures e == null ==> Contents() == []
      ensures e != null ==> e == old(Contents())[0].item && e.minHeapIdx == -1
      ensures e != null ==> Contents() == HeapSpec.Pop(old(Contents()))
      ensures Account() == HeapGrowth.Step(old(Account()), HeapGrowth.Remove)
      ensures old(Paid()) ==> Paid()
      ensures if e == null then moves == 0 else Pow2(moves) <= old(n)
    {
      if n == 0 {
        return null, 0;
      }
      ghost var m := Contents();
      e := p[0];
      var last := Part(0, m);
      moves := RefillDown(0, last, m);
      Forget(e, m, 0);
      if old(Paid()) {
        HeapGrowth.StepKeepsAffordable(old(Account()), HeapGrowth.Remove);
      }
    }

    /** min_heap_erase_ */
    method Erase(e: Event) returns (code: int, ghost moves: nat)
      requires Valid() && e in known
      modifies this`n, p, known`minHeapIdx
      ensures Valid() && e.minHeapIdx == -1
      ensures code == if old(e.minHeapIdx) != -1 then 0 else -1
      ensures old(e.minHeapIdx) == -1 ==> Contents() == old(Contents())
      ensures old(e.minHeapIdx) != -1 ==> Contents() == HeapSpec.Erase(old(Contents()), old(e.minHeapIdx))
      ensures Account() == HeapGrowth.Step(old(Account()), if code == 0 then HeapGrowth.Remove else HeapGrowth.Refuse)
      ensures old(Paid()) ==> Paid()
      ensures if code == 0 then Pow2(moves) <= old(n) else moves == 0
    {
      if -1 == e.minHeapIdx {
        return -1, 0;
      }
      moves := EraseMember(e);
      code := 0;
      if old(Paid()) {
        HeapGrowth.StepKeepsAffordable(old(Account()), HeapGrowth.Remove);
      }
    }

    /** The branch of min_heap_erase_ for an event inside the heap. */
    method EraseMember(e: Event) returns (ghost moves: nat)
      requires Valid() && e in known && e.minHeapIdx != -1
      modifies this`n, p, known`minHeapIdx
      ensures Valid() && e.minHeapIdx == -1
      ensures Contents() == HeapSpec.Erase(old(Contents()), old(e.minHeapIdx))
      ensures n == old(n) - 1 && Pow2(moves) <= old(n)
    {
      ghost var m := Contents();
      var i := e.minHeapIdx;
      var last := Part(i, m);
      moves := Refill(i, last, m);
      Forget(e, m, i);
    }

    /** The choice of direction, and the sift, of min_heap_erase_. */
    method Refill(i: int, last: Event, ghost m: seq<Entry<Event>>) returns (ghost moves: nat)
      requires 0 <= i < |m| && Parted(m, i, m[..|m| - 1], i) && last == m[n].item && last.Entry() == m[n]
      requires forall j :: 0 <= j < n && j != i ==> m[j].item != last
      modifies p, Touched(m, i)`minHeapIdx
      ensures Parted(m, i, HeapSpec.Erase(m, i), -1)
      ensures Pow2(moves) <= |m|
    {
      var parent := (i - 1) / 2;
      assert i > 0 ==> parent == Parent(i) && p[parent].Entry() == m[parent];
      if i > 0 && TimerCmp(p[parent].timeout, last.timeout, Gt) {
        EraseUpIsPrefix(m, i);
        moves := RefillUp(i, last, m);
      } else {
        EraseDownIsPrefix(m, i);
        moves := RefillDown(i, last, m);
      }
    }

    /** min_heap_adjust_: for an event outside the heap a push, for one inside it the repair of any
        change of its timeout. */
    method Adjust(e: Event, alloc: bool) returns (code: int, ghost moves: nat)
      requires Shape() && n <= INT_MAX && e in known
      requires e.minHeapIdx == -1 ==> Ordered(Contents())
      requires e.minHeapIdx != -1 ==> OrderedExceptAt(Contents(), e.minHeapIdx)
      modifies this`p, this`a, this`n, this`copied, this`stored, p, known`minHeapIdx
      ensures p == old(p) || fresh(p)
      ensures Shape() && Ordered(Contents())
      ensures old(e.minHeapIdx) == -1 ==>
                code == if old(n) < old(a) || (alloc && (!sizeIs32 || 4 * NewCapacity(old(a), old(n) + 1) <= 0xFFFF_FFFF))
                        then 0 else -1
      ensures old(e.minHeapIdx) == -1 && code == 0 ==> Contents() == HeapSpec.Push(old(Contents()), e.Entry())
      ensures old(e.minHeapIdx) == -1 && code != 0 ==> Contents() == old(Contents())
      ensures old(e.minHeapIdx) != -1 ==>
                code == 0 && Contents() == HeapSpec.Adjust(old(Contents()), old(e.minHeapIdx))
      ensures old(e.minHeapIdx) == -1 && code == 0 ==>
                a == if old(a) < old(n) + 1 then NewCapacity(old(a), old(n) + 1) else old(a)
      ensures Account() == HeapGrowth.Step(old(Account()),
                if old(e.minHeapIdx) == -1 && code == 0 then HeapGrowth.Store else HeapGrowth.Refuse)
      ensures old(Paid()) ==> Paid()
      ensures if code == 0 then Pow2(moves) <= n else moves == 0
    {
      if -1 == e.minHeapIdx {
        code, moves := Push(e, alloc);
        return;
      }
      moves := Restore(e);
      code := 0;
    }

    lemma RestoreSetup(e: Event)
      requires Shape() && n <= INT_MAX && e in known && e.minHeapIdx != -1
      ensures var m := Contents(); var i := e.minHeapIdx;
              && 0 <= i < n && m[i] == e.Entry() && e in ItemsOf(m)
              && LaidOut(m, m, i)
              && (forall j :: 0 <= j < n && j != i ==> m[j].item != e)
    {
      MembersOf(Contents());
    }

    method ReorderUp(i: int, e: Event, ghost m: seq<Entry<Event>>) returns (ghost moves: nat)
      requires n <= INT_MAX && 0 < i < |m| && LaidOut(m, m, i) && e in ItemsOf(m) && m[i] == e.Entry()
      requires forall j :: 0 <= j < n && j != i ==> m[j].item != e
      modifies p, known`minHeapIdx
      ensures LaidOut(m, SiftUpUnconditional(m, i, m[i]), -1)
      ensures Pow2(moves) <= n
    {
      moves := ShiftUpUnconditional(i, e, m, ItemsOf(m));
      UnconditionalMovesLogarithmic(m, i, m[i]);
    }

    method ReorderDown(i: int, e: Event, ghost m: seq<Entry<Event>>) returns (ghost moves: nat)
      requires n <= INT_MAX && 0 <= i < |m| && LaidOut(m, m, i) && e in ItemsOf(m) && m[i] == e.Entry()
      requires forall j :: 0 <= j < n && j != i ==> m[j].item != e
      modifies p, known`minHeapIdx
      ensures LaidOut(m, SiftDown(m, i, m[i]), -1)
      ensures Pow2(moves) <= n
    {
      moves := ShiftDown(i, e, m, ItemsOf(m));
      FewMovesDown(m, i, m[i]);
    }

    /** The branch of min_heap_adjust_ for an event inside the heap. */
    method Restore(e: Event) returns (ghost moves: nat)
      requires Shape() && n <= INT_MAX && e in known && e.minHeapIdx != -1
      requires OrderedExceptAt(Contents(), e.minHeapIdx)
      modifies p, known`minHeapIdx
      ensures Valid() && Contents() == HeapSpec.Adjust(old(Contents()), old(e.minHeapIdx))
      ensures Pow2(moves) <= n
    {
      ghost var m := Contents();
      var i := e.minHeapIdx;
      RestoreSetup(e);
      var parent := (i - 1) / 2;
      assert i > 0 ==> parent == Parent(i) && p[parent].Entry() == m[parent];
      if i > 0 && TimerCmp(p[parent].timeout, e.timeout, Gt) {
        assert HeapSpec.Adjust(m, i) == SiftUpUnconditional(m, i, m[i]);
        moves := ReorderUp(i, e, m);
      } else {
        assert HeapSpec.Adjust(m, i) == SiftDown(m, i, m[i]);
        moves := ReorderDown(i, e, m);
      }
      AdjustCorrect(m, i);
      PermutationKeepsItems(m, HeapSpec.Adjust(m, i));
      Reseat(HeapSpec.Adjust(m, i));
    }

    // ---------- What a client sees ----------

    /** However it got there: a heap changed by nothing but its operations has copied fewer than two elements
        for every event it has ever stored. */
    lemma CopiesAreFew()
      requires Shape() && Paid() && 0 < stored
      ensures copied < 2 * stored
    {
      HeapGrowth.AffordableIsCheap(Account());
    }

    lemma Emptied()
      requires Shape() && n == 0
      ensures Contents() == [] && forall e :: e in known ==> e.minHeapIdx == -1
    {
    }

    /** Pop for a client that keeps popping: the first of what is still to come is out. */
    method PopNext() returns (e: Event)
      requires Valid() && n != 0
      modifies this`n, p, known`minHeapIdx
      ensures Valid() && n == old(n) - 1
      ensures var order := Drain(old(Contents())); order != [] && e == order[0].item && order[1..] == Drain(Contents())
    {
      ghost var moves;
      e, moves := Pop();
    }

    method PopRest() returns (popped: seq<Event>)
      requires Valid()
      modifies this`n, p, known`minHeapIdx
      ensures Valid() && n == 0
      ensures Items(Drain(old(Contents()))) == popped
      decreases n
    {
      if n == 0 {
        popped := [];
      } else {
        var e := PopNext();
        popped := PopRest();
        popped := [e] + popped;
      }
    }

    /** A client that pops until the heap is empty gets its events in nondecreasing timeout order, each
        once, and leaves no event with a position. */
    method PopAll() returns (popped: seq<Event>, ghost order: seq<Entry<Event>>)
      requires Valid()
      modifies this`n, p, known`minHeapIdx
      ensures Valid() && Contents() == [] && forall e :: e in known ==> e.minHeapIdx == -1
      ensures Sorted(order) && multiset(order) == multiset(old(Contents())) && popped == Items(order)
    {
      order := Drain(Contents());
      DrainSorts(Contents());
      popped := PopRest();
      Emptied();
    }
  }

  function Items(s: seq<Entry<Event>>): (items: seq<Event>)
    ensures |items| == |s| && forall i :: 0 <= i < |s| ==> items[i] == s[i].item
  {
    if s == [] then [] else [s[0].item] + Items(s[1..])
  }
}
