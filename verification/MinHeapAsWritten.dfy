/** The text of src/event2/minheap-internal.h:65-121 and 145-185 with none of its lines repaired: for each
    operation, exactly when it does what it is for. The heap is a value here, so that whole memories
    can be compared; reaching outside the array or through a null pointer is a Fault. */
module MinHeapAsWritten {
  import opened Options
  import opened Timevals
  import opened HeapSpec
  import opened HeapProofs
  import opened HeapWords

  /** The array with its unused cells, the number of live cells, and the position each event stores. */
  datatype Heap<T> = Heap(p: seq<Option<Entry<T>>>, n: nat, idx: map<T, int>) {
    ghost predicate Sized() {
      n <= |p| <= INT_MAX && forall j :: 0 <= j < n ==> p[j].Some?
    }

    ghost function Live(): (h: seq<Entry<T>>)
      requires Sized()
      ensures |h| == n
    {
      seq(n, j requires 0 <= j < n => p[j].value)
    }

    /** Positions and back-pointers agree, in both directions. */
    ghost predicate Linked() {
      && Sized()
      && (forall j :: 0 <= j < n ==> p[j].value.item in idx && idx[p[j].value.item] == j)
      && (forall e :: e in idx && idx[e] != -1 ==> 0 <= idx[e] < n && p[idx[e]].value.item == e)
    }

    ghost predicate Valid() {
      Linked() && Ordered(Live())
    }

    /** `(s->p[i] = x)->ev_timeout_pos.min_heap_idx = k` */
    function Put(i: nat, x: Entry<T>, k: int): Heap<T>
      requires i < |p|
    {
      Heap(p[i := Some(x)], n, idx[x.item := k])
    }
  }

  datatype Outcome<T> = Fault | Done(heap: Heap<T>, code: int)

  // ---------- min_heap_top_ and min_heap_pop_ ----------

  datatype Answer<T> = NullPointer | Found(item: T) | Wild

  function Top<T>(s: Heap<T>): Answer<T> {
    if s.n != 0 then NullPointer
    else if |s.p| == 0 || s.p[0].None? then Wild
    else Found(s.p[0].value.item)
  }

  ghost predicate TopMeets<T>(s: Heap<T>)
    requires s.Valid()
  {
    Top(s) == if s.n == 0 then NullPointer else Found(s.p[0].value.item)
  }

  /** The test is the wrong way round: no heap gets the right answer. */
  lemma TopNeverMeets<T>(s: Heap<T>)
    requires s.Valid()
    ensures !TopMeets(s)
  {
  }

  function Pop<T>(s: Heap<T>): Outcome<T>
    requires s.n <= |s.p| && forall j :: 0 <= j < s.n ==> s.p[j].Some?
  {
    if s.n > 0 then
      match ShiftDown(s.(n := s.n - 1), 0, s.p[s.n - 1].value)
      case Fault => Fault
      case Done(s', _) =>
        // e->ev_timeout_pos.min_heap_idx = -1, through what min_heap_top_ answered
        match Top(s)
        case NullPointer => Fault
        case Wild => Fault
        case Found(e) => Done(s'.(idx := s'.idx[e := -1]), 0)
    else Done(s, 0)
  }

  /** Pop faults exactly when there is something to pop. */
  lemma PopFaultsIffNonempty<T>(s: Heap<T>)
    requires s.Valid()
    ensures Pop(s) == Fault <==> s.n > 0
    ensures Pop(s) != Fault ==> Pop(s) == Done(s, 0)
  {
  }

  // ---------- min_heap_shift_up_ and min_heap_push_ ----------

  /** Stores e in the parent, and its position as the hole. */
  function ShiftUp<T>(s: Heap<T>, hole: nat, x: Entry<T>): Outcome<T>
    requires hole <= UINT32_MAX
    decreases hole
  {
    var parent := ParentWord(hole);
    if hole > 0 then
      if parent >= |s.p| || s.p[parent].None? then Fault
      else if Greater(s.p[parent].value, x) then ShiftUp(s.Put(parent, x, hole), parent, x)
      else Done(s.Put(parent, x, hole), 0)
    else if parent >= |s.p| then Fault
    else Done(s.Put(parent, x, hole), 0)
  }

  /** `granted`: min_heap_revserse_ returned 0, having left a cell unused. */
  function Push<T>(s: Heap<T>, x: Entry<T>, granted: bool): Outcome<T>
    requires s.n <= UINT32_MAX
  {
    if !granted then Done(s, -1)
    else
      match ShiftUp(s.(n := s.n + 1), s.n, x)
      case Fault => Fault
      case Done(s', _) => Done(s', 0)
  }

  ghost predicate PushMeets<T>(s: Heap<T>, x: Entry<T>, granted: bool)
    requires s.Valid() && (granted ==> s.n < |s.p|)
  {
    match Push(s, x, granted)
    case Fault => false
    case Done(s', code) =>
      s'.Valid() &&
      if granted then code == 0 && multiset(s'.Live()) == multiset(s.Live()) + multiset{x}
      else code == -1 && s' == s
  }

  /** Whatever the sift does, it ends with e one level above the position e is told. */
  lemma {:induction false} ShiftUpBreaksLinks<T>(s: Heap<T>, hole: nat, x: Entry<T>)
    requires hole < s.n <= |s.p| <= INT_MAX
    ensures ShiftUp(s, hole, x).Done? ==> !ShiftUp(s, hole, x).heap.Linked()
    decreases hole
  {
    WordsAreExactUpTo(hole);
    var parent := ParentWord(hole);
    if hole > 0 && parent < |s.p| && s.p[parent].Some? {
      if Greater(s.p[parent].value, x) {
        ShiftUpBreaksLinks(s.Put(parent, x, hole), parent, x);
      } else {
        var s' := s.Put(parent, x, hole);
        assert s'.p[parent].value.item == x.item && s'.idx[x.item] == hole;
      }
    }
  }

  /** As written, a push does its work exactly when it refuses to. */
  lemma PushMeetsIffRefused<T>(s: Heap<T>, x: Entry<T>, granted: bool)
    requires s.Valid() && (granted ==> s.n < |s.p|)
    requires x.item in s.idx && s.idx[x.item] == -1
    ensures PushMeets(s, x, granted) <==> !granted
  {
    if granted {
      ShiftUpBreaksLinks(s.(n := s.n + 1), s.n, x);
    }
  }

  /** The first push reaches cell 2^31 - 1 of an array of eight. */
  lemma FirstPushFaults<T>(e: T, key: Timeval)
    ensures Push(Heap(seq(8, _ => None), 0, map[e := -1]), Entry(e, key), true) == Fault
  {
  }

  // ---------- min_heap_shift_down_ ----------

  /** The final store goes to min_child. */
  function ShiftDown<T>(s: Heap<T>, hole: nat, x: Entry<T>): Outcome<T>
    requires s.n <= |s.p| && hole <= s.n && forall j :: 0 <= j < s.n ==> s.p[j].Some?
    decreases s.n - hole
  {
    var c := 2 * hole + 2;
    if c <= s.n then
      var child := if c == s.n || Greater(s.p[c].value, s.p[c - 1].value) then c - 1 else c;
      if !Greater(x, s.p[child].value) then Done(s.Put(child, x, hole), 0)
      else ShiftDown(s.Put(hole, s.p[child].value, hole), child, x)
    else if c >= |s.p| then Fault
    else Done(s.Put(c, x, hole), 0)
  }

  /** x is told a live position, and is not there. */
  ghost predicate Misplaced<T>(s: Heap<T>, x: Entry<T>) {
    && s.Sized() && x.item in s.idx && 0 <= s.idx[x.item] < s.n
    && s.p[s.idx[x.item]].value.item != x.item
  }

  lemma {:induction false} ShiftDownMisplaces<T>(s: Heap<T>, hole: nat, x: Entry<T>)
    requires s.Sized() && hole < s.n
    requires forall j :: hole <= j < s.n ==> s.p[j].value.item != x.item
    ensures ShiftDown(s, hole, x).Done? ==> Misplaced(ShiftDown(s, hole, x).heap, x)
    decreases s.n - hole
  {
    var c := 2 * hole + 2;
    if c <= s.n {
      var child := if c == s.n || Greater(s.p[c].value, s.p[c - 1].value) then c - 1 else c;
      if Greater(x, s.p[child].value) {
        ShiftDownMisplaces(s.Put(hole, s.p[child].value, hole), child, x);
      }
    }
  }

  /** When the hole holds x and has a child, x ends up in a cell it does not know of, or misplaced. */
  lemma ShiftDownDuplicates<T>(s: Heap<T>, hole: nat, x: Entry<T>)
    requires s.Linked() && hole < s.n && 2 * hole + 2 <= s.n && s.p[hole].value == x
    ensures ShiftDown(s, hole, x).Done? ==> !ShiftDown(s, hole, x).heap.Linked()
  {
    var c := 2 * hole + 2;
    var child := if c == s.n || Greater(s.p[c].value, s.p[c - 1].value) then c - 1 else c;
    if Greater(x, s.p[child].value) {
      ShiftDownMisplaces(s.Put(hole, s.p[child].value, hole), child, x);
    } else {
      assert s.Put(child, x, hole).p[child].value == x;
    }
  }

  // ---------- min_heap_shift_up_unconditional_, which is right ----------

  function ShiftUpLoop<T>(s: Heap<T>, hole: nat, x: Entry<T>): Heap<T>
    requires s.n <= |s.p| && hole < s.n && forall j :: 0 <= j < s.n ==> s.p[j].Some?
    decreases hole
  {
    if hole > 0 && Greater(s.p[Parent(hole)].value, x)
    then ShiftUpLoop(s.Put(hole, s.p[Parent(hole)].value, hole), Parent(hole), x)
    else s.Put(hole, x, hole)
  }

  function ShiftUpUnconditional<T>(s: Heap<T>, hole: nat, x: Entry<T>): Heap<T>
    requires s.n <= |s.p| && 0 < hole < s.n && forall j :: 0 <= j < s.n ==> s.p[j].Some?
  {
    ShiftUpLoop(s.Put(hole, s.p[Parent(hole)].value, hole), Parent(hole), x)
  }

  /** Linked but for the hole, and x in no other cell. */
  ghost predicate LinkedBut<T>(s: Heap<T>, hole: nat, x: Entry<T>) {
    && s.Sized() && hole < s.n
    && (forall j :: 0 <= j < s.n && j != hole ==> s.p[j].value.item in s.idx && s.idx[s.p[j].value.item] == j)
    && (forall e :: e in s.idx && e != x.item && s.idx[e] != -1 ==>
          0 <= s.idx[e] < s.n && s.idx[e] != hole && s.p[s.idx[e]].value.item == e)
    && (forall j :: 0 <= j < s.n && j != hole ==> s.p[j].value.item != x.item)
  }

  lemma {:induction false} ShiftUpLoopLinks<T>(s: Heap<T>, hole: nat, x: Entry<T>)
    requires LinkedBut(s, hole, x)
    ensures ShiftUpLoop(s, hole, x).Linked()
    ensures ShiftUpLoop(s, hole, x).Live() == SiftUp(s.Live(), hole, x)
    ensures ShiftUpLoop(s, hole, x).n == s.n
    decreases hole
  {
    if hole > 0 && Greater(s.p[Parent(hole)].value, x) {
      var s1 := s.Put(hole, s.p[Parent(hole)].value, hole);
      assert s1.Live() == s.Live()[hole := s.Live()[Parent(hole)]];
      ShiftUpLoopLinks(s1, Parent(hole), x);
    } else {
      assert s.Put(hole, x, hole).Live() == s.Live()[hole := x];
    }
  }

  // ---------- min_heap_erase_ ----------

  lemma LastIsNotDueBeforeItsParent<T>(s: Heap<T>)
    requires s.Valid() && s.n > 1
    ensures !Greater(s.p[Parent(s.n - 1)].value, s.p[s.n - 1].value)
  {
    assert !Greater(s.Live()[Parent(s.n - 1)], s.Live()[s.n - 1]);
  }

  /** The branch that sifts up falls through to `return -1`, the position of e not reset. */
  function Erase<T>(s: Heap<T>, e: T): Outcome<T>
    requires s.Valid() && e in s.idx
  {
    var i := s.idx[e];
    if i == -1 then Done(s, -1)
    else
      var last := s.p[s.n - 1].value;
      var s1 := s.(n := s.n - 1);
      if i > 0 && Greater(s.p[Parent(i)].value, last) then
        LastIsNotDueBeforeItsParent(s);
        Done(ShiftUpUnconditional(s1, i, last), -1)
      else
        match ShiftDown(s1, i, last)
        case Fault => Fault
        case Done(s', _) => Done(s'.(idx := s'.idx[e := -1]), 0)
  }

  ghost predicate EraseMeets<T>(s: Heap<T>, e: T)
    requires s.Valid() && e in s.idx
  {
    match Erase(s, e)
    case Fault => false
    case Done(s', code) =>
      s'.Valid() && e in s'.idx && s'.idx[e] == -1 &&
      if s.idx[e] == -1 then code == -1 && s' == s
      else code == 0 && multiset(s.Live()) == multiset(s'.Live()) + multiset{s.p[s.idx[e]].value}
  }

  lemma EraseOfLastStores<T>(s: Heap<T>, e: T)
    requires s.Valid() && e in s.idx && s.idx[e] == s.n - 1 >= 0
    ensures Erase(s, e) ==
            if 2 * s.n < |s.p| then Done(Heap(s.p[2 * s.n := s.p[s.n - 1]], s.n - 1, s.idx[e := -1]), 0)
            else Fault
  {
    if s.n > 1 {
      LastIsNotDueBeforeItsParent(s);
    }
    assert s.idx[e := s.n - 1][e := -1] == s.idx[e := -1];
  }

  lemma LinksAfterEraseOfLast<T>(s: Heap<T>, e: T)
    requires s.Linked() && e in s.idx && s.idx[e] == s.n - 1 >= 0 && 2 * s.n < |s.p|
    ensures var s' := Heap(s.p[2 * s.n := s.p[s.n - 1]], s.n - 1, s.idx[e := -1]);
            s'.Linked() && s'.Live() == s.Live()[..s.n - 1]
  {
  }

  lemma EraseOfLast<T>(s: Heap<T>, e: T)
    requires s.Valid() && e in s.idx && s.idx[e] == s.n - 1 >= 0
    ensures EraseMeets(s, e) <==> 2 * s.n < |s.p|
  {
    EraseOfLastStores(s, e);
    if 2 * s.n < |s.p| {
      LinksAfterEraseOfLast(s, e);
      SplitLast(s.Live());
    }
  }

  lemma EraseOfInner<T>(s: Heap<T>, e: T)
    requires s.Valid() && e in s.idx && -1 != s.idx[e] < s.n - 1
    ensures !EraseMeets(s, e)
  {
    var i := s.idx[e];
    var last := s.p[s.n - 1].value;
    var s1 := s.(n := s.n - 1);
    if !(i > 0 && Greater(s.p[Parent(i)].value, last)) {
      ShiftDownMisplaces(s1, i, last);
      if ShiftDown(s1, i, last).Done? {
        assert Misplaced(Erase(s, e).heap, last);
      }
    }
  }

  /** As written, erasing does its work exactly for an event outside the heap, or for the last event
      when the stray store still falls inside the array. */
  lemma EraseMeetsIffLast<T>(s: Heap<T>, e: T)
    requires s.Valid() && e in s.idx
    ensures EraseMeets(s, e) <==> s.idx[e] == -1 || (s.idx[e] == s.n - 1 && 2 * s.n < |s.p|)
  {
    if s.idx[e] == s.n - 1 {
      if s.n > 0 {
        EraseOfLast(s, e);
      }
    } else if s.idx[e] != -1 {
      EraseOfInner(s, e);
    }
  }

  /** Erasing the root of two events leaves it in place and stores the other event outside the heap. */
  lemma EraseRootFails<T>(e: T, f: T, key: Timeval)
    requires e != f
    ensures var s := Heap([Some(Entry(e, key)), Some(Entry(f, key)), None], 2, map[e := 0, f := 1]);
            Erase(s, e) == Done(Heap([Some(Entry(e, key)), Some(Entry(f, key)), Some(Entry(f, key))], 1, map[e := -1, f := 0]), 0)
  {
  }

  /** Events 0 to 5, due at 0, 5, 1, 6, 7 and 2 seconds. */
  function SixEvents(): Heap<int> {
    Heap([Some(Entry(0, Timeval(0, 0))), Some(Entry(1, Timeval(5, 0))), Some(Entry(2, Timeval(1, 0))),
          Some(Entry(3, Timeval(6, 0))), Some(Entry(4, Timeval(7, 0))), Some(Entry(5, Timeval(2, 0)))],
         6, map[0 := 0, 1 := 1, 2 := 2, 3 := 3, 4 := 4, 5 := 5])
  }

  lemma SixEventsAreAHeap()
    ensures SixEvents().Valid()
  {
    var h := SixEvents().Live();
    forall j | 0 < j < |h|
      ensures !Greater(h[Parent(j)], h[j])
    {
      assert j == 1 || j == 2 || j == 3 || j == 4 || j == 5;
    }
  }

  /** Where the last event moves up: event 3 is gone from the array, but the caller is told -1, and the
      event that it still is at position 3, where the late event 1 now is. */
  lemma EraseUpFails()
    ensures SixEvents().Valid()
    ensures var o := Erase(SixEvents(), 3);
            && o.Done? && o.code == -1 && o.heap.idx[3] == 3 == o.heap.idx[1]
            && o.heap.p[3] == Some(Entry(1, Timeval(5, 0))) && o.heap.p[1] == Some(Entry(5, Timeval(2, 0)))
  {
    SixEventsAreAHeap();
    var s := SixEvents();
    var last := s.p[5].value;
    var s1 := s.(n := 5);
    var s2 := s1.Put(3, s1.p[1].value, 3);
    assert Greater(s.p[Parent(3)].value, last);
    assert !Greater(s2.p[Parent(1)].value, last);
    assert ShiftUpLoop(s2, 1, last) == s2.Put(1, last, 1);
  }

  // ---------- min_heap_adjust_ ----------

  function Adjust<T>(s: Heap<T>, e: T, key: Timeval, granted: bool): Outcome<T>
    requires s.Linked() && e in s.idx
    requires s.idx[e] != -1 ==> s.p[s.idx[e]].value.key == key
  {
    var i := s.idx[e];
    if i == -1 then Push(s, Entry(e, key), granted)
    else if i > 0 && Greater(s.p[Parent(i)].value, s.p[i].value) then
      Done(ShiftUpUnconditional(s, i, s.p[i].value), 0)
    else
      match ShiftDown(s, i, s.p[i].value)
      case Fault => Fault
      case Done(s', _) => Done(s', 0)
  }

  ghost predicate AdjustMeets<T>(s: Heap<T>, e: T, key: Timeval, granted: bool)
    requires s.Linked() && e in s.idx
    requires s.idx[e] != -1 ==> s.p[s.idx[e]].value.key == key
  {
    match Adjust(s, e, key, granted)
    case Fault => false
    case Done(s', code) =>
      s'.Valid() && code == 0 && multiset(s'.Live()) == multiset(s.Live())
  }

  lemma AdjustUpMeets<T>(s: Heap<T>, e: T, key: Timeval, granted: bool)
    requires s.Linked() && e in s.idx && s.idx[e] > 0 && s.p[s.idx[e]].value.key == key
    requires OrderedExceptAt(s.Live(), s.idx[e])
    requires Greater(s.p[Parent(s.idx[e])].value, s.p[s.idx[e]].value)
    ensures AdjustMeets(s, e, key, granted)
  {
    var i := s.idx[e];
    var x := s.p[i].value;
    var s1 := s.Put(i, s.p[Parent(i)].value, i);
    assert s1.Live() == s.Live()[i := s.Live()[Parent(i)]];
    ShiftUpLoopLinks(s1, Parent(i), x);
    AdjustCorrect(s.Live(), i);
  }

  /** A copy of a live event left outside the live cells does no harm. */
  lemma StoreBeyond<T>(s: Heap<T>, k: nat, i: nat)
    requires s.Linked() && i < s.n <= k < |s.p|
    ensures s.Put(k, s.p[i].value, i).Linked()
    ensures s.Put(k, s.p[i].value, i).Live() == s.Live()
  {
    assert s.idx[s.p[i].value.item := i] == s.idx;
  }

  lemma LeafInOrder<T>(h: seq<Entry<T>>, i: nat)
    requires i < |h| < 2 * i + 2 && OrderedExceptAt(h, i)
    requires !(i > 0 && Greater(h[Parent(i)], h[i]))
    ensures Ordered(h)
  {
    forall j | 0 < j < |h|
      ensures !Greater(h[Parent(j)], h[j])
    {
      assert Parent(j) != i;
    }
  }

  lemma AdjustLeafStores<T>(s: Heap<T>, e: T, key: Timeval, granted: bool)
    requires s.Linked() && e in s.idx && s.idx[e] != -1 && s.p[s.idx[e]].value.key == key
    requires s.n < 2 * s.idx[e] + 2
    requires !(s.idx[e] > 0 && Greater(s.p[Parent(s.idx[e])].value, s.p[s.idx[e]].value))
    ensures var i := s.idx[e];
            Adjust(s, e, key, granted) ==
            if 2 * i + 2 < |s.p| then Done(s.Put(2 * i + 2, s.p[i].value, i), 0) else Fault
  {
  }

  lemma AdjustLeaf<T>(s: Heap<T>, e: T, key: Timeval, granted: bool)
    requires s.Linked() && e in s.idx && s.idx[e] != -1 && s.p[s.idx[e]].value.key == key
    requires s.n < 2 * s.idx[e] + 2 < |s.p|
    requires Ordered(s.Live())
    ensures AdjustMeets(s, e, key, granted)
  {
    var i := s.idx[e];
    if i > 0 {
      assert !Greater(s.Live()[Parent(i)], s.Live()[i]);
    }
    AdjustLeafStores(s, e, key, granted);
    StoreBeyond(s, 2 * i + 2, i);
  }

  /** As written, adjusting an event inside the heap does its work exactly when the event moves up,
      or has no child and the stray store still falls inside the array. */
  lemma AdjustMeetsIff<T>(s: Heap<T>, e: T, key: Timeval, granted: bool)
    requires s.Linked() && e in s.idx && s.idx[e] != -1 && s.p[s.idx[e]].value.key == key
    requires OrderedExceptAt(s.Live(), s.idx[e])
    ensures AdjustMeets(s, e, key, granted) <==>
            (s.idx[e] > 0 && Greater(s.p[Parent(s.idx[e])].value, s.p[s.idx[e]].value)) ||
            s.n < 2 * s.idx[e] + 2 < |s.p|
  {
    var i := s.idx[e];
    var x := s.p[i].value;
    if i > 0 && Greater(s.p[Parent(i)].value, x) {
      AdjustUpMeets(s, e, key, granted);
    } else if 2 * i + 2 > s.n {
      AdjustLeafStores(s, e, key, granted);
      if 2 * i + 2 < |s.p| {
        LeafInOrder(s.Live(), i);
        AdjustLeaf(s, e, key, granted);
      }
    } else {
      ShiftDownDuplicates(s, i, x);
    }
  }

  /** Adjusting the root of two events, its timeout unchanged, stores it over the other, which is lost. */
  lemma AdjustRootFails<T>(e: T, f: T, key: Timeval, granted: bool)
    requires e != f
    ensures var s := Heap([Some(Entry(e, key)), Some(Entry(f, key)), None], 2, map[e := 0, f := 1]);
            && s.Linked()
            && Adjust(s, e, key, granted) == Done(Heap([Some(Entry(e, key)), Some(Entry(e, key)), None], 2, s.idx), 0)
  {
    var s := Heap([Some(Entry(e, key)), Some(Entry(f, key)), None], 2, map[e := 0, f := 1]);
    assert s.idx[e := 0] == s.idx;
  }

  /** For an event outside the heap, adjusting is pushing, and fails with it. */
  lemma AdjustOutsideIsPush<T>(s: Heap<T>, e: T, key: Timeval, granted: bool)
    requires s.Valid() && e in s.idx && s.idx[e] == -1 && (granted ==> s.n < |s.p|)
    ensures Adjust(s, e, key, granted) == Push(s, Entry(e, key), granted)
    ensures PushMeets(s, Entry(e, key), granted) <==> !granted
  {
    PushMeetsIffRefused(s, Entry(e, key), granted);
  }
}
