/** Whole runs of timer-heap operations: the heap refines a finite map from events to timeouts from
    which Pop takes an event that is due first. */
module HeapRuns {
  import opened Options
  import opened Timevals
  import opened HeapSpec
  import opened HeapProofs

  /** `granted` says whether the array has or gets room for one more event. */
  datatype Op<T> =
    | OpPush(item: T, key: Timeval, granted: bool)
    | OpPop
    | OpErase(item: T)
    | OpAdjust(item: T, key: Timeval, granted: bool)

  // ---------- The abstract queue ----------

  type Queue<T> = map<T, Timeval>

  /** What one operation may do to the queue, and what it answers. */
  ghost predicate QueueStep<T>(q: Queue<T>, op: Op<T>, answer: Option<T>, q': Queue<T>) {
    match op
    case OpPush(e, key, granted) =>
      answer == None && q' == if granted then q[e := key] else q
    case OpPop =>
      if q == map[] then answer == None && q' == q
      else
        && answer.Some? && answer.value in q
        && (forall e :: e in q ==> !TimerCmp(q[answer.value], q[e], Gt))
        && q' == q - {answer.value}
    case OpErase(e) =>
      answer == None && q' == q - {e}
    case OpAdjust(e, key, granted) =>
      answer == None && q' == if e in q || granted then q[e := key] else q
  }

  ghost predicate QueueRun<T(!new)>(q: Queue<T>, ops: seq<Op<T>>, answers: seq<Option<T>>, q': Queue<T>)
    decreases |ops|
  {
    if ops == [] then answers == [] && q' == q
    else
      |answers| == |ops| &&
      exists q1 :: QueueStep(q, ops[0], answers[0], q1) && QueueRun(q1, ops[1..], answers[1..], q')
  }

  // ---------- The heap ----------

  /** The position stored in the event, which is the one it is found at. */
  ghost function Find<T>(h: seq<Entry<T>>, e: T): (i: nat)
    requires e in ItemsOf(h)
    ensures i < |h| && h[i].item == e
  {
    var i :| 0 <= i < |h| && h[i].item == e;
    i
  }

  /** A caller pushes only events that are outside the heap. */
  ghost predicate Allowed<T>(h: seq<Entry<T>>, op: Op<T>) {
    op.OpPush? ==> op.item !in ItemsOf(h)
  }

  ghost function Step<T>(h: seq<Entry<T>>, op: Op<T>): (seq<Entry<T>>, Option<T>) {
    match op
    case OpPush(e, key, granted) => (if granted then Push(h, Entry(e, key)) else h, None)
    case OpPop => if h == [] then (h, None) else (Pop(h), Some(h[0].item))
    case OpErase(e) => (if e in ItemsOf(h) then Erase(h, Find(h, e)) else h, None)
    case OpAdjust(e, key, granted) =>
      (if e in ItemsOf(h) then Adjust(h[Find(h, e) := Entry(e, key)], Find(h, e))
       else if granted then Push(h, Entry(e, key)) else h,
       None)
  }

  ghost predicate AllAllowed<T>(h: seq<Entry<T>>, ops: seq<Op<T>>)
    decreases |ops|
  {
    ops == [] || (Allowed(h, ops[0]) && AllAllowed(Step(h, ops[0]).0, ops[1..]))
  }

  ghost function Run<T>(h: seq<Entry<T>>, ops: seq<Op<T>>): (seq<Entry<T>>, seq<Option<T>>)
    decreases |ops|
  {
    if ops == [] then (h, [])
    else
      var (h1, answer) := Step(h, ops[0]);
      var (h', answers) := Run(h1, ops[1..]);
      (h', [answer] + answers)
  }

  // ---------- The heap as a queue ----------

  ghost predicate Good<T>(h: seq<Entry<T>>) {
    Ordered(h) && Distinct(h)
  }

  ghost function Model<T>(h: seq<Entry<T>>): Queue<T> {
    map e | e in ItemsOf(h) :: h[Find(h, e)].key
  }

  lemma ModelAt<T>(h: seq<Entry<T>>, i: nat)
    requires Distinct(h) && i < |h|
    ensures h[i].item in Model(h) && Model(h)[h[i].item] == h[i].key
  {
    assert h[i].item in ItemsOf(h);
    assert h[Find(h, h[i].item)].item == h[i].item;
  }

  lemma {:induction false} DistinctIsCount<T>(h: seq<Entry<T>>)
    ensures |ItemsOf(h)| <= |h|
    ensures Distinct(h) <==> |ItemsOf(h)| == |h|
    decreases |h|
  {
    if h != [] {
      var n := |h| - 1;
      var t := h[..n];
      DistinctIsCount(t);
      assert h == t + [h[n]];
      ItemsOfAppend(t, h[n]);
      if h[n].item in ItemsOf(t) {
        var j :| 0 <= j < n && t[j].item == h[n].item;
        assert h[j].item == h[n].item;
        assert ItemsOf(h) == ItemsOf(t);
      } else {
        forall j | 0 <= j < n
          ensures h[j].item != h[n].item
        {
          assert t[j].item in ItemsOf(t);
        }
        if Distinct(t) {
          forall i, j | 0 <= i < j < |h|
            ensures h[i].item != h[j].item
          {
            assert j < n ==> t[i].item != t[j].item;
          }
        } else {
          var i, j :| 0 <= i < j < n && t[i].item == t[j].item;
          assert h[i].item == h[j].item;
        }
      }
    }
  }

  lemma PermutationKeepsModel<T>(a: seq<Entry<T>>, b: seq<Entry<T>>)
    requires multiset(a) == multiset(b) && Distinct(a)
    ensures Distinct(b) && Model(a) == Model(b)
  {
    PermutationKeepsItems(a, b);
    assert |a| == |multiset(a)| == |multiset(b)| == |b|;
    DistinctIsCount(a);
    DistinctIsCount(b);
    forall e | e in ItemsOf(a)
      ensures Model(a)[e] == Model(b)[e]
    {
      var x := b[Find(b, e)];
      assert x in multiset(b);
      var i :| 0 <= i < |a| && a[i] == x;
      ModelAt(a, i);
    }
  }

  lemma ModelOfAppend<T>(h: seq<Entry<T>>, x: Entry<T>)
    requires Distinct(h) && x.item !in ItemsOf(h)
    ensures Distinct(h + [x]) && Model(h + [x]) == Model(h)[x.item := x.key]
  {
    var w := h + [x];
    ItemsOfAppend(h, x);
    forall i, j | 0 <= i < j < |w|
      ensures w[i].item != w[j].item
    {
      assert h[i].item in ItemsOf(h);
    }
    forall e | e in ItemsOf(w)
      ensures Model(w)[e] == Model(h)[x.item := x.key][e]
    {
      var i := Find(w, e);
      ModelAt(w, i);
      if i < |h| {
        ModelAt(h, i);
      }
    }
  }

  lemma ModelOfRemoval<T>(h: seq<Entry<T>>, i: nat)
    requires Distinct(h) && i < |h|
    ensures Distinct(h[..i] + h[i + 1..])
    ensures Model(h[..i] + h[i + 1..]) == Model(h) - {h[i].item}
  {
    var rest := h[..i] + h[i + 1..];
    ItemsOfOthers(h, i);
    forall e | e in ItemsOf(rest)
      ensures Model(rest)[e] == Model(h)[e]
    {
      var k := Find(rest, e);
      ModelAt(rest, k);
      ModelAt(h, if k < i then k else k + 1);
    }
    forall e | e in Model(h) && e != h[i].item
      ensures e in ItemsOf(rest)
    {
      assert h[Find(h, e)].item == e;
    }
  }

  lemma ModelOfUpdate<T>(h: seq<Entry<T>>, i: nat, key: Timeval)
    requires Distinct(h) && i < |h|
    ensures Distinct(h[i := Entry(h[i].item, key)])
    ensures Model(h[i := Entry(h[i].item, key)]) == Model(h)[h[i].item := key]
  {
    var w := h[i := Entry(h[i].item, key)];
    forall e
      ensures e in ItemsOf(w) <==> e in ItemsOf(h)
    {
      if e in ItemsOf(w) {
        assert h[Find(w, e)].item == e;
      }
      if e in ItemsOf(h) {
        assert w[Find(h, e)].item == e;
      }
    }
    assert h[i].item in ItemsOf(h);
    forall e | e in ItemsOf(w)
      ensures Model(w)[e] == Model(h)[h[i].item := key][e]
    {
      var k := Find(w, e);
      ModelAt(w, k);
      ModelAt(h, k);
    }
  }

  // ---------- Refinement ----------

  lemma PushRefines<T>(h: seq<Entry<T>>, e: T, key: Timeval)
    requires Good(h) && e !in ItemsOf(h)
    ensures Good(Push(h, Entry(e, key))) && Model(Push(h, Entry(e, key))) == Model(h)[e := key]
  {
    var x := Entry(e, key);
    PushCorrect(h, x);
    ModelOfAppend(h, x);
    PermutationKeepsModel(h + [x], Push(h, x));
  }

  lemma EraseRefines<T>(h: seq<Entry<T>>, i: nat)
    requires Good(h) && i < |h|
    ensures Good(Erase(h, i)) && Model(Erase(h, i)) == Model(h) - {h[i].item}
  {
    var rest := h[..i] + h[i + 1..];
    EraseCorrect(h, i);
    ModelOfRemoval(h, i);
    assert h == h[..i] + [h[i]] + h[i + 1..];
    assert multiset(h) == multiset(rest) + multiset{h[i]};
    assert multiset(rest) == multiset(h) - multiset{h[i]} == multiset(Erase(h, i));
    PermutationKeepsModel(rest, Erase(h, i));
  }

  lemma AdjustRefines<T>(h: seq<Entry<T>>, i: nat, key: Timeval)
    requires Good(h) && i < |h|
    ensures var w := h[i := Entry(h[i].item, key)];
            Good(Adjust(w, i)) && Model(Adjust(w, i)) == Model(h)[h[i].item := key]
  {
    var w := h[i := Entry(h[i].item, key)];
    AnyKeyChangeIsAdjustable(h, i, key);
    AdjustCorrect(w, i);
    ModelOfUpdate(h, i, key);
    PermutationKeepsModel(w, Adjust(w, i));
  }

  lemma PopIsFirstDue<T>(h: seq<Entry<T>>)
    requires Good(h) && h != []
    ensures h[0].item in Model(h)
    ensures forall e :: e in Model(h) ==> !TimerCmp(Model(h)[h[0].item], Model(h)[e], Gt)
  {
    ModelAt(h, 0);
    forall e | e in Model(h)
      ensures !TimerCmp(Model(h)[h[0].item], Model(h)[e], Gt)
    {
      RootIsMinimum(h, Find(h, e));
    }
  }

  /** Every operation keeps the heap ordered and its events distinct, and is a step of the queue. */
  lemma StepRefines<T>(h: seq<Entry<T>>, op: Op<T>)
    requires Good(h) && Allowed(h, op)
    ensures Good(Step(h, op).0)
    ensures QueueStep(Model(h), op, Step(h, op).1, Model(Step(h, op).0))
  {
    match op
    case OpPush(e, key, granted) =>
      PushRefines(h, e, key);
    case OpPop =>
      if h != [] {
        PopIsFirstDue(h);
        EraseRefines(h, 0);
        assert Pop(h) == Erase(h, 0);
      }
    case OpErase(e) =>
      if e in ItemsOf(h) {
        EraseRefines(h, Find(h, e));
      } else {
        assert Model(h) - {e} == Model(h);
      }
    case OpAdjust(e, key, granted) =>
      if e in ItemsOf(h) {
        AdjustRefines(h, Find(h, e), key);
      } else {
        PushRefines(h, e, key);
      }
  }

  /** Any interleaving of pushes, pops, erasures and adjustments answers as the abstract queue may. */
  lemma {:induction false} RunRefines<T(!new)>(h: seq<Entry<T>>, ops: seq<Op<T>>)
    requires Good(h) && AllAllowed(h, ops)
    ensures Good(Run(h, ops).0)
    ensures QueueRun(Model(h), ops, Run(h, ops).1, Model(Run(h, ops).0))
    decreases |ops|
  {
    if ops != [] {
      var (h1, answer) := Step(h, ops[0]);
      StepRefines(h, ops[0]);
      RunRefines(h1, ops[1..]);
      var answers := Run(h, ops).1;
      assert answers[0] == answer && answers[1..] == Run(h1, ops[1..]).1;
      assert QueueStep(Model(h), ops[0], answers[0], Model(h1));
    }
  }
}
