/** The links of a doubly linked queue as a value: what the integrity checks of
    src/event2/util-internal.h:94-141 are to decide, and why two cursors decide it. */
module QueueLinks {
  import opened Options

  /** Where a node pointer is stored. A back-pointer is such a location; a corrupt one may be Stray. */
  datatype Loc<+N> = HeadLoc | NextOf(node: N) | Stray

  /** The head's first pointer, every node's next and prev, and the tail pointer (unused by a LIST). */
  datatype Links<N> = Links(first: Option<N>, next: map<N, Option<N>>, prev: map<N, Loc<N>>, last: Loc<N>) {

    /** Following links never leaves the nodes at hand. Any shape is allowed, cycles included. */
    ghost predicate Closed() {
      && (first.Some? ==> first.value in next)
      && (forall n :: n in next && next[n].Some? ==> next[n].value in next)
      && prev.Keys == next.Keys
    }

    /** The node reached from the head by k further steps. */
    function Walk(k: nat): (o: Option<N>)
      requires Closed()
      ensures o.Some? ==> o.value in next
    {
      if k == 0 then first
      else if Walk(k - 1).None? then None
      else next[Walk(k - 1).value]
    }

    ghost predicate Acyclic()
      requires Closed()
    {
      exists k :: Walk(k).None?
    }

    /** The nodes in order, up to the end of the chain. */
    ghost predicate Chain(s: seq<N>)
      requires Closed()
    {
      && (forall i {:trigger Walk(i)} :: 0 <= i < |s| ==> Walk(i) == Some(s[i]))
      && Walk(|s|).None?
    }

    /** Each of the first k nodes points back at the location that points at it. */
    ghost predicate BackLinked(s: seq<N>, k: nat)
      requires Closed() && k <= |s|
    {
      forall i {:trigger prev[s[i]]} {:trigger s[i] in prev} :: 0 <= i < k ==> s[i] in prev && prev[s[i]] == LocAt(s, i)
    }

    ghost predicate EndsAt(k: nat)
      requires Closed()
    {
      (forall i :: 0 <= i < k ==> Walk(i).Some?) && Walk(k).None?
    }

    /** The nodes of a chain that ends after k of them. */
    ghost function Nodes(k: nat): (s: seq<N>)
      requires Closed() && EndsAt(k)
      ensures Chain(s) && |s| == k
    {
      seq(k, i requires 0 <= i < k && Closed() && Walk(i).Some? => Walk(i).value)
    }

    ghost predicate ListOk()
      requires Closed()
    {
      exists k :: EndsAt(k) && BackLinked(Nodes(k), k)
    }

    /** An empty queue passes whatever its tail pointer is. */
    ghost predicate TailqOk()
      requires Closed()
    {
      exists k :: EndsAt(k) && BackLinked(Nodes(k), k) && (k > 0 ==> last == LocAt(Nodes(k), k))
    }
  }

  /** The location that holds the pointer to position i of the chain s. */
  function LocAt<N>(s: seq<N>, i: nat): Loc<N>
    requires i <= |s|
  {
    if i == 0 then HeadLoc else NextOf(s[i - 1])
  }

  // ---------- Walking ----------

  lemma WalkOn<N>(q: Links<N>, i: nat)
    requires q.Closed() && q.Walk(i).Some?
    ensures q.Walk(i + 1) == q.next[q.Walk(i).value]
  {
  }

  lemma {:induction false} WalkEnds<N>(q: Links<N>, k: nat, m: nat)
    requires q.Closed() && q.Walk(k).None? && k <= m
    ensures q.Walk(m).None?
    decreases m
  {
    if k < m {
      WalkEnds(q, k, m - 1);
    }
  }

  /** Once two steps reach the same node, so do all later steps equally far apart. */
  lemma {:induction false} WalkRepeats<N>(q: Links<N>, i: nat, period: nat, m: nat)
    requires q.Closed() && q.Walk(i) == q.Walk(i + period) && i <= m
    ensures q.Walk(m) == q.Walk(m + period)
    decreases m
  {
    if i < m {
      WalkRepeats(q, i, period, m - 1);
    }
  }

  lemma {:induction false} WalkRepeatsOften<N>(q: Links<N>, i: nat, period: nat, m: nat, c: nat)
    requires q.Closed() && q.Walk(i) == q.Walk(i + period) && i <= m
    ensures q.Walk(m) == q.Walk(m + c * period)
    decreases c
  {
    if c > 0 {
      WalkRepeatsOften(q, i, period, m, c - 1);
      var laps := (c - 1) * period;
      assert laps + period == c * period;
      WalkRepeats(q, i, period, m + laps);
    }
  }

  lemma AtLeastOnce(k: nat, p: nat)
    requires p >= 1
    ensures k <= k * p
  {
  }

  /** A node met twice means the chain has no end. */
  lemma RevisitMeansCyclic<N>(q: Links<N>, a: nat, b: nat)
    requires q.Closed() && a < b && q.Walk(a).Some? && q.Walk(a) == q.Walk(b)
    ensures !q.Acyclic()
  {
    forall k: nat
      ensures q.Walk(k).Some?
    {
      if q.Walk(k).None? {
        var p := b - a;
        WalkRepeatsOften(q, a, p, a, k);
        AtLeastOnce(k, p);
        WalkEnds(q, k, a + k * p);
      }
    }
  }

  lemma {:induction false} DistinctFits<N>(path: seq<N>, nodes: set<N>)
    requires forall i :: 0 <= i < |path| ==> path[i] in nodes
    requires forall i, j :: 0 <= i < j < |path| ==> path[i] != path[j]
    ensures |path| <= |nodes|
    decreases |path|
  {
    if path != [] {
      var n := |path| - 1;
      DistinctFits(path[..n], nodes - {path[n]});
    }
  }

  /** Among finitely many nodes a walk ends or comes back to a node. */
  lemma WalkEndsOrRepeats<N>(q: Links<N>, path: seq<N>) returns (i: nat, j: nat)
    requires q.Closed()
    requires forall m :: 0 <= m < |path| ==> q.Walk(m) == Some(path[m])
    requires forall l, m :: 0 <= l < m < |path| ==> path[l] != path[m]
    ensures i < j && q.Walk(i) == q.Walk(j)
    decreases |q.next.Keys| - |path|
  {
    var o := q.Walk(|path|);
    if o.None? {
      i, j := |path|, |path| + 1;
    } else if o.value in path {
      i :| 0 <= i < |path| && path[i] == o.value;
      j := |path|;
    } else {
      forall m | 0 <= m < |path|
        ensures path[m] in q.next.Keys
      {
        assert q.Walk(m) == Some(path[m]);
      }
      DistinctFits(path + [o.value], q.next.Keys);
      i, j := WalkEndsOrRepeats(q, path + [o.value]);
    }
  }

  /** Tortoise and hare: on every graph there is a step at which a cursor moving one node at a time and
      one started a node ahead and moving two meet, at a node or past the end. */
  lemma CursorsMeet<N>(q: Links<N>) returns (t: nat)
    requires q.Closed()
    ensures q.Walk(t) == q.Walk(2 * t + 1)
  {
    var i, j := WalkEndsOrRepeats(q, []);
    var p := j - i;
    var c := i + 1;
    AtLeastOnce(c, p);
    t := c * p - 1;
    WalkRepeatsOften(q, i, p, t, c);
    assert t + c * p == 2 * t + 1;
  }

  // ---------- Chains ----------

  lemma ChainIsUnique<N>(q: Links<N>, s: seq<N>, s': seq<N>)
    requires q.Closed() && q.Chain(s) && q.Chain(s')
    ensures s == s'
  {
    assert |s| == |s'|;
    forall i | 0 <= i < |s|
      ensures s[i] == s'[i]
    {
      assert q.Walk(i) == Some(s[i]) == Some(s'[i]);
    }
  }

  lemma {:induction false} EndExists<N>(q: Links<N>, k: nat) returns (m: nat)
    requires q.Closed() && q.Walk(k).None?
    ensures m <= k && q.EndsAt(m)
    decreases k
  {
    if k > 0 && q.Walk(k - 1).None? {
      m := EndExists(q, k - 1);
    } else {
      m := k;
      forall i | 0 <= i < k
        ensures q.Walk(i).Some?
      {
        if q.Walk(i).None? {
          WalkEnds(q, i, k - 1);
        }
      }
    }
  }

  /** The two checks speak of the one chain there is. */
  lemma OkIsAboutTheChain<N>(q: Links<N>, s: seq<N>)
    requires q.Closed() && q.Chain(s)
    ensures q.ListOk() <==> q.BackLinked(s, |s|)
    ensures q.TailqOk() <==> q.BackLinked(s, |s|) && (s != [] ==> q.last == LocAt(s, |s|))
  {
    assert q.EndsAt(|s|);
    forall k | q.EndsAt(k)
      ensures q.Nodes(k) == s
    {
      ChainIsUnique(q, s, q.Nodes(k));
    }
  }

  /** The nodes of a chain are pairwise distinct. */
  lemma ChainIsDistinct<N>(q: Links<N>, s: seq<N>, i: nat, j: nat)
    requires q.Closed() && q.Chain(s) && i < j < |s|
    ensures s[i] != s[j]
  {
    assert q.Walk(i) == Some(s[i]) && q.Walk(j) == Some(s[j]);
    assert q.Walk(|s|).None?;
    if s[i] == s[j] {
      RevisitMeansCyclic(q, i, j);
    }
  }

  /** The node at step i points back at the location that points at it. */
  ghost predicate PointsBack<N>(q: Links<N>, i: nat)
    requires q.Closed() && q.Walk(i).Some?
  {
    q.prev[q.Walk(i).value] ==
    if i == 0 then HeadLoc else if q.Walk(i - 1).Some? then NextOf(q.Walk(i - 1).value) else Stray
  }

  lemma TheChain<N>(q: Links<N>) returns (s: seq<N>)
    requires q.Closed() && q.Acyclic()
    ensures q.Chain(s) && (q.first.Some? ==> s != [])
    ensures q.ListOk() <==> q.BackLinked(s, |s|)
    ensures q.TailqOk() <==> q.BackLinked(s, |s|) && (s != [] ==> q.last == LocAt(s, |s|))
  {
    var k :| q.Walk(k).None?;
    k := EndExists(q, k);
    s := q.Nodes(k);
    OkIsAboutTheChain(q, s);
    assert q.first == q.Walk(0);
  }

  lemma ChainDistinct<N>(q: Links<N>, s: seq<N>)
    requires q.Closed() && q.Chain(s)
    ensures forall j, k :: 0 <= j < k < |s| ==> s[j] != s[k]
  {
    forall j, k | 0 <= j < k < |s|
      ensures s[j] != s[k]
    {
      ChainIsDistinct(q, s, j, k);
    }
  }

  lemma PointsBackAt<N>(q: Links<N>, s: seq<N>, i: nat)
    requires q.Closed() && q.Chain(s)
    ensures q.Walk(i).Some? <==> i < |s|
    ensures i < |s| ==> (PointsBack(q, i) <==> q.prev[s[i]] == LocAt(s, i))
  {
    if i >= |s| {
      WalkEnds(q, |s|, i);
    } else {
      assert q.Walk(i) == Some(s[i]);
      assert i > 0 ==> q.Walk(i - 1) == Some(s[i - 1]);
    }
  }

  /** A queue passes the list check exactly when its chain has an end and every node points back at
      the location pointing at it. */
  lemma ListOkIsAcyclicAndBackLinked<N>(q: Links<N>)
    requires q.Closed()
    ensures q.ListOk() <==> q.Acyclic() && forall i :: 0 <= i && q.Walk(i).Some? ==> PointsBack(q, i)
  {
    if q.Acyclic() {
      var s := TheChain(q);
      forall i: nat
        ensures q.Walk(i).Some? <==> i < |s|
        ensures i < |s| ==> (PointsBack(q, i) <==> q.prev[s[i]] == LocAt(s, i))
      {
        PointsBackAt(q, s, i);
      }
    }
  }

  /** Where the tail pointer of a queue whose last node is the one at step i has to lead. */
  ghost predicate TailAt<N>(q: Links<N>, i: nat)
    requires q.Closed()
  {
    q.Walk(i).Some? && q.Walk(i + 1).None? ==> q.last == NextOf(q.Walk(i).value)
  }

  lemma TailAtLast<N>(q: Links<N>, s: seq<N>, i: nat)
    requires q.Closed() && q.Chain(s)
    ensures i + 1 == |s| ==> (TailAt(q, i) <==> q.last == NextOf(s[i]))
    ensures i + 1 != |s| ==> TailAt(q, i)
  {
    PointsBackAt(q, s, i);
    PointsBackAt(q, s, i + 1);
    assert i < |s| ==> q.Walk(i) == Some(s[i]);
  }

  lemma TailAtAll<N>(q: Links<N>, s: seq<N>)
    requires q.Closed() && q.Chain(s)
    ensures (forall i: nat :: TailAt(q, i)) <==> (s != [] ==> q.last == NextOf(s[|s| - 1]))
  {
    forall i: nat
      ensures i + 1 == |s| ==> (TailAt(q, i) <==> q.last == NextOf(s[i]))
      ensures i + 1 != |s| ==> TailAt(q, i)
    {
      TailAtLast(q, s, i);
    }
    assert s != [] ==> (TailAt(q, |s| - 1) <==> q.last == NextOf(s[|s| - 1]));
  }

  /** A tail queue passes exactly when it passes as a list and its tail pointer is the location of its last
      node's next field, if it has a node. */
  lemma TailqOkIsListOkAndTail<N>(q: Links<N>)
    requires q.Closed()
    ensures q.TailqOk() <==> q.ListOk() && forall i: nat :: TailAt(q, i)
  {
    if q.Acyclic() {
      var s := TheChain(q);
      TailAtAll(q, s);
    }
  }

  lemma ExtendBackLinked<N>(q: Links<N>, s: seq<N>, i: nat)
    requires q.Closed() && i < |s| && q.BackLinked(s, i)
    requires s[i] in q.prev && q.prev[s[i]] == LocAt(s, i)
    ensures q.BackLinked(s, i + 1)
  {
  }

  lemma AcceptedChain<N>(q: Links<N>, s: seq<N>, k: nat)
    requires q.Closed() && q.Chain(s) && k == |s| && q.BackLinked(s, k) && q.last == LocAt(s, k)
    ensures q.TailqOk()
  {
    OkIsAboutTheChain(q, s);
  }

  // ---------- The tail-queue check as written ----------

  datatype Verdict = Passed | Failed | Crashed

  ghost function Wanted<N>(q: Links<N>): Verdict
    requires q.Closed()
  {
    if q.TailqOk() then Passed else Failed
  }

  /** What the check's text comes to, which Queue.CheckTailqAsWritten is proved to answer: with its emptiness
      test as it stands it never gets to look at a link. */
  function CheckTailqAsWritten<N>(q: Links<N>): Verdict {
    if q.first.Some? then Passed else Crashed
  }

  lemma CheckTailqAsWrittenIsRightIff<N>(q: Links<N>)
    requires q.Closed()
    ensures CheckTailqAsWritten(q) == Wanted(q) <==> q.first.Some? && q.TailqOk()
  {
  }

  /** It passes a node that is its own successor. */
  lemma CheckTailqAsWrittenPassesACycle<N>(n: N)
    ensures var q := Links(Some(n), map[n := Some(n)], map[n := Stray], Stray);
            q.Closed() && !q.TailqOk() && CheckTailqAsWritten(q) == Passed
  {
    var q := Links(Some(n), map[n := Some(n)], map[n := Stray], Stray);
    assert q.Walk(0) == Some(n) && q.Walk(1) == Some(n);
    RevisitMeansCyclic(q, 0, 1);
    assert q.Acyclic() <== q.TailqOk();
  }

  // ---------- Inserting ----------

  /** Stores a pointer to n at a location. */
  function StoreAt<N>(q: Links<N>, at: Loc<N>, n: N): Links<N> {
    match at
    case HeadLoc => q.(first := Some(n))
    case NextOf(m) => q.(next := q.next[m := Some(n)])
    case Stray => q
  }

  /** TAILQ_INSERT_BEFORE, with `back` the location it puts into the new element's prev. */
  function InsertBefore<N>(q: Links<N>, target: N, elm: N, back: Loc<N>): Links<N>
    requires target in q.prev
  {
    var q1 := q.(prev := q.prev[elm := back], next := q.next[elm := Some(target)]);
    var q2 := StoreAt(q1, q.prev[target], elm);
    q2.(prev := q2.prev[target := NextOf(elm)])
  }

  function Inserted<N>(s: seq<N>, i: nat, elm: N): (r: seq<N>)
    requires i <= |s|
    ensures |r| == |s| + 1
  {
    seq(|s| + 1, k requires 0 <= k <= |s| => if k < i then s[k] else if k == i then elm else s[k - 1])
  }

  lemma InsertedIsSplice<N>(s: seq<N>, i: nat, elm: N)
    requires i <= |s|
    ensures Inserted(s, i, elm) == s[..i] + [elm] + s[i..]
  {
  }

  lemma ChainAvoids<N>(q: Links<N>, s: seq<N>, i: nat)
    requires q.Closed() && q.Chain(s) && i < |s|
    ensures forall j :: 0 <= j < |s| && j != i ==> s[j] != s[i]
    ensures forall j :: 0 <= j < |s| ==> s[j] in q.next && s[j] in q.prev
    ensures Edges(q.next, s)
  {
    forall j | 0 <= j < |s| && j != i
      ensures s[j] != s[i]
    {
      if j < i {
        ChainIsDistinct(q, s, j, i);
      } else {
        ChainIsDistinct(q, s, i, j);
      }
    }
    forall j | 0 <= j < |s|
      ensures s[j] in q.next && q.next[s[j]] == if j + 1 < |s| then Some(s[j + 1]) else None
    {
      assert q.Walk(j) == Some(s[j]);
      assert q.Walk(j + 1) == q.next[s[j]];
    }
  }

  lemma InsertedIsClosed<N>(q: Links<N>, s: seq<N>, i: nat, elm: N, back: Loc<N>)
    requires q.Closed() && q.Chain(s) && q.BackLinked(s, |s|) && i < |s| && elm !in s
    ensures InsertBefore(q, s[i], elm, back).Closed()
  {
    ChainAvoids(q, s, i);
  }

  /** What the next pointer of position j of the chain s is. */
  function Successor<N>(s: seq<N>, j: nat): Option<N>
    requires j < |s|
  {
    if j + 1 < |s| then Some(s[j + 1]) else None
  }

  ghost predicate Edges<N>(next: map<N, Option<N>>, s: seq<N>) {
    forall j {:trigger next[s[j]]} {:trigger s[j] in next} :: 0 <= j < |s| ==> s[j] in next && next[s[j]] == Successor(s, j)
  }

  lemma InsertedEdges<N>(next: map<N, Option<N>>, s: seq<N>, i: nat, elm: N)
    requires i < |s| && elm !in s && Edges(next, s)
    requires forall j, k :: 0 <= j < k < |s| ==> s[j] != s[k]
    ensures var next1 := next[elm := Some(s[i])];
            Edges(if i == 0 then next1 else next1[s[i - 1] := Some(elm)], Inserted(s, i, elm))
  {
    var next1 := next[elm := Some(s[i])];
    var next' := if i == 0 then next1 else next1[s[i - 1] := Some(elm)];
    var s' := Inserted(s, i, elm);
    forall k | 0 <= k < |s'|
      ensures s'[k] in next' && next'[s'[k]] == Successor(s', k)
    {
      if k < i {
        assert s[k] in s && s'[k] == s[k];
        assert k + 1 < i ==> Successor(s', k) == Successor(s, k);
      } else if k == i {
        assert s'[k] == elm && (i > 0 ==> s[i - 1] in s);
      } else {
        var j := k - 1;
        assert s[j] in s && s'[k] == s[j];
        assert Successor(s', k) == Successor(s, j);
      }
    }
  }

  lemma InsertedBacks<N>(prev: map<N, Loc<N>>, s: seq<N>, i: nat, elm: N)
    requires i < |s| && elm !in s
    requires forall j {:trigger prev[s[j]]} {:trigger s[j] in prev} :: 0 <= j < |s| ==> s[j] in prev && prev[s[j]] == LocAt(s, j)
    requires forall j, k :: 0 <= j < k < |s| ==> s[j] != s[k]
    ensures var prev' := prev[elm := prev[s[i]]][s[i] := NextOf(elm)]; var s' := Inserted(s, i, elm);
            forall k {:trigger prev'[s'[k]]} {:trigger s'[k] in prev'} :: 0 <= k < |s'| ==> s'[k] in prev' && prev'[s'[k]] == LocAt(s', k)
  {
    var prev' := prev[elm := prev[s[i]]][s[i] := NextOf(elm)];
    var s' := Inserted(s, i, elm);
    forall k | 0 <= k < |s'|
      ensures s'[k] in prev' && prev'[s'[k]] == LocAt(s', k)
    {
      if k < i {
        assert s[k] in s && LocAt(s', k) == LocAt(s, k);
      } else if k == i {
        assert s[i] in s && LocAt(s', k) == LocAt(s, i);
      } else {
        assert s[k - 1] in s && (k > i + 1 ==> LocAt(s', k) == LocAt(s, k - 1));
      }
    }
  }

  lemma InsertedMaps<N>(q: Links<N>, s: seq<N>, i: nat, elm: N, back: Loc<N>)
    requires q.Closed() && q.BackLinked(s, |s|) && i < |s|
    ensures InsertBefore(q, s[i], elm, back).next ==
            if i == 0 then q.next[elm := Some(s[i])] else q.next[elm := Some(s[i])][s[i - 1] := Some(elm)]
    ensures InsertBefore(q, s[i], elm, back).first == if i == 0 then Some(elm) else q.first
    ensures InsertBefore(q, s[i], elm, back).prev == q.prev[elm := back][s[i] := NextOf(elm)]
  {
    assert q.prev[s[i]] == LocAt(s, i);
  }

  /** A walk is determined by where each node's next pointer leads. */
  lemma {:induction false} WalkAlong<N>(q: Links<N>, s: seq<N>, k: nat)
    requires q.Closed() && s != [] && q.first == Some(s[0]) && k <= |s|
    requires Edges(q.next, s)
    ensures q.Walk(k) == if k < |s| then Some(s[k]) else None
    decreases k
  {
    if k > 0 {
      WalkAlong(q, s, k - 1);
    }
  }

  /** The forward links gain the element exactly before the target, whatever goes into its prev. */
  lemma InsertedChain<N>(q: Links<N>, s: seq<N>, i: nat, elm: N, back: Loc<N>)
    requires q.Closed() && q.Chain(s) && q.BackLinked(s, |s|) && i < |s| && elm !in s
    ensures InsertBefore(q, s[i], elm, back).Closed()
    ensures InsertBefore(q, s[i], elm, back).Chain(Inserted(s, i, elm))
  {
    var q' := InsertBefore(q, s[i], elm, back);
    var s' := Inserted(s, i, elm);
    InsertedIsClosed(q, s, i, elm, back);
    ChainDistinct(q, s);
    ChainAvoids(q, s, i);
    InsertedEdges(q.next, s, i, elm);
    InsertedMaps(q, s, i, elm, back);
    assert q.Walk(0) == Some(s[0]);
    forall k | 0 <= k <= |s'|
      ensures q'.Walk(k) == if k < |s'| then Some(s'[k]) else None
    {
      WalkAlong(q', s', k);
    }
  }

  lemma InsertedBackLinked<N>(q: Links<N>, s: seq<N>, i: nat, elm: N)
    requires q.Closed() && q.BackLinked(s, |s|) && i < |s| && elm !in s
    requires forall j, k :: 0 <= j < k < |s| ==> s[j] != s[k]
    requires InsertBefore(q, s[i], elm, q.prev[s[i]]).Closed()
    ensures InsertBefore(q, s[i], elm, q.prev[s[i]]).BackLinked(Inserted(s, i, elm), |s| + 1)
    ensures InsertBefore(q, s[i], elm, q.prev[s[i]]).last == q.last
    ensures LocAt(Inserted(s, i, elm), |s| + 1) == LocAt(s, |s|)
  {
    InsertedMaps(q, s, i, elm, q.prev[s[i]]);
    InsertedBacks(q.prev, s, i, elm);
  }

  /** Copying the target's prev, insert-before turns every queue the check accepts into one it still
      accepts, the target being the head or not. */
  lemma InsertBeforeKeepsOk<N>(q: Links<N>, s: seq<N>, i: nat, elm: N)
    requires q.Closed() && q.Chain(s) && q.BackLinked(s, |s|) && q.last == LocAt(s, |s|)
    requires i < |s| && elm !in s
    ensures var q' := InsertBefore(q, s[i], elm, q.prev[s[i]]);
            q'.Closed() && q'.TailqOk() && q'.Chain(Inserted(s, i, elm))
  {
    var q' := InsertBefore(q, s[i], elm, q.prev[s[i]]);
    var s' := Inserted(s, i, elm);
    InsertedChain(q, s, i, elm, q.prev[s[i]]);
    ChainDistinct(q, s);
    InsertedBackLinked(q, s, i, elm);
    AcceptedChain(q', s', |s| + 1);
  }

  /** As written the macro stores the target's next pointer, reinterpreted as a location, in the new
      element's prev: the location of that node's own next field when the entry is the first member of
      the node, none of the queue's locations otherwise. */
  function BackAsWritten<N>(q: Links<N>, target: N, entryIsFirstMember: bool): Loc<N>
    requires target in q.next
  {
    match q.next[target]
    case Some(m) => if entryIsFirstMember then NextOf(m) else Stray
    case None => Stray
  }

  /** So inserted, the element is on the chain and the check rejects the queue, every time. */
  lemma InsertBeforeAsWrittenIsAlwaysRejected<N>(q: Links<N>, s: seq<N>, i: nat, elm: N, entryIsFirstMember: bool)
    requires q.Closed() && q.Chain(s) && q.BackLinked(s, |s|) && i < |s| && elm !in s
    ensures var q' := InsertBefore(q, s[i], elm, (ChainAvoids(q, s, i); BackAsWritten(q, s[i], entryIsFirstMember)));
            q'.Closed() && q'.Chain(Inserted(s, i, elm)) && !q'.ListOk() && !q'.TailqOk()
  {
    ChainAvoids(q, s, i);
    var back := BackAsWritten(q, s[i], entryIsFirstMember);
    var q' := InsertBefore(q, s[i], elm, back);
    var s' := Inserted(s, i, elm);
    InsertedChain(q, s, i, elm, back);
    if i > 0 && i + 1 < |s| {
      ChainIsDistinct(q, s, i - 1, i + 1);
    }
    assert s'[i] == elm && q'.prev[elm] == back != LocAt(s', i);
    OkIsAboutTheChain(q', s');
  }
}
