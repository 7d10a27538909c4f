/** The integrity checks of src/event2/util-internal.h:94-141 and the queue macros of
    src/event2/event-internal.h:158-185 on linked nodes. The misspelt names of the checks are read as the
    names they stand for. The emptiness test of the second check is modelled repaired and as written,
    insert-before with the repair README.md lists, and as written in QueueLinks. */
module Queues {
  import opened Options
  import opened QueueLinks

  class Node {
    var next: Node?
    var prev: Loc<Node>

    constructor ()
    {
    }
  }

  function Opt(n: Node?): Option<Node> {
    if n == null then None else Some(n)
  }

  class Queue {
    var first: Node?
    var last: Loc<Node>

    constructor ()
      ensures first == null && last == HeadLoc
    {
      first, last := null, HeadLoc;
    }

    ghost function LinksOf(nodes: set<Node>): Links<Node>
      reads this, nodes
    {
      Links(Opt(first), map n | n in nodes :: Opt(n.next), map n | n in nodes :: n.prev, last)
    }

    /** The first loop of both checks. It ends on every graph, and fails exactly on the cyclic ones. */
    method Ends(ghost nodes: set<Node>) returns (ok: bool)
      requires LinksOf(nodes).Closed() && first != null
      ensures ok <==> LinksOf(nodes).Acyclic()
    {
      ghost var q := LinksOf(nodes);
      ghost var meet := CursorsMeet(q);
      var elm1, elm2 := first, first.next;
      ghost var t := 0;
      assert q.Walk(0) == Opt(elm1) && q.Walk(1) == Opt(elm2);
      while elm1 != null && elm2 != null
        invariant t <= meet && Opt(elm1) == q.Walk(t) && Opt(elm2) == q.Walk(2 * t + 1)
        decreases meet - t
      {
        if elm1 == elm2 {
          RevisitMeansCyclic(q, t, 2 * t + 1);
          return false;
        }
        elm1 := elm1.next;
        elm2 := elm2.next;
        assert Opt(elm1) == q.Walk(t + 1) && Opt(elm2) == q.Walk(2 * t + 2);
        if elm2 == null {
          break;
        }
        if elm1 == elm2 {
          RevisitMeansCyclic(q, t + 1, 2 * t + 2);
          return false;
        }
        elm2 := elm2.next;
        assert Opt(elm2) == q.Walk(2 * t + 3);
        t := t + 1;
      }
      ok := true;
    }

    /** The pointer stored at a location. */
    function Deref(at: Loc<Node>): Node?
      requires !at.Stray?
      reads this, if at.NextOf? then {at.node} else {}
    {
      if at.HeadLoc? then first else at.node.next
    }

    lemma Peek(nodes: set<Node>, n: Node)
      requires n in nodes
      ensures LinksOf(nodes).next[n] == Opt(n.next) && LinksOf(nodes).prev[n] == n.prev
    {
    }

    /** The second loop of both checks, on a chain s that ends; `end` is the location that holds its end. */
    method PointsBack(ghost nodes: set<Node>, ghost s: seq<Node>) returns (ok: bool, end: Loc<Node>)
      requires LinksOf(nodes).Closed() && LinksOf(nodes).Chain(s)
      ensures ok <==> LinksOf(nodes).BackLinked(s, |s|)
      ensures ok ==> end == if s == [] then HeadLoc else NextOf(s[|s| - 1])
    {
      ghost var q := LinksOf(nodes);
      var nextp, elm1 := HeadLoc, first;
      ghost var i := 0;
      assert q.Walk(0) == Opt(elm1);
      while elm1 != null
        invariant i <= |s| && q.Walk(i) == Opt(elm1)
        invariant nextp == LocAt(s, i) && elm1 == Deref(nextp)
        invariant q.BackLinked(s, i)
        decreases |s| - i
      {
        assert i < |s| && elm1 == s[i] && elm1 in nodes;
        Peek(nodes, elm1);
        if Deref(nextp) != elm1 {
          assert false;
        }
        if nextp != elm1.prev {
          return false, nextp;
        }
        ExtendBackLinked(q, s, i);
        WalkOn(q, i);
        nextp := NextOf(elm1);
        elm1 := Deref(nextp);
        i := i + 1;
      }
      ok, end := true, nextp;
    }

    /** The text of both checks behind their emptiness test, with the line that ends the second of them if
        `tailq`. It reads the next pointer of the first element, null or not. */
    method CheckNonempty(ghost nodes: set<Node>, tailq: bool) returns (verdict: Verdict)
      requires LinksOf(nodes).Closed()
      ensures verdict == Crashed <==> first == null
      ensures first != null ==>
                (verdict == Passed <==> if tailq then LinksOf(nodes).TailqOk() else LinksOf(nodes).ListOk())
    {
      if first == null {
        return Crashed;
      }
      var ok := Ends(nodes);
      if !ok {
        return Failed;
      }
      ghost var s := TheChain(LinksOf(nodes));
      var end;
      ok, end := PointsBack(nodes, s);
      if !ok || (tailq && end != last) {
        return Failed;
      }
      verdict := Passed;
    }

    /** EVUTIL_ASSERT_LIST_OK: `ok` is false where the macro's assertion fails. */
    method CheckList(ghost nodes: set<Node>) returns (ok: bool)
      requires LinksOf(nodes).Closed()
      ensures ok <==> LinksOf(nodes).ListOk()
    {
      if first == null {
        OkIsAboutTheChain(LinksOf(nodes), []);
        return true;
      }
      var verdict := CheckNonempty(nodes, false);
      ok := verdict == Passed;
    }

    /** EVUTIL_ASSERT_TAILQ_OK, leaving at once for an empty queue. */
    method CheckTailq(ghost nodes: set<Node>) returns (ok: bool)
      requires LinksOf(nodes).Closed()
      ensures ok <==> LinksOf(nodes).TailqOk()
      ensures ok <==> LinksOf(nodes).ListOk() && forall i: nat :: TailAt(LinksOf(nodes), i)
    {
      TailqOkIsListOkAndTail(LinksOf(nodes));
      if first == null {
        OkIsAboutTheChain(LinksOf(nodes), []);
        return true;
      }
      var verdict := CheckNonempty(nodes, true);
      ok := verdict == Passed;
    }

    /** EVUTIL_ASSERT_TAILQ_OK as it stands: `TAILQ_EMPTY(tailq) == NULL` holds of every queue with an
        element, which passes whatever it looks like; an empty one is read through a null pointer. The
        verdict is the one the check is for exactly on the sound queues with an element. */
    method CheckTailqAsWritten(ghost nodes: set<Node>) returns (verdict: Verdict)
      requires LinksOf(nodes).Closed()
      ensures verdict == if first == null then Crashed else Passed
      ensures verdict == QueueLinks.CheckTailqAsWritten(LinksOf(nodes))
      ensures verdict == Wanted(LinksOf(nodes)) <==> first != null && LinksOf(nodes).TailqOk()
    {
      var empty := first == null;
      if !empty {
        return Passed;
      }
      verdict := CheckNonempty(nodes, true);
    }

    /** TAILQ_FOREACH over a queue that ends: the nodes visited are its nodes, in order. */
    method Foreach(ghost nodes: set<Node>, ghost s: seq<Node>) returns (visited: seq<Node>)
      requires LinksOf(nodes).Closed() && LinksOf(nodes).Chain(s)
      ensures visited == s
    {
      ghost var q := LinksOf(nodes);
      visited := [];
      var elm := first;
      while elm != null
        invariant |visited| <= |s| && visited == s[..|visited|]
        invariant Opt(elm) == q.Walk(|visited|)
        decreases |s| - |visited|
      {
        visited := visited + [elm];
        elm := elm.next;
      }
    }

    /** `*at = n` */
    method Assign(at: Loc<Node>, n: Node, ghost nodes: set<Node>)
      requires at.NextOf? ==> at.node in nodes
      modifies this`first, nodes`next
      ensures LinksOf(nodes) == StoreAt(old(LinksOf(nodes)), at, n)
    {
      match at
      case HeadLoc => first := n;
      case NextOf(m) => m.next := n;
      case Stray =>
    }

    method SetNext(n: Node, to: Node, ghost nodes: set<Node>)
      requires n in nodes
      modifies n`next
      ensures LinksOf(nodes) == old(LinksOf(nodes)).(next := old(LinksOf(nodes)).next[n := Some(to)])
    {
      n.next := to;
    }

    method SetPrev(n: Node, to: Loc<Node>, ghost nodes: set<Node>)
      requires n in nodes
      modifies n`prev
      ensures LinksOf(nodes) == old(LinksOf(nodes)).(prev := old(LinksOf(nodes)).prev[n := to])
    {
      n.prev := to;
    }

    /** TAILQ_INSERT_BEFORE, the new element's prev being copied from the target's. */
    method InsertBefore(target: Node, elm: Node, ghost nodes: set<Node>, ghost s: seq<Node>, ghost i: nat)
      requires LinksOf(nodes).Closed() && LinksOf(nodes).Chain(s) && LinksOf(nodes).TailqOk()
      requires i < |s| && target == s[i] && target in nodes && elm in nodes && elm !in s
      modifies this`first, nodes
      ensures LinksOf(nodes) == QueueLinks.InsertBefore(old(LinksOf(nodes)), target, elm, old(target.prev))
      ensures LinksOf(nodes).Closed() && LinksOf(nodes).TailqOk()
      ensures LinksOf(nodes).Chain(s[..i] + [elm] + s[i..])
    {
      ghost var q := LinksOf(nodes);
      ghost var q' := QueueLinks.InsertBefore(q, target, elm, q.prev[target]);
      ChainAvoids(q, s, i);
      OkIsAboutTheChain(q, s);
      assert target in s && q.prev[target] == LocAt(s, i);
      var back := target.prev;
      InsertBeforeKeepsOk(q, s, i, elm);
      InsertedIsSplice(s, i, elm);
      SetPrev(elm, back, nodes);
      SetNext(elm, target, nodes);
      Assign(back, elm, nodes);
      SetPrev(target, NextOf(elm), nodes);
      assert LinksOf(nodes) == q';
    }
  }
}
