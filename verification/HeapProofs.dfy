/** What the heap operations achieve: order is restored, nothing but the intended entry comes or goes,
    and no sift moves more entries than the height of the tree. */
module HeapProofs {
  import opened Timevals
  import opened HeapSpec

  // ---------- Order ----------

  /** Order at every edge but the one above i, and across i. */
  ghost predicate UpReady<T>(h: seq<Entry<T>>, i: nat) {
    && OrderedExceptAt(h, i)
    && forall j :: 0 < j < |h| && Parent(j) == i ==> !Greater(h[i], h[j])
  }

  /** Order at every edge but the ones below i, and across i. */
  ghost predicate DownReady<T>(h: seq<Entry<T>>, i: nat) {
    && OrderedExceptAt(h, i)
    && (0 < i < |h| ==> !Greater(h[Parent(i)], h[i]))
  }

  /** Moving the parent down leaves a heap that is out of order only above the new hole. */
  lemma SiftUpStep<T>(h: seq<Entry<T>>, hole: nat, x: Entry<T>)
    requires 0 < hole < |h| && UpReady(h[hole := x], hole) && Greater(h[Parent(hole)], x)
    ensures UpReady(h[hole := h[Parent(hole)]][Parent(hole) := x], Parent(hole))
  {
    var w := h[hole := x];
    var p := Parent(hole);
    var w' := h[hole := h[p]][p := x];
    forall j | 0 < j < |w'| && j != p
      ensures !Greater(w'[Parent(j)], w'[j])
    {
      assert !Greater(w[Parent(j)], w[j]) || j == hole;
    }
    forall j | 0 < j < |w'| && Parent(j) == p && 0 < p
      ensures !Greater(w'[Parent(p)], w'[j])
    {
      assert !Greater(w[Parent(p)], w[p]);
      assert j == hole || !Greater(w[p], w[j]);
    }
  }

  lemma {:induction false} SiftUpOrders<T>(h: seq<Entry<T>>, hole: nat, x: Entry<T>)
    requires hole < |h|
    requires UpReady(h[hole := x], hole)
    ensures Ordered(SiftUp(h, hole, x))
    decreases hole
  {
    if hole > 0 && Greater(h[Parent(hole)], x) {
      SiftUpStep(h, hole, x);
      SiftUpOrders(h[hole := h[Parent(hole)]], Parent(hole), x);
    } else {
      var w := h[hole := x];
      forall j | 0 < j < |w|
        ensures !Greater(w[Parent(j)], w[j])
      {
      }
    }
  }

  /** Moving the smaller child up leaves a heap that is out of order only below the new hole. */
  lemma SiftDownStep<T>(h: seq<Entry<T>>, hole: nat, x: Entry<T>, c: nat)
    requires hole < |h| && 2 * hole + 2 <= |h| && c == MinChild(h, hole)
    requires DownReady(h[hole := x], hole) && Greater(x, h[c])
    ensures DownReady(h[hole := h[c]][c := x], c)
  {
    var w := h[hole := x];
    var w' := h[hole := h[c]][c := x];
    forall j | 0 < j < |w'| && j != c && Parent(j) != c
      ensures !Greater(w'[Parent(j)], w'[j])
    {
      if Parent(j) == hole {
        assert j == 2 * hole + 1 || j == 2 * hole + 2;
      } else if j == hole {
        assert Parent(c) == hole;
      } else {
        assert !Greater(w[Parent(j)], w[j]);
      }
    }
    forall j | 0 < j < |w'| && Parent(j) == c
      ensures !Greater(w'[Parent(c)], w'[j])
    {
      assert !Greater(w[Parent(j)], w[j]);
    }
  }

  lemma SiftDownStop<T>(h: seq<Entry<T>>, hole: nat, x: Entry<T>)
    requires hole < |h|
    requires DownReady(h[hole := x], hole)
    requires 2 * hole + 2 <= |h| ==> !Greater(x, h[MinChild(h, hole)])
    ensures Ordered(h[hole := x])
  {
    var w := h[hole := x];
    forall j | 0 < j < |w|
      ensures !Greater(w[Parent(j)], w[j])
    {
      if Parent(j) == hole {
        assert j == 2 * hole + 1 || j == 2 * hole + 2;
      }
    }
  }

  lemma {:induction false} SiftDownOrders<T>(h: seq<Entry<T>>, hole: nat, x: Entry<T>)
    requires hole < |h|
    requires DownReady(h[hole := x], hole)
    ensures Ordered(SiftDown(h, hole, x))
    decreases |h| - hole
  {
    if 2 * hole + 2 <= |h| && Greater(x, h[MinChild(h, hole)]) {
      var c := MinChild(h, hole);
      SiftDownStep(h, hole, x, c);
      SiftDownOrders(h[hole := h[c]], c, x);
    } else {
      SiftDownStop(h, hole, x);
    }
  }

  // ---------- Members ----------

  /** A sift up does not look at, or touch, the position past the ones it works on. */
  lemma {:induction false} SiftUpIgnoresLast<T>(h: seq<Entry<T>>, y: Entry<T>, hole: nat, x: Entry<T>)
    requires hole < |h|
    ensures SiftUp(h + [y], hole, x) == SiftUp(h, hole, x) + [y]
    decreases hole
  {
    var v := if hole > 0 then h[Parent(hole)] else x;
    assert (h + [y])[hole := v] == h[hole := v] + [y];
    if hole > 0 && Greater(v, x) {
      SiftUpIgnoresLast(h[hole := v], y, Parent(hole), x);
    } else {
      assert (h + [y])[hole := x] == h[hole := x] + [y];
    }
  }

  lemma SiftUpUnconditionalIgnoresLast<T>(h: seq<Entry<T>>, y: Entry<T>, hole: nat, x: Entry<T>)
    requires 0 < hole < |h|
    ensures SiftUpUnconditional(h + [y], hole, x) == SiftUpUnconditional(h, hole, x) + [y]
  {
    var v := h[Parent(hole)];
    assert (h + [y])[hole := v] == h[hole := v] + [y];
    SiftUpIgnoresLast(h[hole := v], y, Parent(hole), x);
  }

  lemma {:induction false} SiftUpPermutes<T>(h: seq<Entry<T>>, hole: nat, x: Entry<T>)
    requires hole < |h|
    ensures multiset(SiftUp(h, hole, x)) == multiset(h[hole := x])
    decreases hole
  {
    if hole > 0 && Greater(h[Parent(hole)], x) {
      SiftUpPermutes(h[hole := h[Parent(hole)]], Parent(hole), x);
    }
  }

  lemma {:induction false} SiftDownPermutes<T>(h: seq<Entry<T>>, hole: nat, x: Entry<T>)
    requires hole < |h|
    ensures multiset(SiftDown(h, hole, x)) == multiset(h[hole := x])
    decreases |h| - hole
  {
    if 2 * hole + 2 <= |h| && Greater(x, h[MinChild(h, hole)]) {
      SiftDownPermutes(h[hole := h[MinChild(h, hole)]], MinChild(h, hole), x);
    }
  }

  lemma SplitLast<T>(h: seq<Entry<T>>)
    requires |h| > 0
    ensures h == h[..|h| - 1] + [h[|h| - 1]]
    ensures multiset(h) == multiset(h[..|h| - 1]) + multiset{h[|h| - 1]}
  {
    assert h == h[..|h| - 1] + [h[|h| - 1]];
  }

  // ---------- The operations ----------

  lemma PushCorrect<T>(h: seq<Entry<T>>, x: Entry<T>)
    requires Ordered(h)
    ensures Ordered(Push(h, x))
    ensures multiset(Push(h, x)) == multiset(h) + multiset{x}
  {
    var w := h + [x];
    assert w[|h| := x] == w;
    SiftUpOrders(w, |h|, x);
    SiftUpPermutes(w, |h|, x);
  }

  lemma {:induction false} RootIsMinimum<T>(h: seq<Entry<T>>, i: nat)
    requires Ordered(h) && i < |h|
    ensures !Greater(h[0], h[i])
    decreases i
  {
    if i > 0 {
      RootIsMinimum(h, Parent(i));
    }
  }

  lemma PopCorrect<T>(h: seq<Entry<T>>)
    requires Ordered(h) && |h| > 0
    ensures Ordered(Pop(h))
    ensures multiset(h) == multiset(Pop(h)) + multiset{h[0]}
  {
    EraseCorrect(h, 0);
  }

  lemma EraseUpReady<T>(h: seq<Entry<T>>, i: nat)
    requires Ordered(h) && 0 < i < |h| && Greater(h[Parent(i)], h[|h| - 1])
    ensures i < |h| - 1 && UpReady(h[..|h| - 1][i := h[|h| - 1]], i)
  {
  }

  lemma EraseDownReady<T>(h: seq<Entry<T>>, i: nat)
    requires Ordered(h) && i < |h| - 1 && !(i > 0 && Greater(h[Parent(i)], h[|h| - 1]))
    ensures DownReady(h[..|h| - 1][i := h[|h| - 1]], i)
  {
  }

  /** Erasing through the upward sift only works on the cells left. */
  lemma EraseUpIsPrefix<T>(h: seq<Entry<T>>, i: nat)
    requires Ordered(h) && 0 < i < |h| && Greater(h[Parent(i)], h[|h| - 1])
    ensures i < |h| - 1
    ensures Erase(h, i) == SiftUpUnconditional(h[..|h| - 1], i, h[|h| - 1])
  {
    var n := |h| - 1;
    SplitLast(h);
    SiftUpUnconditionalIgnoresLast(h[..n], h[n], i, h[n]);
  }

  lemma EraseDownIsPrefix<T>(h: seq<Entry<T>>, i: nat)
    requires i < |h| && !(i > 0 && Greater(h[Parent(i)], h[|h| - 1]))
    ensures Erase(h, i) == SiftDown(h[..|h| - 1], i, h[|h| - 1])
  {
  }

  lemma EraseUp<T>(h: seq<Entry<T>>, i: nat)
    requires Ordered(h) && 0 < i < |h| && Greater(h[Parent(i)], h[|h| - 1])
    ensures Ordered(Erase(h, i))
    ensures multiset(h) == multiset(Erase(h, i)) + multiset{h[i]}
  {
    var n := |h| - 1;
    EraseUpReady(h, i);
    SplitLast(h);
    EraseUpIsPrefix(h, i);
    SiftUpOrders(h[..n], i, h[n]);
    SiftUpPermutes(h[..n], i, h[n]);
  }

  lemma EraseDown<T>(h: seq<Entry<T>>, i: nat)
    requires Ordered(h) && i < |h| && !(i > 0 && Greater(h[Parent(i)], h[|h| - 1]))
    ensures Ordered(Erase(h, i))
    ensures multiset(h) == multiset(Erase(h, i)) + multiset{h[i]}
  {
    var n := |h| - 1;
    SplitLast(h);
    if i < n {
      EraseDownReady(h, i);
      SiftDownOrders(h[..n], i, h[n]);
      SiftDownPermutes(h[..n], i, h[n]);
    }
  }

  /** Erasing from any position: one sift, in the direction the comparison with the hole's parent
      chooses, restores order, and exactly the entry at i is gone. */
  lemma EraseCorrect<T>(h: seq<Entry<T>>, i: nat)
    requires Ordered(h) && i < |h|
    ensures Ordered(Erase(h, i))
    ensures multiset(h) == multiset(Erase(h, i)) + multiset{h[i]}
  {
    if i > 0 && Greater(h[Parent(i)], h[|h| - 1]) {
      EraseUp(h, i);
    } else {
      EraseDown(h, i);
    }
  }

  /** The wrong direction would not do: when the last event is due before the hole's parent,
      sifting down leaves the two out of order. */
  lemma EraseDirectionMatters<T>(h: seq<Entry<T>>, i: nat)
    requires Ordered(h) && i < |h| - 1
    ensures Ordered(SiftDown(h[..|h| - 1], i, h[|h| - 1])) <==> !(i > 0 && Greater(h[Parent(i)], h[|h| - 1]))
  {
    var n := |h| - 1;
    if i > 0 && Greater(h[Parent(i)], h[n]) {
      var r := SiftDown(h[..n], i, h[n]);
      if 2 * i + 2 <= n {
        var c := MinChild(h[..n], i);
        assert !Greater(h[Parent(c)], h[c]);
      }
      assert r == h[..n][i := h[n]];
      assert Greater(r[Parent(i)], r[i]);
    } else {
      EraseDownReady(h, i);
      SiftDownOrders(h[..n], i, h[n]);
    }
  }

  /** Adjust repairs any change of the key at i and keeps the members. */
  lemma AdjustCorrect<T>(h: seq<Entry<T>>, i: nat)
    requires i < |h| && OrderedExceptAt(h, i)
    ensures Ordered(Adjust(h, i))
    ensures multiset(Adjust(h, i)) == multiset(h)
  {
    assert h[i := h[i]] == h;
    if i > 0 && Greater(h[Parent(i)], h[i]) {
      AdjustUpReady(h, i);
      SiftUpOrders(h, i, h[i]);
      SiftUpPermutes(h, i, h[i]);
    } else {
      SiftDownOrders(h, i, h[i]);
      SiftDownPermutes(h, i, h[i]);
    }
  }

  lemma AdjustUpReady<T>(h: seq<Entry<T>>, i: nat)
    requires 0 < i < |h| && OrderedExceptAt(h, i) && Greater(h[Parent(i)], h[i])
    ensures UpReady(h, i)
  {
  }

  /** Adjust sifts up exactly when the event is due strictly before its parent. */
  lemma AdjustDirection<T>(h: seq<Entry<T>>, i: nat)
    requires i < |h|
    ensures Adjust(h, i) == if i > 0 && TimerCmp(h[(i - 1) / 2].key, h[i].key, Gt)
                            then SiftUpUnconditional(h, i, h[i]) else SiftDown(h, i, h[i])
  {
  }

  /** Whatever key the event at i is given, the heap is one that Adjust repairs. */
  lemma AnyKeyChangeIsAdjustable<T>(h: seq<Entry<T>>, i: nat, key: Timeval)
    requires Ordered(h) && i < |h|
    ensures OrderedExceptAt(h[i := Entry(h[i].item, key)], i)
  {
    var w := h[i := Entry(h[i].item, key)];
    forall j | 0 < j < |w| && Parent(j) == i && 0 < i
      ensures !Greater(w[Parent(i)], w[j])
    {
      assert !Greater(h[Parent(i)], h[i]) && !Greater(h[i], h[j]);
    }
  }

  // ---------- Identities ----------

  lemma ItemsOfIsMultisetItems<T>(h: seq<Entry<T>>, e: T)
    ensures e in ItemsOf(h) <==> exists x :: x in multiset(h) && x.item == e
  {
    if e in ItemsOf(h) {
      var j :| 0 <= j < |h| && h[j].item == e;
      assert h[j] in multiset(h);
    }
    if x :| x in multiset(h) && x.item == e {
      var j :| 0 <= j < |h| && h[j] == x;
    }
  }

  lemma PermutationKeepsItems<T>(a: seq<Entry<T>>, b: seq<Entry<T>>)
    requires multiset(a) == multiset(b)
    ensures ItemsOf(a) == ItemsOf(b)
  {
    forall e
      ensures e in ItemsOf(a) <==> e in ItemsOf(b)
    {
      ItemsOfIsMultisetItems(a, e);
      ItemsOfIsMultisetItems(b, e);
    }
  }

  lemma ItemsOfAppend<T>(h: seq<Entry<T>>, x: Entry<T>)
    ensures ItemsOf(h + [x]) == ItemsOf(h) + {x.item}
    ensures forall j :: 0 <= j < |h| ==> h[j].item in ItemsOf(h + [x])
  {
    var w := h + [x];
    assert w[|h|].item in ItemsOf(w);
    forall e | e in ItemsOf(h)
      ensures e in ItemsOf(w)
    {
      var j :| 0 <= j < |h| && h[j].item == e;
      assert w[j].item == e;
    }
    forall j | 0 <= j < |h|
      ensures h[j].item in ItemsOf(w)
    {
      assert w[j] == h[j];
    }
  }

  lemma ItemsOfOthers<T>(h: seq<Entry<T>>, i: nat)
    requires i < |h|
    ensures forall j :: 0 <= j < |h| && j != i ==> h[j].item in ItemsOf(h[..i] + h[i + 1..])
    ensures forall e {:trigger e in ItemsOf(h[..i] + h[i + 1..])} :: e in ItemsOf(h[..i] + h[i + 1..]) ==> exists j :: 0 <= j < |h| && j != i && h[j].item == e
  {
    var rest := h[..i] + h[i + 1..];
    forall j | 0 <= j < |h| && j != i
      ensures h[j].item in ItemsOf(rest)
    {
      assert rest[if j < i then j else j - 1] == h[j];
    }
    forall e | e in ItemsOf(rest)
      ensures exists j :: 0 <= j < |h| && j != i && h[j].item == e
    {
      var k :| 0 <= k < |rest| && rest[k].item == e;
      assert h[if k < i then k else k + 1] == rest[k];
    }
  }

  /** The identities left are those at every other position. */
  lemma EraseItems<T>(h: seq<Entry<T>>, i: nat)
    requires Ordered(h) && i < |h|
    ensures ItemsOf(Erase(h, i)) == ItemsOf(h[..i] + h[i + 1..])
  {
    EraseCorrect(h, i);
    assert h == h[..i] + [h[i]] + h[i + 1..];
    var rest := h[..i] + h[i + 1..];
    assert multiset(h) == multiset(rest) + multiset{h[i]};
    assert multiset(rest) == multiset(h) - multiset{h[i]} == multiset(Erase(h, i));
    PermutationKeepsItems(Erase(h, i), h[..i] + h[i + 1..]);
  }

  // ---------- Popping until empty ----------

  function Drain<T>(h: seq<Entry<T>>): (r: seq<Entry<T>>)
    decreases |h|
  {
    if h == [] then [] else [h[0]] + Drain(Pop(h))
  }

  ghost predicate Sorted<T>(s: seq<Entry<T>>) {
    forall i, j :: 0 <= i < j < |s| ==> !Greater(s[i], s[j])
  }

  lemma RootBoundsMembers<T>(h: seq<Entry<T>>, t: seq<Entry<T>>)
    requires Ordered(h) && |h| > 0 && multiset(t) <= multiset(h)
    ensures forall j :: 0 <= j < |t| ==> !Greater(h[0], t[j])
  {
    forall j | 0 <= j < |t|
      ensures !Greater(h[0], t[j])
    {
      assert t[j] in multiset(t);
      assert t[j] in h;
      var k :| 0 <= k < |h| && h[k] == t[j];
      RootIsMinimum(h, k);
    }
  }

  /** Popping until the heap is empty yields its entries, each once, in nondecreasing timeout order. */
  lemma {:induction false} DrainSorts<T>(h: seq<Entry<T>>)
    requires Ordered(h)
    ensures Sorted(Drain(h))
    ensures multiset(Drain(h)) == multiset(h)
    decreases |h|
  {
    if h != [] {
      PopCorrect(h);
      DrainSorts(Pop(h));
      RootBoundsMembers(h, Drain(Pop(h)));
    }
  }

  // ---------- Cost ----------

  function Pow2(n: nat): nat {
    if n == 0 then 1 else 2 * Pow2(n - 1)
  }

  /** The number of entries a sift moves before its final store. */
  function UpMoves<T>(h: seq<Entry<T>>, hole: nat, x: Entry<T>): nat
    requires hole < |h|
    decreases hole
  {
    if hole > 0 && Greater(h[Parent(hole)], x)
    then 1 + UpMoves(h[hole := h[Parent(hole)]], Parent(hole), x)
    else 0
  }

  function DownMoves<T>(h: seq<Entry<T>>, hole: nat, x: Entry<T>): nat
    requires hole <= |h|
    decreases |h| - hole
  {
    if 2 * hole + 2 <= |h| && Greater(x, h[MinChild(h, hole)])
    then 1 + DownMoves(h[hole := h[MinChild(h, hole)]], MinChild(h, hole), x)
    else 0
  }

  /** A sift up from position hole makes at most floor(log2(hole + 1)) moves. */
  lemma {:induction false} UpMovesLogarithmic<T>(h: seq<Entry<T>>, hole: nat, x: Entry<T>)
    requires hole < |h|
    ensures Pow2(UpMoves(h, hole, x)) <= hole + 1 <= |h|
    decreases hole
  {
    if hole > 0 && Greater(h[Parent(hole)], x) {
      UpMovesLogarithmic(h[hole := h[Parent(hole)]], Parent(hole), x);
    }
  }

  /** The unconditional form makes one move more than the loop above it, and keeps the bound. */
  lemma UnconditionalMovesLogarithmic<T>(h: seq<Entry<T>>, hole: nat, x: Entry<T>)
    requires 0 < hole < |h|
    ensures Pow2(1 + UpMoves(h[hole := h[Parent(hole)]], Parent(hole), x)) <= hole + 1 <= |h|
  {
    UpMovesLogarithmic(h[hole := h[Parent(hole)]], Parent(hole), x);
  }

  lemma DoublingFits(p: nat, a: nat, c: nat, n: nat)
    requires 2 * a <= c && p * c <= n
    ensures 2 * p * a <= n
  {
    assert p * (2 * a) <= p * c;
  }

  /** A sift down in a heap of n entries makes at most floor(log2(n / (hole + 1))) moves. */
  lemma {:induction false} DownMovesLogarithmic<T>(h: seq<Entry<T>>, hole: nat, x: Entry<T>)
    requires hole < |h|
    ensures Pow2(DownMoves(h, hole, x)) * (hole + 1) <= |h|
    decreases |h| - hole
  {
    if 2 * hole + 2 <= |h| && Greater(x, h[MinChild(h, hole)]) {
      var c := MinChild(h, hole);
      var k := DownMoves(h[hole := h[c]], c, x);
      DownMovesLogarithmic(h[hole := h[c]], c, x);
      DoublingFits(Pow2(k), hole + 1, c + 1, |h|);
      assert Pow2(1 + k) == 2 * Pow2(k);
    }
  }

  /** The position k levels up. */
  function Ancestor(i: nat, k: nat): (a: int)
    decreases k
  {
    if k == 0 then i else if i == 0 then -1 else Ancestor(Parent(i), k - 1)
  }

  /** The climb: the placed entry ends as many levels up as entries are moved; it has passed exactly the
      ones due strictly after it, and stops below the first that is not. */
  lemma {:induction false} UpMovesIsTheClimb<T>(h: seq<Entry<T>>, hole: nat, x: Entry<T>)
    requires hole < |h|
    ensures var k := UpMoves(h, hole, x); var p := Ancestor(hole, k);
            && 0 <= p <= hole && SiftUp(h, hole, x)[p] == x
            && (forall l :: 0 < l <= k ==> 0 <= Ancestor(hole, l) < hole && Greater(h[Ancestor(hole, l)], x))
            && (p > 0 ==> !Greater(h[Parent(p)], x))
    decreases hole
  {
    if hole > 0 && Greater(h[Parent(hole)], x) {
      var h1 := h[hole := h[Parent(hole)]];
      UpMovesIsTheClimb(h1, Parent(hole), x);
      forall l | 0 < l <= UpMoves(h, hole, x)
        ensures 0 <= Ancestor(hole, l) < hole && Greater(h[Ancestor(hole, l)], x)
      {
        assert Ancestor(hole, l) == Ancestor(Parent(hole), l - 1);
        assert l > 1 ==> Greater(h1[Ancestor(Parent(hole), l - 1)], x);
      }
    }
  }

  lemma {:induction false} AncestorStep(d: nat, k: nat, c: nat)
    requires Ancestor(d, k) == c > 0
    ensures Ancestor(d, k + 1) == Parent(c)
    decreases k
  {
    if k > 0 {
      AncestorStep(Parent(d), k - 1, c);
    }
  }

  /** The placed entry is due strictly after the entry at p. */
  predicate Passed<T>(r: seq<Entry<T>>, p: int, x: Entry<T>) {
    0 <= p < |r| && Greater(x, r[p])
  }

  /** The descent: the placed entry ends as many levels below its hole as entries are moved, and every entry
      moved up is due strictly before it. */
  lemma {:induction false} DownMovesIsTheDescent<T>(h: seq<Entry<T>>, hole: nat, x: Entry<T>) returns (d: nat)
    requires hole < |h|
    ensures d < |h| && SiftDown(h, hole, x)[d] == x && Ancestor(d, DownMoves(h, hole, x)) == hole
    ensures forall l :: 0 < l <= DownMoves(h, hole, x) ==> Passed(SiftDown(h, hole, x), Ancestor(d, l), x)
    decreases |h| - hole
  {
    d := hole;
    if 2 * hole + 2 <= |h| && Greater(x, h[MinChild(h, hole)]) {
      var c := MinChild(h, hole);
      d := DownMovesIsTheDescent(h[hole := h[c]], c, x);
      AncestorStep(d, DownMoves(h[hole := h[c]], c, x), c);
      SiftDownStaysBelow(h[hole := h[c]], c, x);
    }
  }

  /** A sift down leaves the positions before its hole alone. */
  lemma {:induction false} SiftDownStaysBelow<T>(h: seq<Entry<T>>, hole: nat, x: Entry<T>)
    requires hole < |h|
    ensures forall j :: 0 <= j < hole ==> SiftDown(h, hole, x)[j] == h[j]
    decreases |h| - hole
  {
    if 2 * hole + 2 <= |h| && Greater(x, h[MinChild(h, hole)]) {
      SiftDownStaysBelow(h[hole := h[MinChild(h, hole)]], MinChild(h, hole), x);
    }
  }

  // ---------- Moving the clock ----------

  /** Every timeout moved by the same duration, forwards or backwards. */
  function Shift<T>(h: seq<Entry<T>>, d: Timeval, back: bool): seq<Entry<T>> {
    seq(|h|, i requires 0 <= i < |h| => Entry(h[i].item, if back then Sub(h[i].key, d) else Add(h[i].key, d)))
  }

  /** So moved, every event is due that much later or earlier, and a heap is ordered exactly if it was. */
  lemma ShiftKeepsOrder<T>(h: seq<Entry<T>>, d: Timeval, back: bool)
    requires d.Normal() && forall i :: 0 <= i < |h| ==> h[i].key.Normal()
    ensures forall i :: 0 <= i < |h| ==> Shift(h, d, back)[i].item == h[i].item
    ensures forall i :: 0 <= i < |h| ==>
              Shift(h, d, back)[i].key.Total() == if back then h[i].key.Total() - d.Total() else h[i].key.Total() + d.Total()
    ensures Ordered(Shift(h, d, back)) <==> Ordered(h)
  {
    var r := Shift(h, d, back);
    forall j | 0 < j < |h|
      ensures Greater(r[Parent(j)], r[j]) <==> Greater(h[Parent(j)], h[j])
    {
      CmpIsShiftInvariant(h[Parent(j)].key, h[j].key, d, Gt);
    }
  }
}
