/** What the bounded heap computes, on the sequence of live items, and the order it keeps.

    `compare(parent, child)` says that the child must move above the parent. Sift-down stops
    at the first node without a right child, so a lone left child is never compared. */
module HeapOrder {

  type Compare<!T> = (T, T) -> bool

  /** `a` ranks at or above `b`. */
  predicate Over<T>(compare: Compare<T>, a: T, b: T) {
    !compare(a, b)
  }

  predicate TransitiveAt<T>(compare: Compare<T>, a: T, b: T, c: T) {
    Over(compare, a, b) && Over(compare, b, c) ==> Over(compare, a, c)
  }

  ghost predicate StrictWeakOrder<T(!new)>(compare: Compare<T>) {
    && (forall a, b :: compare(a, b) ==> !compare(b, a))
    && (forall a, b, c :: TransitiveAt(compare, a, b, c))
  }

  function Parent(i: nat): (p: nat)
    requires i > 0
    ensures p < i && (i == 2 * p + 1 || i == 2 * p + 2)
  {
    (i - 1) / 2
  }

  // ----- the operations -----

  function Swap<T>(s: seq<T>, i: nat, j: nat): (r: seq<T>)
    requires i < |s| && j < |s|
    ensures |r| == |s| && r[i] == s[j] && r[j] == s[i]
    ensures forall k :: 0 <= k < |s| && k != i && k != j ==> r[k] == s[k]
  {
    s[i := s[j]][j := s[i]]
  }

  function SiftUp<T>(compare: Compare<T>, s: seq<T>, i: nat): (r: seq<T>)
    requires i < |s|
    ensures |r| == |s|
    decreases i
  {
    if i > 0 && compare(s[Parent(i)], s[i])
    then SiftUp(compare, Swap(s, Parent(i), i), Parent(i))
    else s
  }

  /** The node that ends up at `i`: `i` itself, or the child it is swapped with. */
  function Arbitrate<T>(compare: Compare<T>, s: seq<T>, i: nat): (c: nat)
    requires 2 * i + 2 < |s|
    ensures c == i || c == 2 * i + 1 || c == 2 * i + 2
  {
    var l, r := 2 * i + 1, 2 * i + 2;
    var leftSwap, rightSwap := compare(s[i], s[l]), compare(s[i], s[r]);
    if leftSwap && rightSwap then (if compare(s[l], s[r]) then r else l)
    else if leftSwap then l
    else if rightSwap then r
    else i
  }

  function SiftDown<T>(compare: Compare<T>, s: seq<T>, i: nat): (r: seq<T>)
    requires i < |s|
    ensures |r| == |s|
    decreases |s| - i
  {
    if 2 * i + 2 >= |s| then s
    else
      var c := Arbitrate(compare, s, i);
      if c == i then s else SiftDown(compare, Swap(s, i, c), c)
  }

  function Push<T>(compare: Compare<T>, s: seq<T>, x: T): (r: seq<T>)
    ensures |r| == |s| + 1
  {
    SiftUp(compare, s + [x], |s|)
  }

  /** What remains after the root has been taken: the last item replaces it and sinks. */
  function PopRest<T>(compare: Compare<T>, s: seq<T>): (r: seq<T>)
    requires s != []
    ensures |r| == |s| - 1
  {
    var rest := s[..|s| - 1];
    if rest == [] then rest else SiftDown(compare, rest[0 := s[|s| - 1]], 0)
  }

  // ----- conservation -----

  lemma {:induction false} SiftUpPermutes<T>(compare: Compare<T>, s: seq<T>, i: nat)
    requires i < |s|
    ensures multiset(SiftUp(compare, s, i)) == multiset(s)
    decreases i
  {
    if i > 0 && compare(s[Parent(i)], s[i]) {
      SiftUpPermutes(compare, Swap(s, Parent(i), i), Parent(i));
    }
  }

  lemma {:induction false} SiftDownPermutes<T>(compare: Compare<T>, s: seq<T>, i: nat)
    requires i < |s|
    ensures multiset(SiftDown(compare, s, i)) == multiset(s)
    decreases |s| - i
  {
    if 2 * i + 2 < |s| && Arbitrate(compare, s, i) != i {
      var c := Arbitrate(compare, s, i);
      SiftDownPermutes(compare, Swap(s, i, c), c);
    }
  }

  /** A push adds exactly the new item. */
  lemma PushAdds<T>(compare: Compare<T>, s: seq<T>, x: T)
    ensures multiset(Push(compare, s, x)) == multiset(s) + multiset{x}
  {
    SiftUpPermutes(compare, s + [x], |s|);
  }

  /** An item gives way only to one that ranks strictly above it: equals keep their places. */
  lemma {:induction false} SiftUpDisplaces<T>(compare: Compare<T>, s: seq<T>, i: nat, k: nat)
    requires i < |s| && k < |s| && k != i
    ensures SiftUp(compare, s, i)[k] == s[k] || compare(s[k], s[i])
    ensures k > i ==> SiftUp(compare, s, i)[k] == s[k]
    decreases i
  {
    if i > 0 && compare(s[Parent(i)], s[i]) && k != Parent(i) {
      SiftUpDisplaces(compare, Swap(s, Parent(i), i), Parent(i), k);
    }
  }

  /** So a push moves only items that the new one outranks. */
  lemma PushDisplaces<T>(compare: Compare<T>, s: seq<T>, x: T, k: nat)
    requires k < |s|
    ensures Push(compare, s, x)[k] == s[k] || compare(s[k], x)
  {
    SiftUpDisplaces(compare, s + [x], |s|, k);
  }

  /** A pop removes exactly the returned root. */
  lemma PopRemoves<T>(compare: Compare<T>, s: seq<T>)
    requires s != []
    ensures multiset(PopRest(compare, s)) + multiset{s[0]} == multiset(s)
  {
    var rest, last := s[..|s| - 1], s[|s| - 1];
    assert s == rest + [last];
    if rest != [] {
      SiftDownPermutes(compare, rest[0 := last], 0);
      assert multiset(rest[0 := last]) == multiset(rest) - multiset{s[0]} + multiset{last};
    }
  }

  lemma {:induction false} SiftDownDisplaces<T>(compare: Compare<T>, s: seq<T>, i: nat, k: nat)
    requires i < |s| && k < |s| && k != i
    ensures var r := SiftDown(compare, s, i);
            r[k] == s[k] || (k > i && r[Parent(k)] == s[k] && compare(s[i], s[k]))
    decreases |s| - i
  {
    if 2 * i + 2 < |s| {
      var c := Arbitrate(compare, s, i);
      if c != i {
        SiftDownDisplaces(compare, Swap(s, i, c), c, if k == c then i else k);
      }
    }
  }

  /** A pop moves an item only to its parent's place, and only past the last item, which it
      outranks. */
  lemma PopDisplaces<T>(compare: Compare<T>, s: seq<T>, k: nat)
    requires 0 < k < |s| - 1
    ensures var r := PopRest(compare, s);
            r[k] == s[k] || (r[Parent(k)] == s[k] && compare(s[|s| - 1], s[k]))
  {
    SiftDownDisplaces(compare, s[..|s| - 1][0 := s[|s| - 1]], 0, k);
  }

  // ----- heap order, and the weaker order the code keeps -----

  predicate Edge<T>(compare: Compare<T>, s: seq<T>, i: nat)
    requires 0 < i < |s|
  {
    Over(compare, s[Parent(i)], s[i])
  }

  ghost predicate Ordered<T>(compare: Compare<T>, s: seq<T>) {
    forall i | 0 < i < |s| :: Edge(compare, s, i)
  }

  /** The last item is a left child without a right sibling. */
  predicate EndsInLoneChild<T>(s: seq<T>) {
    s != [] && |s| % 2 == 0
  }

  /** Heap order except for the edge to a lone left child, which instead ranks at or
      below its grandparent, when it has one. */
  ghost predicate OrderedButLone<T>(compare: Compare<T>, s: seq<T>) {
    && (forall i | 0 < i < |s| :: (i == |s| - 1 && EndsInLoneChild(s)) || Edge(compare, s, i))
    && (EndsInLoneChild(s) && |s| > 2 ==>
          Over(compare, s[Parent(Parent(|s| - 1))], s[|s| - 1]))
  }

  ghost predicate IsTop<T>(compare: Compare<T>, s: seq<T>, x: T) {
    forall i | 0 <= i < |s| :: Over(compare, x, s[i])
  }

  lemma OrderedIsOrderedButLone<T(!new)>(compare: Compare<T>, s: seq<T>)
    requires StrictWeakOrder(compare) && Ordered(compare, s)
    ensures OrderedButLone(compare, s)
  {
    if EndsInLoneChild(s) && |s| > 2 {
      var p := Parent(|s| - 1);
      assert Edge(compare, s, p) && Edge(compare, s, |s| - 1);
      assert TransitiveAt(compare, s[Parent(p)], s[p], s[|s| - 1]);
    }
  }

  // ----- push -----

  /** In order but for the edge above `i`, whose children may pass under `i`'s parent. */
  ghost predicate HoleAbove<T>(compare: Compare<T>, s: seq<T>, i: nat)
    requires i < |s|
  {
    && (forall j | 0 < j < |s| && j != i :: Edge(compare, s, j))
    && (i > 0 ==> forall j | 0 < j < |s| && Parent(j) == i :: Over(compare, s[Parent(i)], s[j]))
  }

  lemma {:induction false} SiftUpOrders<T(!new)>(compare: Compare<T>, s: seq<T>, i: nat)
    requires StrictWeakOrder(compare) && i < |s| && HoleAbove(compare, s, i)
    ensures Ordered(compare, SiftUp(compare, s, i))
    decreases i
  {
    if i > 0 && compare(s[Parent(i)], s[i]) {
      var p, t := Parent(i), Swap(s, Parent(i), i);
      forall j | 0 < j < |t| && j != p
        ensures Edge(compare, t, j)
      {
        assert j != i ==> Edge(compare, s, j);
        assert TransitiveAt(compare, s[i], s[p], s[j]);
      }
      if p > 0 {
        assert Edge(compare, s, p);
        forall j | 0 < j < |t| && Parent(j) == p
          ensures Over(compare, t[Parent(p)], t[j])
        {
          assert j != i ==> Edge(compare, s, j);
          assert TransitiveAt(compare, s[Parent(p)], s[p], s[j]);
        }
      }
      SiftUpOrders(compare, t, p);
    }
  }

  /** A push onto an ordered heap keeps it ordered. */
  lemma PushKeepsOrder<T(!new)>(compare: Compare<T>, s: seq<T>, x: T)
    requires StrictWeakOrder(compare) && Ordered(compare, s)
    ensures Ordered(compare, Push(compare, s, x))
  {
    var t := s + [x];
    forall j | 0 < j < |t| && j != |s|
      ensures Edge(compare, t, j)
    {
      assert Edge(compare, s, j);
    }
    SiftUpOrders(compare, t, |s|);
  }

  /** The check a caller can make: with a lone child, its parent or the new item ranks
      at or above it. */
  predicate SafePush<T>(compare: Compare<T>, s: seq<T>, x: T) {
    EndsInLoneChild(s) ==>
      Over(compare, s[Parent(|s| - 1)], s[|s| - 1]) || Over(compare, x, s[|s| - 1])
  }

  /** A push restores full order exactly when it is safe, and otherwise loses even the
      weaker order. */
  lemma PushOrderedIffSafe<T(!new)>(compare: Compare<T>, s: seq<T>, x: T)
    requires StrictWeakOrder(compare) && OrderedButLone(compare, s)
    ensures Ordered(compare, Push(compare, s, x)) <==> SafePush(compare, s, x)
    ensures OrderedButLone(compare, Push(compare, s, x)) <==> SafePush(compare, s, x)
  {
    if !EndsInLoneChild(s) || Edge(compare, s, |s| - 1) {
      PushKeepsOrder(compare, s, x);
      OrderedIsOrderedButLone(compare, Push(compare, s, x));
    } else if SafePush(compare, s, x) {
      SafePushOverLoneChild(compare, s, x);
    } else {
      UnsafePushLeavesLoneChild(compare, s, x);
    }
  }

  lemma SafePushOverLoneChild<T(!new)>(compare: Compare<T>, s: seq<T>, x: T)
    requires StrictWeakOrder(compare) && OrderedButLone(compare, s)
    requires EndsInLoneChild(s) && !Edge(compare, s, |s| - 1) && Over(compare, x, s[|s| - 1])
    ensures Ordered(compare, Push(compare, s, x))
  {
    hide Ordered;
    var n, p := |s|, Parent(|s|);
    assert p == Parent(n - 1);
    assert TransitiveAt(compare, s[p], x, s[n - 1]);
    var t := Swap(s + [x], p, n);
    assert HoleAbove(compare, t, p) by {
      forall j | 0 < j < |t| && j != p
        ensures Edge(compare, t, j)
      {
        assert j < n - 1 ==> Edge(compare, s, j);
      }
      assert p > 0 ==> Edge(compare, s, p);
    }
    SiftUpOrders(compare, t, p);
  }

  lemma UnsafePushLeavesLoneChild<T(!new)>(compare: Compare<T>, s: seq<T>, x: T)
    requires StrictWeakOrder(compare) && OrderedButLone(compare, s)
    requires !SafePush(compare, s, x)
    ensures !Edge(compare, Push(compare, s, x), |s| - 1)
  {
    var n, p := |s|, Parent(|s|);
    assert p == Parent(n - 1);
    if compare(s[p], x) {
      var t := Swap(s + [x], p, n);
      assert p > 0 ==> TransitiveAt(compare, x, s[Parent(p)], s[n - 1]);
      assert SiftUp(compare, t, p) == t;
    }
  }

  // ----- pop -----

  /** In order but for the edges below `i`, whose children rank at or below `i`'s parent. */
  ghost predicate HoleBelow<T>(compare: Compare<T>, s: seq<T>, i: nat)
    requires i < |s|
  {
    && (forall j | 0 < j < |s| && Parent(j) != i :: Edge(compare, s, j))
    && (i > 0 ==> forall j | 0 < j < |s| && Parent(j) == i :: Over(compare, s[Parent(i)], s[j]))
  }

  /** Swap arbitration brings the top of a node and its two children to the node; among equals
      the node stays, and the left child goes before the right. */
  lemma ArbitrateTakesTop<T(!new)>(compare: Compare<T>, s: seq<T>, i: nat)
    requires StrictWeakOrder(compare) && 2 * i + 2 < |s|
    ensures var c := Arbitrate(compare, s, i);
            && (forall j | j == i || j == 2 * i + 1 || j == 2 * i + 2 :: Over(compare, s[c], s[j]))
            && (forall j | j == i || (j == 2 * i + 1 && j < c) :: j != c ==> compare(s[j], s[c]))
  {
    var c := Arbitrate(compare, s, i);
    assert TransitiveAt(compare, s[c], s[i], s[2 * i + 1]);
    assert TransitiveAt(compare, s[c], s[i], s[2 * i + 2]);
    assert TransitiveAt(compare, s[i], s[2 * i + 1], s[2 * i + 2]);
  }

  lemma {:induction false} SiftDownOrders<T(!new)>(compare: Compare<T>, s: seq<T>, i: nat)
    requires StrictWeakOrder(compare) && i < |s| && HoleBelow(compare, s, i)
    ensures OrderedButLone(compare, SiftDown(compare, s, i))
    decreases |s| - i
  {
    if 2 * i + 2 < |s| {
      var c := Arbitrate(compare, s, i);
      ArbitrateTakesTop(compare, s, i);
      if c == i {
        assert Ordered(compare, s);
        OrderedIsOrderedButLone(compare, s);
      } else {
        SwapMovesHoleDown(compare, s, i, c);
        SiftDownOrders(compare, Swap(s, i, c), c);
      }
    } else {
      HoleAtBottom(compare, s, i);
    }
  }

  /** A node without a right child leaves at most the edge to a lone child open. */
  lemma HoleAtBottom<T(!new)>(compare: Compare<T>, s: seq<T>, i: nat)
    requires StrictWeakOrder(compare) && i < |s| <= 2 * i + 2 && HoleBelow(compare, s, i)
    ensures OrderedButLone(compare, s)
  {
    if |s| == 2 * i + 2 {
      hide StrictWeakOrder;
      assert Parent(|s| - 1) == i;
    } else {
      assert Ordered(compare, s);
      OrderedIsOrderedButLone(compare, s);
    }
  }

  lemma SwapMovesHoleDown<T(!new)>(compare: Compare<T>, s: seq<T>, i: nat, c: nat)
    requires i < c < |s| && HoleBelow(compare, s, i) && Parent(c) == i
    requires forall j | 0 < j < |s| && Parent(j) == i && j != c :: Over(compare, s[c], s[j])
    requires Over(compare, s[c], s[i])
    ensures HoleBelow(compare, Swap(s, i, c), c)
  {
    var t := Swap(s, i, c);
    forall j | 0 < j < |t| && Parent(j) != c
      ensures Edge(compare, t, j)
    {
      assert Parent(j) != i ==> Edge(compare, s, j);
    }
    forall j | 0 < j < |t| && Parent(j) == c
      ensures Over(compare, t[Parent(c)], t[j])
    {
      assert Edge(compare, s, j);
    }
  }

  lemma PopKeepsOrderButLone<T(!new)>(compare: Compare<T>, s: seq<T>)
    requires StrictWeakOrder(compare) && s != [] && OrderedButLone(compare, s)
    ensures OrderedButLone(compare, PopRest(compare, s))
  {
    var rest := s[..|s| - 1];
    if rest != [] {
      var t := rest[0 := s[|s| - 1]];
      forall j | 0 < j < |t| && Parent(j) != 0
        ensures Edge(compare, t, j)
      {
        assert Edge(compare, s, j);
      }
      SiftDownOrders(compare, t, 0);
    }
  }

  lemma {:induction false} RootOver<T(!new)>(compare: Compare<T>, s: seq<T>, j: nat)
    requires StrictWeakOrder(compare) && OrderedButLone(compare, s)
    requires j < |s| && |s| != 2
    ensures Over(compare, s[0], s[j])
  {
    if j > 0 {
      var above := if Edge(compare, s, j) then Parent(j) else Parent(Parent(j));
      RootOver(compare, s, above);
      assert TransitiveAt(compare, s[0], s[above], s[j]);
    }
  }

  /** A pop returns a top-ranked item, unless exactly two items are held and the second
      outranks the first. */
  lemma PopIsTopIff<T(!new)>(compare: Compare<T>, s: seq<T>)
    requires StrictWeakOrder(compare) && s != [] && OrderedButLone(compare, s)
    ensures IsTop(compare, s, s[0]) <==> |s| != 2 || Over(compare, s[0], s[1])
  {
    if |s| != 2 {
      forall j | 0 <= j < |s| ensures Over(compare, s[0], s[j]) {
        RootOver(compare, s, j);
      }
    }
  }
}
