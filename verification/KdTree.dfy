/** The k-d trees of color/kdtree_lab.cpp: nearest palette entry by pruned search, and the plain
    scan it must agree with. The integer L*a*b* coordinates are taken as given. */
module KdTree {
  import opened Counting

  datatype Lab = Lab(L: int, a: int, b: int)

  function Square(x: int): int {
    x * x
  }

  /** The squared CIE76 difference. */
  function Diff(p: Lab, q: Lab): int {
    Square(p.L - q.L) + Square(p.a - q.a) + Square(p.b - q.b)
  }

  /** The coordinate that a level of the tree splits on. */
  function Along(p: Lab, depth: nat): int {
    if depth % 3 == 0 then p.L else if depth % 3 == 1 then p.a else p.b
  }

  // ----- trees as values -----

  datatype Tree = Leaf | Node(left: Tree, index: nat, right: Tree)

  function Items(t: Tree): multiset<nat> {
    match t
    case Leaf => multiset{}
    case Node(l, i, r) => Items(l) + multiset{i} + Items(r)
  }

  function Height(t: Tree): nat {
    match t
    case Leaf => 0
    case Node(l, _, r) => 1 + if Height(l) >= Height(r) then Height(l) else Height(r)
  }

  /** floor(log2 n) + 1 */
  function Levels(n: nat): nat {
    if n == 0 then 0 else 1 + Levels(n / 2)
  }

  predicate Within(t: Tree, n: nat) {
    t.Node? ==> t.index < n && Within(t.left, n) && Within(t.right, n)
  }

  ghost predicate AllBelow(items: multiset<nat>, n: nat) {
    forall i :: i in items ==> i < n
  }

  lemma {:induction false} WithinItems(t: Tree, n: nat)
    ensures Within(t, n) <==> AllBelow(Items(t), n)
  {
    if t.Node? {
      WithinItems(t.left, n);
      WithinItems(t.right, n);
      var l, r := Items(t.left), Items(t.right);
      assert Items(t) == l + multiset{t.index} + r;
      hide Items;
      assert t.index in l + multiset{t.index} + r;
      assert forall i :: i in l || i in r ==> i in l + multiset{t.index} + r;
    }
  }

  /** At every node the left side is at most, the right side at least, the node's coordinate. */
  ghost predicate Ordered(points: seq<Lab>, t: Tree, depth: nat)
  {
    t.Node? ==>
      && t.index < |points|
      && (forall i :: i in Items(t.left) ==> i < |points| && Along(points[i], depth) <= Along(points[t.index], depth))
      && (forall i :: i in Items(t.right) ==> i < |points| && Along(points[i], depth) >= Along(points[t.index], depth))
      && Ordered(points, t.left, depth + 1) && Ordered(points, t.right, depth + 1)
  }

  // ----- the search, on values -----

  /** iBest and rBest; index -1 while nothing was seen. */
  datatype Best = Best(index: int, distance: int)

  function Consider(points: seq<Lab>, q: Lab, best: Best, i: nat): Best
    requires i < |points|
  {
    var r := Diff(q, points[i]);
    if best.index == -1 || r < best.distance then Best(i, r) else best
  }

  /** How far the query lies beyond the splitting plane of the node. */
  function Gap(points: seq<Lab>, t: Tree, depth: nat, q: Lab): int
    requires t.Node? && t.index < |points|
  {
    Along(q, depth) - Along(points[t.index], depth)
  }

  function Near(t: Tree, gap: int): Tree
    requires t.Node?
  {
    if gap < 0 then t.left else t.right
  }

  function Far(t: Tree, gap: int): Tree
    requires t.Node?
  {
    if gap < 0 then t.right else t.left
  }

  function Visit(points: seq<Lab>, t: Tree, depth: nat, q: Lab, best: Best): Best
    requires Within(t, |points|)
    decreases t
  {
    if t.Leaf? then best
    else
      var gap := Gap(points, t, depth, q);
      var best' := Visit(points, Near(t, gap), depth + 1, q, Consider(points, q, best, t.index));
      if Square(gap) < best'.distance then Visit(points, Far(t, gap), depth + 1, q, best') else best'
  }

  /** The remembered distance belongs to the remembered entry. */
  ghost predicate Coherent(points: seq<Lab>, q: Lab, best: Best) {
    best.index == -1 || (0 <= best.index < |points| && best.distance == Diff(q, points[best.index]))
  }

  /** best' is the nearest of best and the items. */
  ghost predicate Nearest(points: seq<Lab>, q: Lab, items: multiset<nat>, best: Best, best': Best)
    requires AllBelow(items, |points|)
  {
    && Coherent(points, q, best')
    && (best' == best || (best'.index >= 0 && best'.index in items))
    && (best.index != -1 ==> best'.index != -1 && best'.distance <= best.distance)
    && (forall i :: i in items ==> best'.index != -1 && best'.distance <= Diff(q, points[i]))
  }

  lemma SquareGrows(x: int, y: int)
    requires 0 <= x <= y || y <= x <= 0
    ensures Square(x) <= Square(y)
  {
    if 0 <= x {
      assert x * x <= x * y <= y * y;
    } else {
      assert x * x <= x * y <= y * y;
    }
  }

  /** One coordinate alone bounds the difference from below. */
  lemma AxisBound(p: Lab, q: Lab, depth: nat)
    ensures Square(Along(q, depth) - Along(p, depth)) <= Diff(q, p)
  {
    SquareGrows(0, q.L - p.L);
    SquareGrows(0, q.a - p.a);
    SquareGrows(0, q.b - p.b);
  }

  /** An entry beyond the splitting plane is at least as far as the plane, ties included. */
  lemma BeyondPlane(p: Lab, here: Lab, q: Lab, depth: nat)
    requires var d := Along(q, depth) - Along(here, depth);
      if d < 0 then Along(p, depth) >= Along(here, depth) else Along(p, depth) <= Along(here, depth)
    ensures Square(Along(q, depth) - Along(here, depth)) <= Diff(q, p)
  {
    SquareGrows(Along(q, depth) - Along(here, depth), Along(q, depth) - Along(p, depth));
    AxisBound(p, q, depth);
  }

  lemma NearestPair(points: seq<Lab>, q: Lab, near: multiset<nat>, i: nat, best: Best, b1: Best, b2: Best)
    requires i < |points| && AllBelow(near, |points|)
    requires Coherent(points, q, best) && b1 == Consider(points, q, best, i) && Nearest(points, q, near, b1, b2)
    ensures AllBelow(near + multiset{i}, |points|) && Nearest(points, q, near + multiset{i}, best, b2)
    ensures Coherent(points, q, b2) && b2.index != -1
  {
  }

  lemma NearestBoth(points: seq<Lab>, q: Lab, xs: multiset<nat>, ys: multiset<nat>, best: Best, b1: Best, b2: Best)
    requires AllBelow(xs, |points|) && AllBelow(ys, |points|)
    requires Nearest(points, q, xs, best, b1) && Nearest(points, q, ys, b1, b2)
    ensures AllBelow(xs + ys, |points|) && Nearest(points, q, xs + ys, best, b2)
  {
  }

  lemma Pruned(points: seq<Lab>, q: Lab, t: Tree, depth: nat, best: Best)
    requires Within(t, |points|) && t.Node? && Ordered(points, t, depth)
    requires Coherent(points, q, best) && best.index != -1 && best.distance <= Square(Gap(points, t, depth, q))
    ensures var far := Far(t, Gap(points, t, depth, q));
      AllBelow(Items(far), |points|) && Nearest(points, q, Items(far), best, best)
  {
    forall i | i in Items(Far(t, Gap(points, t, depth, q))) ensures i < |points| && best.distance <= Diff(q, points[i]) {
      BeyondPlane(points[i], points[t.index], q, depth);
    }
  }

  lemma ConsiderCoherent(points: seq<Lab>, q: Lab, best: Best, i: nat)
    requires i < |points| && Coherent(points, q, best)
    ensures Coherent(points, q, Consider(points, q, best, i)) && Consider(points, q, best, i).index != -1
  {
  }

  lemma {:induction false} NearestNode(points: seq<Lab>, q: Lab, t: Tree, gap: int, best: Best, b2: Best, b3: Best)
    requires t.Node? && Within(t, |points|) && AllBelow(Items(Near(t, gap)) + multiset{t.index}, |points|)
    requires AllBelow(Items(Far(t, gap)), |points|) && AllBelow(Items(t), |points|)
    requires Nearest(points, q, Items(Near(t, gap)) + multiset{t.index}, best, b2) && Nearest(points, q, Items(Far(t, gap)), b2, b3)
    ensures Nearest(points, q, Items(t), best, b3)
  {
    NearestBoth(points, q, Items(Near(t, gap)) + multiset{t.index}, Items(Far(t, gap)), best, b2, b3);
    assert Items(t) == Items(Near(t, gap)) + multiset{t.index} + Items(Far(t, gap));
  }

  lemma NearestLeaf(points: seq<Lab>, q: Lab, best: Best)
    requires Coherent(points, q, best)
    ensures Nearest(points, q, multiset{}, best, best)
  {
  }

  /** The pruned search finds the nearest of everything in the tree. */
  lemma {:induction false} VisitNearest(points: seq<Lab>, t: Tree, depth: nat, q: Lab, best: Best)
    requires Within(t, |points|) && Ordered(points, t, depth) && Coherent(points, q, best)
    ensures AllBelow(Items(t), |points|) && Nearest(points, q, Items(t), best, Visit(points, t, depth, q, best))
    decreases t
  {
    hide Nearest, Coherent, Gap, Square, Diff, Consider, Along, AllBelow;
    WithinItems(t, |points|);
    if t.Leaf? {
      NearestLeaf(points, q, best);
    } else {
      var gap := Gap(points, t, depth, q);
      var near, far := Near(t, gap), Far(t, gap);
      var b1 := Consider(points, q, best, t.index);
      var b2 := Visit(points, near, depth + 1, q, b1);
      ConsiderCoherent(points, q, best, t.index);
      VisitNearest(points, near, depth + 1, q, b1);
      NearestPair(points, q, Items(near), t.index, best, b1, b2);
      var b3 := Visit(points, t, depth, q, best);
      if Square(gap) < b2.distance {
        VisitNearest(points, far, depth + 1, q, b2);
      } else {
        Pruned(points, q, t, depth, b2);
      }
      NearestNode(points, q, t, gap, best, b2, b3);
    }
  }

  // ----- ties -----

  /** The entries in the order of a search that prunes nothing: the node, the side on which the
      query lies, the other side. */
  function VisitOrder(points: seq<Lab>, t: Tree, depth: nat, q: Lab): seq<nat>
    requires Within(t, |points|)
    decreases t
  {
    match t
    case Leaf => []
    case Node(l, i, r) =>
      var left, right := VisitOrder(points, l, depth + 1, q), VisitOrder(points, r, depth + 1, q);
      [i] + if Along(q, depth) < Along(points[i], depth) then left + right else right + left
  }

  lemma {:induction false} OrderItems(points: seq<Lab>, t: Tree, depth: nat, q: Lab)
    requires Within(t, |points|)
    ensures multiset(VisitOrder(points, t, depth, q)) == Items(t)
    decreases t
  {
    if t.Node? {
      OrderItems(points, t.left, depth + 1, q);
      OrderItems(points, t.right, depth + 1, q);
    }
  }

  /** best' is nearer than best and than every entry in front of entry k, and is entry k. */
  ghost predicate FirstAt(points: seq<Lab>, q: Lab, order: seq<nat>, best: Best, best': Best, k: nat)
    requires k < |order| && InTable(points, order)
  {
    && best'.index == order[k] && (best.index != -1 ==> best'.distance < best.distance)
    && forall j :: 0 <= j < k ==> best'.distance < Diff(q, points[order[j]])
  }

  /** No entry is nearer than best'. */
  ghost predicate NoneNearer(points: seq<Lab>, q: Lab, order: seq<nat>, best': Best)
    requires InTable(points, order)
  {
    forall k :: 0 <= k < |order| ==> NotNearer(points, q, order[k], best')
  }

  ghost predicate NotNearer(points: seq<Lab>, q: Lab, i: nat, best: Best)
    requires i < |points|
  {
    best.index != -1 && best.distance <= Diff(q, points[i])
  }

  /** best' is the best of best and these entries, in this order: a later one replaces an earlier
      one only if it is nearer. */
  ghost predicate FirstBest(points: seq<Lab>, q: Lab, order: seq<nat>, best: Best, best': Best) {
    && InTable(points, order) && Coherent(points, q, best') && NoneNearer(points, q, order, best')
    && (best.index != -1 ==> best'.index != -1 && best'.distance <= best.distance)
    && (best' == best || exists k :: 0 <= k < |order| && FirstAt(points, q, order, best, best', k))
  }

  lemma TableBoth(points: seq<Lab>, x: seq<nat>, y: seq<nat>)
    requires InTable(points, x) && InTable(points, y)
    ensures InTable(points, x + y)
  {
    forall k | 0 <= k < |x + y| ensures (x + y)[k] < |points| {
      assert (x + y)[k] == if k < |x| then x[k] else y[k - |x|];
    }
  }

  lemma NoneBoth(points: seq<Lab>, q: Lab, x: seq<nat>, y: seq<nat>, b1: Best, b2: Best)
    requires InTable(points, x) && InTable(points, y) && NoneNearer(points, q, x, b1) && NoneNearer(points, q, y, b2)
    requires b1.index != -1 ==> b2.index != -1 && b2.distance <= b1.distance
    ensures InTable(points, x + y) && NoneNearer(points, q, x + y, b2)
  {
    TableBoth(points, x, y);
    var o := x + y;
    forall k | 0 <= k < |o| ensures NotNearer(points, q, o[k], b2) {
      if k < |x| {
        assert o[k] == x[k] && NotNearer(points, q, x[k], b1);
      } else {
        assert o[k] == y[k - |x|];
      }
    }
  }

  lemma AtBoth(points: seq<Lab>, q: Lab, x: seq<nat>, y: seq<nat>, best: Best, b1: Best, b2: Best, k: nat)
    requires InTable(points, x) && InTable(points, y) && InTable(points, x + y) && NoneNearer(points, q, x, b1)
    requires k < |y| && FirstAt(points, q, y, b1, b2, k) && (best.index != -1 ==> b1.index != -1 && b1.distance <= best.distance)
    ensures FirstAt(points, q, x + y, best, b2, |x| + k)
  {
    hide Diff;
    var o, n := x + y, |x| + k;
    assert o[n] == y[k];
    forall j | 0 <= j < n ensures b2.distance < Diff(q, points[o[j]]) {
      if j < |x| {
        assert o[j] == x[j] && NotNearer(points, q, x[j], b1);
      } else {
        assert o[j] == y[j - |x|];
      }
    }
  }

  lemma AtFront(points: seq<Lab>, q: Lab, x: seq<nat>, y: seq<nat>, best: Best, b1: Best, k: nat)
    requires InTable(points, x) && InTable(points, x + y) && k < |x| && FirstAt(points, q, x, best, b1, k)
    ensures FirstAt(points, q, x + y, best, b1, k)
  {
    hide Diff;
    assert forall j :: 0 <= j <= k ==> (x + y)[j] == x[j];
  }

  lemma FirstBoth(points: seq<Lab>, q: Lab, x: seq<nat>, y: seq<nat>, best: Best, b1: Best, b2: Best)
    requires FirstBest(points, q, x, best, b1) && FirstBest(points, q, y, b1, b2)
    ensures FirstBest(points, q, x + y, best, b2)
  {
    hide FirstAt, NoneNearer, InTable, Coherent;
    NoneBoth(points, q, x, y, b1, b2);
    if b2 != b1 {
      var k :| 0 <= k < |y| && FirstAt(points, q, y, b1, b2, k);
      AtBoth(points, q, x, y, best, b1, b2, k);
    } else if b1 != best {
      var k :| 0 <= k < |x| && FirstAt(points, q, x, best, b1, k);
      AtFront(points, q, x, y, best, b1, k);
    }
  }

  lemma FirstOne(points: seq<Lab>, q: Lab, i: nat, best: Best)
    requires i < |points| && Coherent(points, q, best)
    ensures FirstBest(points, q, [i], best, Consider(points, q, best, i))
  {
    var k, after := 0, Consider(points, q, best, i);
    if after != best {
      assert FirstAt(points, q, [i], best, after, k);
    }
  }

  lemma FirstPruned(points: seq<Lab>, q: Lab, t: Tree, depth: nat, best: Best)
    requires Within(t, |points|) && t.Node? && Ordered(points, t, depth)
    requires Coherent(points, q, best) && best.index != -1 && best.distance <= Square(Gap(points, t, depth, q))
    ensures FirstBest(points, q, VisitOrder(points, Far(t, Gap(points, t, depth, q)), depth + 1, q), best, best)
  {
    hide Ordered, Items, VisitOrder, Diff, Square, Gap, Coherent;
    var far := Far(t, Gap(points, t, depth, q));
    Pruned(points, q, t, depth, best);
    OrderItems(points, far, depth + 1, q);
    FromItems(points, q, VisitOrder(points, far, depth + 1, q), Items(far), best);
  }

  lemma FromItems(points: seq<Lab>, q: Lab, order: seq<nat>, items: multiset<nat>, best: Best)
    requires multiset(order) == items && best.index != -1 && AllBelow(items, |points|) && Nearest(points, q, items, best, best)
    ensures FirstBest(points, q, order, best, best)
  {
    hide Diff;
    forall k | 0 <= k < |order| ensures order[k] in items {
      assert order[k] in multiset(order);
    }
  }

  /** The pruned search finds what a search of the whole tree in that order finds: among entries
      equally near it keeps the first that it meets. */
  lemma {:induction false} VisitFirst(points: seq<Lab>, t: Tree, depth: nat, q: Lab, best: Best)
    requires Within(t, |points|) && Ordered(points, t, depth) && Coherent(points, q, best)
    ensures FirstBest(points, q, VisitOrder(points, t, depth, q), best, Visit(points, t, depth, q, best))
    decreases t
  {
    hide Coherent, Square, Diff, Consider, Along, FirstBest;
    if t.Leaf? {
      FirstNone(points, q, best);
    } else {
      var gap, one := Gap(points, t, depth, q), [t.index];
      var near, far := Near(t, gap), Far(t, gap);
      var x, y := VisitOrder(points, near, depth + 1, q), VisitOrder(points, far, depth + 1, q);
      var b1 := Consider(points, q, best, t.index);
      var b2 := Visit(points, near, depth + 1, q, b1);
      var b3 := Visit(points, t, depth, q, best);
      ConsiderCoherent(points, q, best, t.index);
      FirstOne(points, q, t.index, best);
      VisitFirst(points, near, depth + 1, q, b1);
      FirstCoherent(points, q, x, b1, b2);
      if Square(gap) < b2.distance {
        VisitFirst(points, far, depth + 1, q, b2);
      } else {
        FirstPruned(points, q, t, depth, b2);
      }
      FirstBoth(points, q, x, y, b1, b2, b3);
      FirstBoth(points, q, one, x + y, best, b1, b3);
      assert VisitOrder(points, t, depth, q) == one + (x + y);
    }
  }

  lemma FirstNone(points: seq<Lab>, q: Lab, best: Best)
    requires Coherent(points, q, best)
    ensures FirstBest(points, q, [], best, best)
  {
  }

  lemma FirstCoherent(points: seq<Lab>, q: Lab, order: seq<nat>, best: Best, best': Best)
    requires FirstBest(points, q, order, best, best')
    ensures Coherent(points, q, best') && (best.index != -1 ==> best'.index != -1)
  {
  }

  // ----- sorting -----

  ghost predicate SortedBy(points: seq<Lab>, pts: seq<nat>, depth: nat) {
    && (forall k :: 0 <= k < |pts| ==> pts[k] < |points|)
    && forall j, k :: 0 <= j < k < |pts| ==> Along(points[pts[j]], depth) <= Along(points[pts[k]], depth)
  }

  /** Stands for qsort: only that the result is a sorted permutation is used. */
  method Sort(points: seq<Lab>, pts: seq<nat>, depth: nat) returns (sorted: seq<nat>)
    requires InTable(points, pts)
    ensures SortedBy(points, sorted, depth) && multiset(sorted) == multiset(pts)
  {
    sorted := [];
    for i := 0 to |pts|
      invariant SortedBy(points, sorted, depth) && multiset(sorted) == multiset(pts[..i])
    {
      assert pts[..i + 1] == pts[..i] + [pts[i]];
      sorted := Place(points, sorted, pts[i], depth);
    }
    assert pts[..|pts|] == pts;
  }

  /** p lies between its neighbours, so between all entries before and after it. */
  lemma Between(points: seq<Lab>, sorted: seq<nat>, p: nat, depth: nat, k: nat, j: nat)
    requires SortedBy(points, sorted, depth) && p < |points| && k <= |sorted| && j < |sorted|
    requires k > 0 ==> Along(points[sorted[k - 1]], depth) <= Along(points[p], depth)
    requires k < |sorted| ==> Along(points[p], depth) <= Along(points[sorted[k]], depth)
    ensures if j < k then Along(points[sorted[j]], depth) <= Along(points[p], depth)
            else Along(points[p], depth) <= Along(points[sorted[j]], depth)
  {
    hide Along;
  }

  lemma PlacedSorted(points: seq<Lab>, sorted: seq<nat>, p: nat, depth: nat, k: nat)
    requires SortedBy(points, sorted, depth) && p < |points| && k <= |sorted|
    requires k > 0 ==> Along(points[sorted[k - 1]], depth) <= Along(points[p], depth)
    requires k < |sorted| ==> Along(points[p], depth) <= Along(points[sorted[k]], depth)
    ensures SortedBy(points, sorted[..k] + [p] + sorted[k..], depth)
  {
    var more := sorted[..k] + [p] + sorted[k..];
    forall i, j | 0 <= i < j < |more|
      ensures more[i] < |points| && more[j] < |points| && Along(points[more[i]], depth) <= Along(points[more[j]], depth)
    {
      hide Along;
      var u, v := if i < k then i else i - 1, if j < k then j else j - 1;
      if i == k {
        assert more[j] == sorted[v];
        Between(points, sorted, p, depth, k, v);
      } else if j == k {
        assert more[i] == sorted[u];
        Between(points, sorted, p, depth, k, u);
      } else {
        assert more[i] == sorted[u] && more[j] == sorted[v];
      }
    }
  }

  lemma PlacedOnce(sorted: seq<nat>, p: nat, k: nat)
    requires k <= |sorted|
    ensures multiset(sorted[..k] + [p] + sorted[k..]) == multiset(sorted) + multiset{p}
  {
    assert sorted == sorted[..k] + sorted[k..];
  }

  method Place(points: seq<Lab>, sorted: seq<nat>, p: nat, depth: nat) returns (more: seq<nat>)
    requires SortedBy(points, sorted, depth) && p < |points|
    ensures SortedBy(points, more, depth) && multiset(more) == multiset(sorted) + multiset{p}
  {
    hide Along;
    var k: nat := |sorted|;
    while k > 0 && Along(points[sorted[k - 1]], depth) > Along(points[p], depth)
      invariant 0 <= k <= |sorted|
      invariant k < |sorted| ==> Along(points[p], depth) <= Along(points[sorted[k]], depth)
    {
      k := k - 1;
    }
    PlacedSorted(points, sorted, p, depth, k);
    PlacedOnce(sorted, p, k);
    more := sorted[..k] + [p] + sorted[k..];
  }

  // ----- the table -----

  ghost predicate Distinct(pts: seq<nat>) {
    forall x :: multiset(pts)[x] <= 1
  }

  /** The links below root spell out the tree. */
  ghost predicate Holds(child: seq<(int, int)>, root: int, t: Tree)
    decreases t
  {
    match t
    case Leaf => root == -1
    case Node(l, i, r) => root == i < |child| && Holds(child, child[i].0, l) && Holds(child, child[i].1, r)
  }

  /** Links of other entries do not matter. */
  lemma {:induction false} HoldsFramed(child: seq<(int, int)>, child': seq<(int, int)>, root: int, t: Tree)
    requires Holds(child, root, t) && |child| == |child'|
    requires forall i :: i in Items(t) && i < |child| ==> child[i] == child'[i]
    ensures Holds(child', root, t)
    decreases t
  {
    if t.Node? {
      assert t.index in Items(t);
      assert forall i :: i in Items(t.left) || i in Items(t.right) ==> i in Items(t);
      HoldsFramed(child, child', child[t.index].0, t.left);
      HoldsFramed(child, child', child[t.index].1, t.right);
    }
  }

  lemma {:induction false} LevelsGrow(m: nat, n: nat)
    requires m <= n
    ensures Levels(m) <= Levels(n)
    decreases n
  {
    if m > 0 {
      LevelsGrow(m / 2, n / 2);
    }
  }

  /** Levels is the logarithm it claims to be. */
  lemma {:induction false} LevelsIsLog(n: nat)
    requires n > 0
    ensures Levels(n) > 0 && Pow2(Levels(n) - 1) <= n < Pow2(Levels(n))
  {
    if n > 1 {
      LevelsIsLog(n / 2);
    } else {
      assert Levels(1) == 1 + Levels(0);
    }
  }

  lemma {:induction false} HalvesDistinct(pts: seq<nat>, m: nat)
    requires m < |pts| && Distinct(pts)
    ensures multiset(pts) == multiset(pts[..m]) + multiset{pts[m]} + multiset(pts[m + 1..])
    ensures Distinct(pts[..m]) && Distinct(pts[m + 1..])
    ensures forall x :: (x in multiset(pts[..m]) ==> x != pts[m] && x !in multiset(pts[m + 1..])) && (x in multiset(pts[m + 1..]) ==> x != pts[m])
  {
    var l, r, p := pts[..m], pts[m + 1..], pts[m];
    assert pts == l + [p] + r;
    forall x ensures multiset(l)[x] + multiset{p}[x] + multiset(r)[x] <= 1 {
      assert multiset(pts)[x] <= 1;
    }
  }

  /** The entries on either side of the median. */
  lemma Halves(points: seq<Lab>, pts: seq<nat>, m: nat, depth: nat)
    requires m < |pts| && Distinct(pts) && SortedBy(points, pts, depth)
    ensures multiset(pts) == multiset(pts[..m]) + multiset{pts[m]} + multiset(pts[m + 1..])
    ensures forall i :: i in multiset(pts[..m]) ==> Along(points[i], depth) <= Along(points[pts[m]], depth)
    ensures forall i :: i in multiset(pts[m + 1..]) ==> Along(points[i], depth) >= Along(points[pts[m]], depth)
    ensures AllBelow(multiset(pts), |points|)
  {
    hide Along;
    var l, r := pts[..m], pts[m + 1..];
    HalvesDistinct(pts, m);
    hide Distinct;
    forall i | i in multiset(l) ensures Along(points[i], depth) <= Along(points[pts[m]], depth) {
      var k :| 0 <= k < |l| && l[k] == i;
      assert pts[k] == i;
    }
    forall i | i in multiset(r) ensures Along(points[i], depth) >= Along(points[pts[m]], depth) {
      var k :| 0 <= k < |r| && r[k] == i;
      assert pts[m + 1 + k] == i;
    }
  }

  /** A tree of exactly these entries, ordered and as flat as can be. */
  ghost predicate Indexes(points: seq<Lab>, pts: seq<nat>, depth: nat, t: Tree) {
    && Items(t) == multiset(pts) && Within(t, |points|) && Ordered(points, t, depth) && Height(t) == Levels(|pts|)
  }

  lemma {:induction false} JoinHeight(tl: Tree, i: nat, tr: Tree, m: nat, n: nat)
    requires n > 0 && m == n / 2 && Height(tl) == Levels(m) && Height(tr) == Levels(n - m - 1)
    ensures Height(Node(tl, i, tr)) == Levels(n)
  {
    LevelsGrow(n - m - 1, m);
  }

  lemma {:induction false} JoinOrdered(points: seq<Lab>, pts: seq<nat>, m: nat, depth: nat, tl: Tree, tr: Tree)
    requires m < |pts| && Distinct(pts) && SortedBy(points, pts, depth)
    requires Items(tl) == multiset(pts[..m]) && Ordered(points, tl, depth + 1)
    requires Items(tr) == multiset(pts[m + 1..]) && Ordered(points, tr, depth + 1)
    ensures var t := Node(tl, pts[m], tr);
      Items(t) == multiset(pts) && Within(t, |points|) && Ordered(points, t, depth)
  {
    Halves(points, pts, m, depth);
    hide Along, SortedBy, Distinct;
    var t := Node(tl, pts[m], tr);
    assert Items(t) == multiset(pts);
    WithinItems(t, |points|);
    WithinItems(tl, |points|);
    WithinItems(tr, |points|);
  }

  lemma {:induction false} JoinIndexes(points: seq<Lab>, pts: seq<nat>, m: nat, depth: nat, tl: Tree, tr: Tree)
    requires |pts| > 0 && m == |pts| / 2 && Distinct(pts) && SortedBy(points, pts, depth)
    requires Indexes(points, pts[..m], depth + 1, tl) && Indexes(points, pts[m + 1..], depth + 1, tr)
    ensures Indexes(points, pts, depth, Node(tl, pts[m], tr))
  {
    hide Height, Levels, Items, Within, Ordered, SortedBy, Distinct;
    JoinHeight(tl, pts[m], tr, m, |pts|);
    JoinOrdered(points, pts, m, depth, tl, tr);
  }

  lemma {:induction false} HoldsNode(child: seq<(int, int)>, i: nat, l: int, tl: Tree, r: int, tr: Tree)
    requires i < |child| && child[i] == (l, r) && Holds(child, l, tl) && Holds(child, r, tr)
    ensures Holds(child, i, Node(tl, i, tr))
  {
  }

  /** The links after both halves are built, with the median's filled in. */
  lemma {:induction false} JoinHolds(c1: seq<(int, int)>, c2: seq<(int, int)>, i: nat, l: int, tl: Tree, r: int, tr: Tree)
    requires Holds(c1, l, tl) && Holds(c2, r, tr) && i < |c1| == |c2|
    requires i !in Items(tl) && i !in Items(tr) && forall j :: j in Items(tl) && j < |c1| ==> c2[j] == c1[j]
    ensures Holds(c2[i := (l, r)], i, Node(tl, i, tr))
  {
    hide Holds, Items;
    var c := c2[i := (l, r)];
    HoldsFramed(c1, c, l, tl);
    HoldsFramed(c2, c, r, tr);
    HoldsNode(c, i, l, tl, r, tr);
  }

  lemma {:induction false} EmptyTree(points: seq<Lab>, child: seq<(int, int)>, depth: nat)
    ensures Holds(child, -1, Leaf) && Indexes(points, [], depth, Leaf)
  {
  }

  ghost predicate InTable(points: seq<Lab>, pts: seq<nat>) {
    forall k :: 0 <= k < |pts| ==> pts[k] < |points|
  }

  /** What the recursive calls of the build start from. */
  lemma {:induction false} SortedHalves(points: seq<Lab>, pts: seq<nat>, sorted: seq<nat>, m: nat, depth: nat)
    requires Distinct(pts) && SortedBy(points, sorted, depth) && multiset(sorted) == multiset(pts)
    requires pts != [] && m == |pts| / 2
    ensures |sorted| == |pts| && m < |pts| && Distinct(sorted) && sorted[m] < |points|
    ensures Distinct(sorted[..m]) && Distinct(sorted[m + 1..])
    ensures InTable(points, sorted[..m]) && InTable(points, sorted[m + 1..])
    ensures forall x :: x in multiset(pts) <==> x == sorted[m] || x in multiset(sorted[..m]) || x in multiset(sorted[m + 1..])
    ensures forall x :: (x in multiset(sorted[..m]) ==> x != sorted[m] && x !in multiset(sorted[m + 1..])) && (x in multiset(sorted[m + 1..]) ==> x != sorted[m])
  {
    assert |sorted| == |multiset(sorted)| == |pts|;
    assert Distinct(sorted) && InTable(points, sorted);
    hide Along, SortedBy;
    HalvesDistinct(sorted, m);
    hide Distinct;
  }
}
