/** The colour table of color/kdtree_lab.cpp: its two trees, the searches through it, and the
    16- and 8-colour mappings computed from it. */
module Palette {
  import opened KdTree

  // ----- what a nearest entry is -----

  /** i has the flag, and no entry with the flag is nearer. */
  ghost predicate IsNearest(points: seq<Lab>, disabled: seq<bool>, flag: bool, q: Lab, i: int)
    requires |points| == |disabled|
  {
    && 0 <= i < |points| && disabled[i] == flag
    && forall j :: 0 <= j < |points| && disabled[j] == flag ==> Diff(q, points[i]) <= Diff(q, points[j])
  }

  /** The nearest entry with the flag, or -1 when none has it. */
  ghost predicate NearestOrNone(points: seq<Lab>, disabled: seq<bool>, flag: bool, q: Lab, i: int)
    requires |points| == |disabled|
  {
    if flag in disabled then IsNearest(points, disabled, flag, q, i) else i == -1
  }

  /** i is the first of the nearest among the first n entries. */
  ghost predicate FirstNearest(points: seq<Lab>, n: nat, q: Lab, i: int)
    requires n <= |points|
  {
    && 0 <= i < n
    && (forall j :: 0 <= j < n ==> Diff(q, points[i]) <= Diff(q, points[j]))
    && (forall j :: 0 <= j < i ==> Diff(q, points[i]) < Diff(q, points[j]))
  }

  /** Nearness as sums of squared coordinate differences. */
  lemma NearestBySquares(points: seq<Lab>, disabled: seq<bool>, flag: bool, q: Lab, i: nat)
    requires |points| == |disabled| && i < |points|
    ensures IsNearest(points, disabled, flag, q, i) <==>
      && disabled[i] == flag
      && forall j :: 0 <= j < |points| && disabled[j] == flag ==>
           (q.L - points[i].L) * (q.L - points[i].L) + (q.a - points[i].a) * (q.a - points[i].a) + (q.b - points[i].b) * (q.b - points[i].b) <=
           (q.L - points[j].L) * (q.L - points[j].L) + (q.a - points[j].a) * (q.a - points[j].a) + (q.b - points[j].b) * (q.b - points[j].b)
  {
  }

  /** The measure treats the three axes alike, adds over them, and is the square of the difference
      on each. */
  lemma DiffByAxes(p: Lab, q: Lab)
    ensures Diff(p, q) == Diff(p, p.(L := q.L)) + Diff(p, p.(a := q.a)) + Diff(p, p.(b := q.b))
    ensures Diff(p, p.(L := q.L)) == (q.L - p.L) * (q.L - p.L)
    ensures Diff(p, p.(a := q.a)) == (q.a - p.a) * (q.a - p.a)
    ensures Diff(p, p.(b := q.b)) == (q.b - p.b) * (q.b - p.b)
    ensures Diff(p, q) == Diff(Lab(p.a, p.b, p.L), Lab(q.a, q.b, q.L)) == Diff(Lab(p.a, p.L, p.b), Lab(q.a, q.L, q.b))
  {
    SquareEven(p.L - q.L);
    SquareEven(p.a - q.a);
    SquareEven(p.b - q.b);
  }

  lemma FirstBySquares(points: seq<Lab>, n: nat, q: Lab, i: nat)
    requires i < n <= |points|
    ensures FirstNearest(points, n, q, i) <==>
      forall j :: 0 <= j < n ==>
        var here := (q.L - points[i].L) * (q.L - points[i].L) + (q.a - points[i].a) * (q.a - points[i].a) + (q.b - points[i].b) * (q.b - points[i].b);
        var there := (q.L - points[j].L) * (q.L - points[j].L) + (q.a - points[j].a) * (q.a - points[j].a) + (q.b - points[j].b) * (q.b - points[j].b);
        here < there || (here == there && i <= j)
  {
  }

  /** The tree holds exactly the entries with the flag, each once. */
  ghost predicate Covers(t: Tree, disabled: seq<bool>, flag: bool) {
    forall i: nat :: Items(t)[i] == if i < |disabled| && disabled[i] == flag then 1 else 0
  }

  lemma DiffSymmetric(p: Lab, q: Lab)
    ensures Diff(p, q) == Diff(q, p)
  {
    SquareEven(p.L - q.L);
    SquareEven(p.a - q.a);
    SquareEven(p.b - q.b);
  }

  lemma SquareEven(x: int)
    ensures Square(-x) == Square(x)
  {
  }

  /** A tree over the right entries answers like the plain scan. */
  lemma TreeFinds(points: seq<Lab>, disabled: seq<bool>, flag: bool, t: Tree, q: Lab, r: int)
    requires |points| == |disabled| && Within(t, |points|) && Ordered(points, t, 0) && Covers(t, disabled, flag)
    ensures var best := Visit(points, t, 0, q, Best(-1, r));
      && NearestOrNone(points, disabled, flag, q, best.index)
      && (flag in disabled ==> best.distance == Diff(q, points[best.index]))
  {
    var best := Visit(points, t, 0, q, Best(-1, r));
    VisitNearest(points, t, 0, q, Best(-1, r));
    hide Visit, Diff, Ordered, Within;
    forall j: nat | j < |points| && disabled[j] == flag ensures j in Items(t) {
    }
    forall j: nat | j in Items(t) ensures j < |points| && disabled[j] == flag {
    }
  }

  /** The three searches split on L, a and b in turn. */
  lemma GapAlong(points: seq<Lab>, t: Tree, depth: nat, q: Lab)
    requires t.Node? && t.index < |points|
    ensures var gap, next, p := Gap(points, t, depth, q), (depth + 1) % 3, points[t.index];
      && (depth % 3 == 0 ==> gap == q.L - p.L && next == 1) && (depth % 3 == 1 ==> gap == q.a - p.a && next == 2)
      && (depth % 3 == 2 ==> gap == q.b - p.b && next == 0)
  {
  }

  class Table {
    const points: seq<Lab>
    const disabled: seq<bool>
    var child: seq<(int, int)>
    var color16: seq<int>
    var color8: seq<int>

    ghost predicate Valid()
      reads this
    {
      |points| == |disabled| == |child| == |color16| == |color8|
    }

    /** The tree below root belongs to the entries with the flag. */
    ghost predicate Rooted(root: int, t: Tree, flag: bool)
      reads this
    {
      && |points| == |disabled| && Holds(child, root, t)
      && Within(t, |points|) && Ordered(points, t, 0) && Covers(t, disabled, flag)
      && Height(t) == Levels(|Items(t)|)
    }

    /** The table with its static initialiser; the link and mapping fields start as zero. */
    constructor (points: seq<Lab>, disabled: seq<bool>)
      requires |points| == |disabled|
      ensures Valid() && this.points == points && this.disabled == disabled
    {
      this.points, this.disabled := points, disabled;
      child := seq(|points|, _ => (0, 0));
      color16, color8 := seq(|points|, _ => 0), seq(|points|, _ => 0);
    }

    /** NearestIndex_brute: the first of the nearest entries. */
    method NearestBrute(q: Lab, flag: bool) returns (nearest: int)
      requires Valid()
      ensures NearestOrNone(points, disabled, flag, q, nearest)
      ensures forall j :: 0 <= j < nearest && disabled[j] == flag ==> Diff(q, points[j]) > Diff(q, points[nearest])
    {
      nearest := -1;
      var r := 0;
      for i := 0 to |points|
        invariant -1 <= nearest < i && (nearest == -1 ==> forall j :: 0 <= j < i ==> disabled[j] != flag)
        invariant nearest >= 0 ==> disabled[nearest] == flag && r == Diff(q, points[nearest])
        invariant nearest >= 0 ==> forall j :: 0 <= j < i && disabled[j] == flag ==> r <= Diff(q, points[j])
        invariant forall j :: 0 <= j < nearest && disabled[j] == flag ==> Diff(q, points[j]) > r
      {
        if disabled[i] == flag {
          var d := Diff(points[i], q);
          DiffSymmetric(points[i], q);
          if nearest == -1 || d < r {
            r, nearest := d, i;
          }
        }
      }
    }

    /** kdtree: a tree of the given entries; no other entry's links are written. */
    method BuildTree(pts: seq<nat>, depth: nat) returns (root: int, ghost t: Tree)
      requires |child| == |points| && Distinct(pts) && InTable(points, pts)
      modifies this`child
      ensures |child| == |points| && Holds(child, root, t) && Indexes(points, pts, depth, t)
      ensures forall i: nat :: i < |child| && i !in multiset(pts) ==> child[i] == old(child)[i]
      decreases |pts|
    {
      hide Along, Holds, Distinct, SortedBy, InTable, Items, Ordered, Within, Height, Levels;
      if pts == [] {
        EmptyTree(points, child, depth);
        return -1, Leaf;
      }
      var sorted := Sort(points, pts, depth);
      var m := |pts| / 2;
      SortedHalves(points, pts, sorted, m, depth);
      var median := sorted[m];
      var l, tl := BuildTree(sorted[..m], depth + 1);
      ghost var c1 := child;
      child := child[median := (l, child[median].1)];
      var r, tr := BuildTree(sorted[m + 1..], depth + 1);
      JoinHolds(c1, child, median, l, tl, r, tr);
      JoinIndexes(points, sorted, m, depth, tl, tr);
      child := child[median := (child[median].0, r)];
      root, t := median, Node(tl, median, tr);
    }

    /** The entries with the flag, in order. */
    method Gather(flag: bool) returns (pts: seq<nat>)
      requires |points| == |disabled|
      ensures InTable(points, pts)
      ensures forall i: nat :: multiset(pts)[i] == if i < |disabled| && disabled[i] == flag then 1 else 0
    {
      pts := [];
      for i := 0 to |points|
        invariant forall k :: 0 <= k < |pts| ==> pts[k] < i
        invariant forall j: nat :: multiset(pts)[j] == if j < i && disabled[j] == flag then 1 else 0
      {
        if disabled[i] == flag {
          pts := pts + [i];
        }
      }
    }

    /** NearestIndex_tree_L */
    method SearchL(here: int, q: Lab, best: Best, ghost t: Tree, ghost depth: nat) returns (best': Best)
      requires depth % 3 == 0 && Holds(child, here, t) && Within(t, |points|)
      ensures best' == Visit(points, t, depth, q, best)
      decreases t
    {
      hide Gap, Along, Diff, Square;
      best' := best;
      if here == -1 {
        return;
      }
      if best'.index == -1 {
        best' := Best(here, Diff(q, points[here]));
      }
      var r := Diff(q, points[here]);
      if r < best'.distance {
        best' := Best(here, r);
      }
      GapAlong(points, t, depth, q);
      var d := q.L - points[here].L;
      var near, far := if d < 0 then child[here].0 else child[here].1, if d < 0 then child[here].1 else child[here].0;
      best' := SearchA(near, q, best', Near(t, d), depth + 1);
      if Square(d) < best'.distance {
        best' := SearchA(far, q, best', Far(t, d), depth + 1);
      }
    }

    /** NearestIndex_tree_a */
    method SearchA(here: int, q: Lab, best: Best, ghost t: Tree, ghost depth: nat) returns (best': Best)
      requires depth % 3 == 1 && Holds(child, here, t) && Within(t, |points|)
      ensures best' == Visit(points, t, depth, q, best)
      decreases t
    {
      hide Gap, Along, Diff, Square;
      best' := best;
      if here == -1 {
        return;
      }
      if best'.index == -1 {
        best' := Best(here, Diff(q, points[here]));
      }
      var r := Diff(q, points[here]);
      if r < best'.distance {
        best' := Best(here, r);
      }
      GapAlong(points, t, depth, q);
      var d := q.a - points[here].a;
      var near, far := if d < 0 then child[here].0 else child[here].1, if d < 0 then child[here].1 else child[here].0;
      best' := SearchB(near, q, best', Near(t, d), depth + 1);
      if Square(d) < best'.distance {
        best' := SearchB(far, q, best', Far(t, d), depth + 1);
      }
    }

    /** NearestIndex_tree_b */
    method SearchB(here: int, q: Lab, best: Best, ghost t: Tree, ghost depth: nat) returns (best': Best)
      requires depth % 3 == 2 && Holds(child, here, t) && Within(t, |points|)
      ensures best' == Visit(points, t, depth, q, best)
      decreases t
    {
      hide Gap, Along, Diff, Square;
      best' := best;
      if here == -1 {
        return;
      }
      if best'.index == -1 {
        best' := Best(here, Diff(q, points[here]));
      }
      var r := Diff(q, points[here]);
      if r < best'.distance {
        best' := Best(here, r);
      }
      GapAlong(points, t, depth, q);
      var d := q.b - points[here].b;
      var near, far := if d < 0 then child[here].0 else child[here].1, if d < 0 then child[here].1 else child[here].0;
      best' := SearchL(near, q, best', Near(t, d), depth + 1);
      if Square(d) < best'.distance {
        best' := SearchL(far, q, best', Far(t, d), depth + 1);
      }
    }

    /** ValidateTree: the tree and the scan never disagree on the distance. */
    method ValidateTree(root: int, flag: bool, queries: seq<Lab>, ghost t: Tree) returns (mismatches: int)
      requires Valid() && Rooted(root, t, flag) && flag in disabled
      ensures mismatches == 0
    {
      mismatches := 0;
      for k := 0 to |queries|
        invariant mismatches == 0
      {
        var q := queries[k];
        var brute := NearestBrute(q, flag);
        var best := SearchL(root, q, Best(-1, 0), t, 0);
        TreeFinds(points, disabled, flag, t, q, 0);
        if brute != best.index && Diff(q, points[brute]) != best.distance {
          mismatches := mismatches + 1;
        }
      }
    }

    /** Steps 2 to 5: both trees, then each entry's nearest of the 16 and of the 8 colours. */
    method Prepare() returns (root16: int, root256: int, ghost t16: Tree, ghost t256: Tree)
      requires Valid() && |points| >= 8
      modifies this
      ensures Valid() && Rooted(root16, t16, true) && Rooted(root256, t256, false)
      ensures forall i :: 0 <= i < |points| ==> NearestOrNone(points, disabled, true, points[i], color16[i])
      ensures forall i :: 0 <= i < |points| ==> FirstNearest(points, 8, points[i], color8[i])
    {
      root16, t16 := BuildFor(true, -1, Leaf);
      root256, t256 := BuildFor(false, root16, t16);
      MapTo16(root16, t16);
      MapTo8();
    }

    /** Gathering and building for one flag. A tree for the other flag stays as it was, and with
        it every answer of a search through it. */
    method BuildFor(flag: bool, ghost other: int, ghost u: Tree) returns (root: int, ghost t: Tree)
      requires Valid()
      modifies this`child
      ensures Valid() && Rooted(root, t, flag)
      ensures old(Rooted(other, u, !flag)) ==> Rooted(other, u, !flag)
    {
      hide Holds, Ordered, Along, Height, Levels, Within, Items, InTable;
      var pts := Gather(flag);
      root, t := BuildTree(pts, 0);
      if old(Rooted(other, u, !flag)) {
        HoldsFramed(old(child), child, other, u);
      }
    }

    method MapTo16(root16: int, ghost t16: Tree)
      requires Valid() && Rooted(root16, t16, true)
      modifies this`color16
      ensures Valid() && Rooted(root16, t16, true)
      ensures forall i :: 0 <= i < |points| ==> NearestOrNone(points, disabled, true, points[i], color16[i])
    {
      hide NearestOrNone, Holds, Ordered, Covers, Within;
      for i := 0 to |points|
        invariant Valid()
        invariant forall k :: 0 <= k < i ==> NearestOrNone(points, disabled, true, points[k], color16[k])
      {
        var best := SearchL(root16, points[i], Best(-1, 0), t16, 0);
        TreeFinds(points, disabled, true, t16, points[i], 0);
        color16 := color16[i := best.index];
      }
    }

    method MapTo8()
      requires Valid() && |points| >= 8
      modifies this`color8
      ensures Valid() && forall i :: 0 <= i < |points| ==> FirstNearest(points, 8, points[i], color8[i])
    {
      for i := 0 to |points|
        invariant Valid() && forall k :: 0 <= k < i ==> FirstNearest(points, 8, points[k], color8[k])
      {
        var nearest, r := 0, Diff(points[i], points[0]);
        for j := 1 to 8
          invariant FirstNearest(points, j, points[i], nearest) && r == Diff(points[i], points[nearest])
        {
          var d := Diff(points[i], points[j]);
          if d < r {
            r, nearest := d, j;
          }
        }
        color8 := color8[i := nearest];
      }
    }
  }
}
