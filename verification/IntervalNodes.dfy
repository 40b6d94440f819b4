/** The interval tree in memory: linked nodes changed in place, each method tied to the tree it stands for. */
module IntervalNodes {
  import opened IntervalTree

  class Request {
    const iv: Interval
    var end: nat
    var left: Request?
    var right: Request?
    /** `bsr_interval_empty`: not linked into a tree since it was created or cleared. */
    var empty: bool
    /** The nodes of this subtree, and the tree they form. */
    ghost var repr: set<Request>
    ghost var tree: Tree

    ghost predicate Valid()
      reads this, repr
      decreases repr
    {
      && this in repr
      && (left != null ==> left in repr && left.repr <= repr && this !in left.repr && left.Valid())
      && (right != null ==> right in repr && right.repr <= repr && this !in right.repr && right.Valid())
      && Nodes(left) !! Nodes(right)
      && repr == {this} + Nodes(left) + Nodes(right)
      && tree == Node(TreeOf(left), iv, end, TreeOf(right))
    }

    lemma Parts()
      requires Valid()
      ensures Ok(left) && Ok(right) && this in repr && this !in Nodes(left) && this !in Nodes(right)
      ensures Nodes(left) !! Nodes(right) && repr == {this} + Nodes(left) + Nodes(right)
      ensures (left != null ==> left in left.repr) && (right != null ==> right in right.repr)
      ensures tree == Node(TreeOf(left), iv, end, TreeOf(right))
    {
    }

    constructor (iv: Interval)
      ensures this.iv == iv && left == null && right == null && repr == {this} && Valid() && empty
    {
      this.iv, end, left, right, empty, repr := iv, 0, null, null, true, {this};
      tree := Node(Leaf, iv, 0, Leaf);
    }

    /** The greatest end of this request and of its children's subtrees. */
    method GreatestEnd() returns (e: nat)
      requires Ok(left) && Ok(right)
      ensures e == WithEnd(TreeOf(left), iv, TreeOf(right)).end
    {
      e := iv.End();
      if left != null && left.end > e {
        e := left.end;
      }
      if right != null && right.end > e {
        e := right.end;
      }
    }

    /** `update_interval_end`; the children may just have been replaced. */
    method UpdateEnd()
      requires Ok(left) && Ok(right) && this !in Nodes(left) && this !in Nodes(right) && Nodes(left) !! Nodes(right)
      modifies this`end, this`tree, this`repr
      ensures Valid() && tree == WithEnd(TreeOf(left), iv, TreeOf(right))
      ensures repr == {this} + Nodes(left) + Nodes(right)
    {
      end := GreatestEnd();
      tree := Node(TreeOf(left), iv, end, TreeOf(right));
      repr := {this} + Nodes(left) + Nodes(right);
    }

    /** New children, and the end repaired. */
    method Relink(l: Request?, r: Request?)
      requires Ok(l) && Ok(r) && this !in Nodes(l) && this !in Nodes(r) && Nodes(l) !! Nodes(r)
      modifies this`left, this`right, this`end, this`tree, this`repr
      ensures Valid() && tree == WithEnd(old(TreeOf(l)), iv, old(TreeOf(r)))
      ensures left == l && right == r && repr == {this} + old(Nodes(l)) + old(Nodes(r))
    {
      left, right := l, r;
      UpdateEnd();
    }
  }

  ghost function Nodes(n: Request?): set<Request>
    reads n
  {
    if n == null then {} else n.repr
  }

  ghost function TreeOf(n: Request?): Tree
    reads n
  {
    if n == null then Leaf else n.tree
  }

  ghost predicate Ok(n: Request?)
    reads n, Nodes(n)
  {
    n != null ==> n.Valid()
  }

  /** `bsr_find_overlap`: the overlapping request that is lowest in tree order. */
  method FindOverlap(root: Request?, from: nat, length: nat) returns (r: Request?)
    requires Ok(root) && IntervalTree.Valid(TreeOf(root)) && length % 512 == 0
    ensures r == null <==> Overlapping(InOrder(TreeOf(root)), from, length) == []
    ensures r != null ==> r in Nodes(root) && r.iv == Overlapping(InOrder(TreeOf(root)), from, length)[0]
  {
    hide Overlapping, InOrder, Sorted, Repaired, IntervalTree.Valid, WithEnd;
    var node := root;
    var end := from + length / 512;
    ghost var all := Overlapping(InOrder(TreeOf(root)), from, length);
    while node != null
      invariant Ok(node) && Nodes(node) <= Nodes(root) && IntervalTree.Valid(TreeOf(node))
      invariant all == [] <==> Overlapping(InOrder(TreeOf(node)), from, length) == []
      invariant all != [] ==> all[0] == Overlapping(InOrder(TreeOf(node)), from, length)[0]
      decreases Nodes(node)
    {
      ghost var t := node.tree;
      assert Ok(node.left);
      ChildrenValid(t);
      OverlappingNode(t, from, length);
      if node.left != null && from < node.left.end {
        LeftDecides(t, from, length);
        node := node.left;
      } else {
        LeftIsShort(t, from, length);
        if node.iv.sector < end && from < node.iv.End() {
          return node;
        } else if from >= node.iv.sector {
          node := node.right;
        } else {
          NoneRight(t, from, length);
          return null;
        }
      }
    }
    LeafHasNone(from, length);
    return null;
  }

  lemma LeafHasNone(from: nat, length: nat)
    ensures Overlapping(InOrder(Leaf), from, length) == []
  {
  }

  lemma ChildrenValid(t: Tree)
    requires IntervalTree.Valid(t) && t.Node?
    ensures IntervalTree.Valid(t.left) && IntervalTree.Valid(t.right)
  {
    hide Sorted, InOrder;
    SortedParts(t);
  }

  lemma NoneRight(t: Tree, from: nat, length: nat)
    requires IntervalTree.Valid(t) && t.Node? && t.here.sector >= from + length / 512
    ensures Overlapping(InOrder(t.right), from, length) == []
  {
    SortedParts(t);
    NoneAfter(InOrder(t.right), t.here, from, length);
  }

  /** `rb_next`: the request that follows `x` in tree order, found from the root for want of parent links. */
  method Next(root: Request?, x: Interval) returns (y: Request?)
    requires Ok(root) && Sorted(InOrder(TreeOf(root)))
    ensures y == null ==> forall z :: z in InOrder(TreeOf(root)) ==> !x.Before(z)
    ensures y != null ==> y in Nodes(root) && y.iv in InOrder(TreeOf(root)) && x.Before(y.iv)
    ensures y != null ==> forall z :: z in InOrder(TreeOf(root)) && x.Before(z) ==> z == y.iv || y.iv.Before(z)
  {
    hide Sorted;
    var node := root;
    y := null;
    while node != null
      invariant Ok(node) && Nodes(node) <= Nodes(root) && Sorted(InOrder(TreeOf(node)))
      invariant forall z :: z in InOrder(TreeOf(node)) ==> z in InOrder(TreeOf(root))
      invariant y != null ==> y in Nodes(root) && y.iv in InOrder(TreeOf(root)) && x.Before(y.iv)
      invariant y != null ==> forall z :: z in InOrder(TreeOf(node)) ==> z.Before(y.iv)
      invariant forall z :: z in InOrder(TreeOf(root)) && x.Before(z) ==>
                  z in InOrder(TreeOf(node)) || (y != null && (z == y.iv || y.iv.Before(z)))
      decreases Nodes(node)
    {
      SortedParts(node.tree);
      assert node.iv in InOrder(node.tree);
      if x.Before(node.iv) {
        y := node;
        node := node.left;
      } else {
        node := node.right;
      }
    }
  }

  /** The least interval after position `i` is the next one. */
  lemma NextPosition(order: seq<Interval>, i: nat, y: Interval)
    requires Sorted(order) && i < |order| && y in order && order[i].Before(y)
    requires forall z :: z in order && order[i].Before(z) ==> z == y || y.Before(z)
    ensures i + 1 < |order| && order[i + 1] == y
  {
    var j :| 0 <= j < |order| && order[j] == y;
    if j > i + 1 {
      assert order[i + 1] in order;
    }
  }

  lemma LastPosition(order: seq<Interval>, i: nat)
    requires Sorted(order) && i < |order|
    ensures i + 1 == |order| || exists z :: z in order && order[i].Before(z)
  {
    if i + 1 < |order| {
      assert order[i + 1] in order;
    }
  }

  /** `bsr_next_overlap`: the next overlapping request in tree order; `j` is its position, or the end. */
  method NextOverlap(root: Request?, x: Request, from: nat, length: nat, ghost i: nat)
    returns (r: Request?, ghost j: nat)
    requires Ok(root) && Sorted(InOrder(TreeOf(root))) && length % 512 == 0
    requires i < |InOrder(TreeOf(root))| && InOrder(TreeOf(root))[i] == x.iv
    ensures var order := InOrder(TreeOf(root));
      && i < j <= |order| && Overlapping(order[i + 1..], from, length) == Overlapping(order[j..], from, length)
      && (r == null <==> j == |order|) && (r == null <==> Overlapping(order[i + 1..], from, length) == [])
      && (r != null ==> r in Nodes(root) && r.iv == order[j] && r.iv.Overlaps(from, length))
  {
    hide Overlapping, InOrder, Sorted;
    ghost var order := InOrder(TreeOf(root));
    var end := from + length / 512;
    r, j := x, i;
    while true
      invariant r != null && i <= j < |order| && r.iv == order[j]
      invariant Overlapping(order[i + 1..], from, length) == Overlapping(order[j + 1..], from, length)
      decreases |order| - j
    {
      ghost var was := r.iv;
      r := Next(root, r.iv);
      if r == null {
        LastPosition(order, j);
        j := j + 1;
        OverlappingNone(order[j..], from, length);
        return;
      }
      NextPosition(order, j, r.iv);
      j := j + 1;
      OverlappingHead(order[j..], from, length);
      assert order[j..][1..] == order[j + 1..];
      if r.iv.sector >= end {
        NothingFollows(order, j, from, length);
        r, j := null, |order|;
        OverlappingNone(order[j..], from, length);
        return;
      }
      if from < r.iv.End() {
        return;
      }
    }
  }

  lemma NothingFollows(order: seq<Interval>, j: nat, from: nat, length: nat)
    requires Sorted(order) && j < |order| && order[j].sector >= from + length / 512
    ensures Overlapping(order[j..], from, length) == []
  {
    NoneAfter(order[j..], order[j], from, length);
  }

  /** `bsr_for_each_overlap`: every overlapping request once, in tree order. */
  method ForEachOverlap(root: Request?, from: nat, length: nat) returns (visited: seq<Request>)
    requires Ok(root) && IntervalTree.Valid(TreeOf(root)) && length % 512 == 0
    ensures Intervals(visited) == Overlapping(InOrder(TreeOf(root)), from, length) && Sorted(Intervals(visited))
    ensures forall x :: x in visited ==> x in Nodes(root)
    ensures forall x :: x in Intervals(visited) <==> x in InOrder(TreeOf(root)) && x.Overlaps(from, length)
  {
    hide Overlapping, InOrder, Interval.Overlaps, Repaired, Sorted, Intervals;
    ghost var order := InOrder(TreeOf(root));
    OverlappingExact(order, from, length);
    visited := [];
    var node := FindOverlap(root, from, length);
    if node == null {
      return;
    }
    ghost var i := PositionOfFirst(order, from, length);
    while node != null
      invariant i <= |order| && (node == null <==> i == |order|)
      invariant node != null ==> node in Nodes(root) && node.iv == order[i] && order[i].Overlaps(from, length)
      invariant Intervals(visited) + Overlapping(order[i..], from, length) == Overlapping(order, from, length)
      invariant forall x :: x in visited ==> x in Nodes(root)
      decreases |order| - i
    {
      VisitNext(Overlapping(order, from, length), Intervals(visited), order, i, from, length);
      IntervalsAppend(visited, node);
      visited := visited + [node];
      node, i := NextOverlap(root, node, from, length, i);
    }
    OverlappingNone(order[i..], from, length);
  }

  lemma VisitNext(all: seq<Interval>, done: seq<Interval>, order: seq<Interval>, i: nat, from: nat, length: nat)
    requires i < |order| && order[i].Overlaps(from, length) && done + Overlapping(order[i..], from, length) == all
    ensures done + [order[i]] + Overlapping(order[i + 1..], from, length) == all
  {
    hide Overlapping, Interval.Overlaps;
    OverlappingHead(order[i..], from, length);
    assert order[i..][1..] == order[i + 1..];
  }

  lemma IntervalsAppend(s: seq<Request>, x: Request)
    ensures Intervals(s + [x]) == Intervals(s) + [x.iv]
  {
  }

  ghost function Intervals(s: seq<Request>): (r: seq<Interval>)
    ensures |r| == |s| && forall i :: 0 <= i < |s| ==> r[i] == s[i].iv
  {
    seq(|s|, i requires 0 <= i < |s| => s[i].iv)
  }

  /** `bsr_contains_interval` */
  method Contains(root: Request?, sector: nat, id: nat) returns (found: bool)
    requires Ok(root) && Sorted(InOrder(TreeOf(root)))
    ensures found <==> exists x :: x in InOrder(TreeOf(root)) && x.sector == sector && x.id == id
  {
    hide Sorted;
    var node := root;
    while node != null
      invariant Ok(node) && Sorted(InOrder(TreeOf(node)))
      invariant forall x :: x in InOrder(TreeOf(node)) ==> x in InOrder(TreeOf(root))
      invariant forall x :: x in InOrder(TreeOf(root)) && x.sector == sector && x.id == id ==>
                  x in InOrder(TreeOf(node))
      decreases Nodes(node)
    {
      SortedParts(node.tree);
      if sector < node.iv.sector {
        node := node.left;
      } else if sector > node.iv.sector {
        node := node.right;
      } else if id < node.iv.id {
        node := node.left;
      } else if id > node.iv.id {
        node := node.right;
      } else {
        assert node.iv in InOrder(node.tree);
        return true;
      }
    }
    return false;
  }

  /**
   * `bsr_insert_interval` below `root`; the ends are repaired on the way back up. A request that is in the tree
   * already, or one with its start and address, changes nothing.
   */
  method Insert(root: Request?, n: Request) returns (r: Request, ok: bool)
    requires Ok(root) && IntervalTree.Valid(TreeOf(root)) && n.iv.size % 512 == 0
    modifies Nodes(root)`left, Nodes(root)`right, Nodes(root)`end, Nodes(root)`tree, Nodes(root)`repr, n
    ensures r.Valid() && r.tree == Inserted(old(TreeOf(root)), n.iv)
    ensures ok <==> NotPresent(old(TreeOf(root)), n.iv)
    ensures ok ==> n !in old(Nodes(root))
    ensures r.repr == old(Nodes(root)) + (if ok then {n} else {})
    ensures !ok ==> r.tree == old(TreeOf(root))
    ensures n.empty == (old(n.empty) && !ok)
    decreases Nodes(root)
  {
    hide WithEnd, Request.Valid, Sorted, NotPresent;
    if root == null {
      NotPresentLeaf(n.iv);
      n.empty := false;
      n.Relink(null, null);
      return n, true;
    }
    root.Parts();
    SidesPresent(root.tree, n.iv);
    if n in root.repr {
      SideOf(root, n);
    }
    r := root;
    if n.iv.Before(root.iv) {
      var l;
      l, ok := Insert(root.left, n);
      root.Relink(l, root.right);
    } else if root.iv.Before(n.iv) {
      var l;
      l, ok := Insert(root.right, n);
      root.Relink(root.left, l);
    } else {
      ok := false;
    }
  }

  lemma NotPresentLeaf(x: Interval)
    ensures NotPresent(Leaf, x)
  {
  }

  /** Whether an interval is in the tree is decided on its side. */
  lemma SidesPresent(t: Tree, x: Interval)
    requires IntervalTree.Valid(t) && t.Node?
    ensures IntervalTree.Valid(t.left) && IntervalTree.Valid(t.right)
    ensures NotPresent(t, x) <==>
              if x.Before(t.here) then NotPresent(t.left, x)
              else if t.here.Before(x) then NotPresent(t.right, x) else false
  {
    hide Sorted;
    SortedParts(t);
    assert t.here in InOrder(t);
  }

  /** The leftmost node of a subtree, unlinked from it. */
  method TakeFirst(root: Request) returns (first: Request, rest: Request?)
    requires root.Valid()
    modifies root.repr`left, root.repr`right, root.repr`end, root.repr`tree, root.repr`repr
    ensures Ok(rest) && first.iv == First(old(root.tree)) && TreeOf(rest) == WithoutFirst(old(root.tree))
    ensures first in old(root.repr) && Nodes(rest) == old(root.repr) - {first}
    decreases root.repr
  {
    hide WithEnd, Request.Valid;
    root.Parts();
    HasRoot(root.left);
    if root.left == null {
      return root, root.right;
    }
    var l;
    first, l := TakeFirst(root.left);
    root.Relink(l, root.right);
    rest := root;
  }

  /** The two subtrees of a removed node, joined. */
  method Join(l: Request?, r: Request?) returns (n: Request?)
    requires Ok(l) && Ok(r) && Nodes(l) !! Nodes(r)
    modifies Nodes(r)`left, Nodes(r)`right, Nodes(r)`end, Nodes(r)`tree, Nodes(r)`repr
    ensures Ok(n) && TreeOf(n) == Joined(old(TreeOf(l)), old(TreeOf(r)))
    ensures Nodes(n) == old(Nodes(l)) + old(Nodes(r))
  {
    hide WithEnd, Request.Valid;
    HasRoot(l);
    HasRoot(r);
    if l == null {
      return r;
    }
    if r == null {
      return l;
    }
    var first, rest := TakeFirst(r);
    first.Relink(l, rest);
    n := first;
  }

  lemma HasRoot(n: Request?)
    requires Ok(n)
    ensures n != null ==> n.tree.Node? && n in n.repr
    ensures TreeOf(n).Leaf? <==> n == null
  {
  }

  lemma {:induction false} NodeInTree(n: Request, x: Request)
    requires n.Valid() && x in n.repr
    ensures x.iv in InOrder(n.tree)
    decreases n.repr
  {
    n.Parts();
    if n.left != null && x in n.left.repr {
      NodeInTree(n.left, x);
    } else if n.right != null && x in n.right.repr {
      NodeInTree(n.right, x);
    }
  }

  /** Which side of the tree a request is on. */
  lemma SideOf(n: Request, x: Request)
    requires n.Valid() && Sorted(InOrder(n.tree)) && x in n.repr
    ensures n.tree.Node? && Sorted(InOrder(n.tree.left)) && Sorted(InOrder(n.tree.right))
    ensures if x.iv.Before(n.iv) then n.left != null && x in n.left.repr
            else if n.iv.Before(x.iv) then n.right != null && x in n.right.repr
            else x == n
  {
    hide Sorted;
    n.Parts();
    SortedParts(n.tree);
    if n.left != null && x in n.left.repr {
      NodeInTree(n.left, x);
    } else if n.right != null && x in n.right.repr {
      NodeInTree(n.right, x);
    }
  }

  /** The erasure of `bsr_remove_interval`, for a request that is in the tree. */
  method Erase(root: Request, x: Request) returns (r: Request?)
    requires root.Valid() && Sorted(InOrder(root.tree)) && x in root.repr
    modifies root.repr`left, root.repr`right, root.repr`end, root.repr`tree, root.repr`repr
    ensures Ok(r) && TreeOf(r) == Removed(old(root.tree), x.iv)
    ensures Nodes(r) == old(root.repr) - {x}
    decreases root.repr
  {
    hide WithEnd, Request.Valid, Sorted;
    root.Parts();
    SideOf(root, x);
    if x.iv.Before(root.iv) {
      var l := Erase(root.left, x);
      root.Relink(l, root.right);
      r := root;
    } else if root.iv.Before(x.iv) {
      var l := Erase(root.right, x);
      root.Relink(root.left, l);
      r := root;
    } else {
      r := Join(root.left, root.right);
    }
  }

  /** `bsr_remove_interval`: takes the request `x` out of its tree, if it is in one. */
  method Remove(root: Request?, x: Request) returns (r: Request?)
    requires Ok(root) && Sorted(InOrder(TreeOf(root))) && (x.empty || x in Nodes(root))
    modifies Nodes(root)`left, Nodes(root)`right, Nodes(root)`end, Nodes(root)`tree, Nodes(root)`repr
    ensures Ok(r) && TreeOf(r) == if x.empty then old(TreeOf(root)) else Removed(old(TreeOf(root)), x.iv)
    ensures Nodes(r) == if x.empty then old(Nodes(root)) else old(Nodes(root)) - {x}
  {
    if x.empty {
      return root;
    }
    r := Erase(root, x);
  }

  /** One rotation of the rebalancing, in place. */
  method RotateLeft(x: Request) returns (y: Request)
    requires x.Valid()
    modifies x.repr`left, x.repr`right, x.repr`end, x.repr`tree, x.repr`repr
    ensures y.Valid() && y.tree == RotatedLeft(old(x.tree)) && y.repr == old(x.repr)
  {
    hide WithEnd, Request.Valid;
    x.Parts();
    if x.right == null {
      return x;
    }
    y := x.right;
    y.Parts();
    HasRoot(y);
    var a, b, c := x.left, y.left, y.right;
    x.Relink(a, b);
    y.Relink(x, c);
  }

  method RotateRight(x: Request) returns (y: Request)
    requires x.Valid()
    modifies x.repr`left, x.repr`right, x.repr`end, x.repr`tree, x.repr`repr
    ensures y.Valid() && y.tree == RotatedRight(old(x.tree)) && y.repr == old(x.repr)
  {
    hide WithEnd, Request.Valid;
    x.Parts();
    if x.left == null {
      return x;
    }
    y := x.left;
    y.Parts();
    HasRoot(y);
    var a, b, c := y.left, y.right, x.right;
    x.Relink(b, c);
    y.Relink(a, x);
  }
}
