/** The tree of in-flight requests: a search tree by start sector whose nodes cache the greatest end below them. */
module IntervalTree {

  /** `id` stands for the address of the request, which breaks ties. */
  datatype Interval = Interval(id: nat, sector: nat, size: nat) {
    function End(): nat { sector + size / 512 }

    predicate Before(other: Interval) {
      sector < other.sector || (sector == other.sector && id < other.id)
    }

    /** Shares a sector with `[from, from + size / 512)`. */
    predicate Overlaps(from: nat, length: nat) {
      sector < from + length / 512 && from < End()
    }
  }

  datatype Tree = Leaf | Node(left: Tree, here: Interval, end: nat, right: Tree)

  /** The intervals in tree order. */
  function InOrder(t: Tree): seq<Interval> {
    if t.Leaf? then [] else InOrder(t.left) + [t.here] + InOrder(t.right)
  }

  ghost predicate Sorted(s: seq<Interval>) {
    forall i, j :: 0 <= i < j < |s| ==> s[i].Before(s[j])
  }

  /** `update_interval_end` */
  function WithEnd(left: Tree, here: Interval, right: Tree): Tree {
    var e := here.End();
    var e1 := if left.Node? && left.end > e then left.end else e;
    var e2 := if right.Node? && right.end > e1 then right.end else e1;
    Node(left, here, e2, right)
  }

  /** Every cached end is the one `update_interval_end` computes. */
  predicate Repaired(t: Tree) {
    t.Node? ==> Repaired(t.left) && Repaired(t.right) && t == WithEnd(t.left, t.here, t.right)
  }

  ghost predicate Valid(t: Tree) {
    Repaired(t) && Sorted(InOrder(t))
  }

  // ---- what the cached end means

  /** The cached end is the greatest end of the subtree. */
  lemma {:induction false} EndIsGreatest(t: Tree)
    requires Repaired(t) && t.Node?
    ensures forall x :: x in InOrder(t) ==> x.End() <= t.end
    ensures exists x :: x in InOrder(t) && x.End() == t.end
  {
    var l, r := t.left, t.right;
    assert t.here in InOrder(t);
    if l.Node? {
      EndIsGreatest(l);
      var x :| x in InOrder(l) && x.End() == l.end;
      assert x in InOrder(t);
    }
    if r.Node? {
      EndIsGreatest(r);
      var x :| x in InOrder(r) && x.End() == r.end;
      assert x in InOrder(t);
    }
  }

  lemma SortedConcat(l: seq<Interval>, x: Interval, r: seq<Interval>)
    ensures Sorted(l + [x] + r) <==>
              && Sorted(l) && Sorted(r)
              && (forall i :: 0 <= i < |l| ==> l[i].Before(x)) && (forall i :: 0 <= i < |r| ==> x.Before(r[i]))
  {
    var s := l + [x] + r;
    if Sorted(s) {
      assert forall i :: 0 <= i < |l| ==> s[i] == l[i];
      assert s[|l|] == x;
      forall i | 0 <= i < |r| ensures s[|l| + 1 + i] == r[i] {
      }
      forall i, j | 0 <= i < j < |r| ensures r[i].Before(r[j]) {
        assert s[|l| + 1 + i].Before(s[|l| + 1 + j]);
      }
      forall i | 0 <= i < |r| ensures x.Before(r[i]) {
        assert s[|l|].Before(s[|l| + 1 + i]);
      }
    }
  }

  lemma SortedParts(t: Tree)
    requires t.Node? && Sorted(InOrder(t))
    ensures Sorted(InOrder(t.left)) && Sorted(InOrder(t.right))
    ensures forall x :: x in InOrder(t.left) ==> x.Before(t.here)
    ensures forall x :: x in InOrder(t.right) ==> t.here.Before(x)
  {
    hide Sorted;
    SortedConcat(InOrder(t.left), t.here, InOrder(t.right));
  }

  // ---- searching

  /** The overlapping intervals, in tree order. */
  function Overlapping(s: seq<Interval>, from: nat, length: nat): seq<Interval> {
    if s == [] then []
    else
      var rest := Overlapping(s[1..], from, length);
      if s[0].Overlaps(from, length) then [s[0]] + rest else rest
  }

  lemma {:induction false} OverlappingConcat(s: seq<Interval>, u: seq<Interval>, from: nat, length: nat)
    ensures Overlapping(s + u, from, length) == Overlapping(s, from, length) + Overlapping(u, from, length)
  {
    if s == [] {
      assert s + u == u;
    } else {
      assert (s + u)[1..] == s[1..] + u;
      OverlappingConcat(s[1..], u, from, length);
    }
  }

  lemma {:induction false} OverlappingNone(s: seq<Interval>, from: nat, length: nat)
    requires forall x :: x in s ==> !x.Overlaps(from, length)
    ensures Overlapping(s, from, length) == []
  {
    if s != [] {
      OverlappingNone(s[1..], from, length);
    }
  }

  lemma OverlappingNode(t: Tree, from: nat, length: nat)
    requires t.Node?
    ensures Overlapping(InOrder(t), from, length)
         == Overlapping(InOrder(t.left), from, length)
            + (if t.here.Overlaps(from, length) then [t.here] else []) + Overlapping(InOrder(t.right), from, length)
  {
    var l, r := InOrder(t.left), InOrder(t.right);
    OverlappingConcat(l + [t.here], r, from, length);
    OverlappingConcat(l, [t.here], from, length);
  }

  /** Nothing overlaps from an interval that starts past the range onwards. */
  lemma NoneAfter(s: seq<Interval>, x: Interval, from: nat, length: nat)
    requires x.sector >= from + length / 512 && forall y :: y in s ==> x == y || x.Before(y)
    ensures Overlapping(s, from, length) == []
  {
    OverlappingNone(s, from, length);
  }

  /** If the left subtree reaches past the start of the range, nothing to its right is the first overlap. */
  lemma LeftDecides(t: Tree, from: nat, length: nat)
    requires Valid(t) && t.Node? && t.left.Node? && from < t.left.end
    ensures Overlapping(InOrder(t.left), from, length) == [] ==> Overlapping(InOrder(t), from, length) == []
    ensures Overlapping(InOrder(t.left), from, length) <= Overlapping(InOrder(t), from, length)
  {
    SortedParts(t);
    EndIsGreatest(t.left);
    OverlappingNode(t, from, length);
    var x :| x in InOrder(t.left) && x.End() == t.left.end;
    if x.Overlaps(from, length) {
      Finds(InOrder(t.left), x, from, length);
    } else {
      NoneAfter([t.here], x, from, length);
      NoneAfter(InOrder(t.right), x, from, length);
    }
  }

  lemma {:induction false} Finds(s: seq<Interval>, x: Interval, from: nat, length: nat)
    requires x in s && x.Overlaps(from, length)
    ensures x in Overlapping(s, from, length)
  {
    if x != s[0] {
      Finds(s[1..], x, from, length);
    }
  }

  /** If it does not, nothing in the left subtree overlaps. */
  lemma LeftIsShort(t: Tree, from: nat, length: nat)
    requires Valid(t) && t.Node? && (t.left.Leaf? || from >= t.left.end)
    ensures Overlapping(InOrder(t.left), from, length) == []
  {
    if t.left.Node? {
      EndIsGreatest(t.left);
    }
    OverlappingNone(InOrder(t.left), from, length);
  }

  /** `Overlapping` lists exactly the overlapping intervals, in the order of `s`. */
  lemma {:induction false} OverlappingExact(s: seq<Interval>, from: nat, length: nat)
    requires Sorted(s)
    ensures Sorted(Overlapping(s, from, length))
    ensures forall x :: x in Overlapping(s, from, length) <==> x in s && x.Overlaps(from, length)
  {
    if s != [] {
      OverlappingExact(s[1..], from, length);
      var rest := Overlapping(s[1..], from, length);
      forall i | 0 <= i < |rest| ensures s[0].Before(rest[i]) {
        assert rest[i] in s[1..];
      }
    }
  }

  lemma OverlappingHead(s: seq<Interval>, from: nat, length: nat)
    requires s != []
    ensures Overlapping(s, from, length)
         == (if s[0].Overlaps(from, length) then [s[0]] else []) + Overlapping(s[1..], from, length)
  {
  }

  lemma {:induction false} PositionOfFirst(s: seq<Interval>, from: nat, length: nat) returns (i: nat)
    requires Overlapping(s, from, length) != []
    ensures i < |s| && s[i] == Overlapping(s, from, length)[0]
    ensures Overlapping(s[i..], from, length) == Overlapping(s, from, length)
    ensures s[i].Overlaps(from, length)
  {
    if s[0].Overlaps(from, length) {
      i := 0;
      assert s[0..] == s;
    } else {
      i := PositionOfFirst(s[1..], from, length);
      assert s[1..][i..] == s[i + 1..];
      i := i + 1;
    }
  }

  // ---- changing the tree

  /** `bsr_insert_interval`, the ends repaired from the new node up to the root. */
  function Inserted(t: Tree, x: Interval): Tree {
    if t.Leaf? then WithEnd(Leaf, x, Leaf)
    else if x.Before(t.here) then WithEnd(Inserted(t.left, x), t.here, t.right)
    else if t.here.Before(x) then WithEnd(t.left, t.here, Inserted(t.right, x))
    else t
  }

  /** The leftmost interval, and the tree without it. */
  function First(t: Tree): Interval
    requires t.Node?
  {
    if t.left.Leaf? then t.here else First(t.left)
  }

  function WithoutFirst(t: Tree): Tree
    requires t.Node?
  {
    if t.left.Leaf? then t.right else WithEnd(WithoutFirst(t.left), t.here, t.right)
  }

  /** The node taken out of its place: a node with two children gives way to its successor. */
  function Joined(left: Tree, right: Tree): Tree {
    if left.Leaf? then right
    else if right.Leaf? then left
    else WithEnd(left, First(right), WithoutFirst(right))
  }

  /** `bsr_remove_interval`, the ends repaired from the deepest changed node up. */
  function Removed(t: Tree, x: Interval): Tree {
    if t.Leaf? then Leaf
    else if x.Before(t.here) then WithEnd(Removed(t.left, x), t.here, t.right)
    else if t.here.Before(x) then WithEnd(t.left, t.here, Removed(t.right, x))
    else Joined(t.left, t.right)
  }

  /** One rotation of the rebalancing, both nodes' ends repaired. */
  function RotatedLeft(t: Tree): Tree {
    if t.Leaf? || t.right.Leaf? then t
    else WithEnd(WithEnd(t.left, t.here, t.right.left), t.right.here, t.right.right)
  }

  function RotatedRight(t: Tree): Tree {
    if t.Leaf? || t.left.Leaf? then t
    else WithEnd(t.left.left, t.left.here, WithEnd(t.left.right, t.here, t.right))
  }

  /** A rotation of the subtree that `path` leads to (true is left); the ends above are repaired. */
  function RotatedAt(t: Tree, path: seq<bool>, left: bool): Tree {
    if t.Leaf? then t
    else if path == [] then if left then RotatedLeft(t) else RotatedRight(t)
    else if path[0] then WithEnd(RotatedAt(t.left, path[1..], left), t.here, t.right)
    else WithEnd(t.left, t.here, RotatedAt(t.right, path[1..], left))
  }

  lemma {:induction false} InsertedIs(t: Tree, x: Interval)
    requires Valid(t)
    ensures Valid(Inserted(t, x))
    ensures forall y :: y in InOrder(Inserted(t, x)) <==> y in InOrder(t) || (y == x && NotPresent(t, x))
  {
    if t.Node? {
      SortedParts(t);
      if x.Before(t.here) {
        InsertedIs(t.left, x);
        SortedConcat(InOrder(Inserted(t.left, x)), t.here, InOrder(t.right));
      } else if t.here.Before(x) {
        InsertedIs(t.right, x);
        SortedConcat(InOrder(t.left), t.here, InOrder(Inserted(t.right, x)));
      }
    }
  }

  /** No request with the same start and the same address is in the tree. */
  predicate NotPresent(t: Tree, x: Interval) {
    forall y :: y in InOrder(t) ==> y.sector != x.sector || y.id != x.id
  }

  lemma {:induction false} FirstIs(t: Tree)
    requires t.Node? && Repaired(t)
    ensures Repaired(WithoutFirst(t)) && InOrder(t) == [First(t)] + InOrder(WithoutFirst(t))
  {
    if t.left.Node? {
      FirstIs(t.left);
    }
  }

  lemma JoinedIs(l: Tree, r: Tree)
    requires Repaired(l) && Repaired(r)
    ensures Repaired(Joined(l, r)) && InOrder(Joined(l, r)) == InOrder(l) + InOrder(r)
  {
    if l.Node? && r.Node? {
      FirstIs(r);
    }
  }

  lemma SortedWithout(l: seq<Interval>, x: Interval, r: seq<Interval>)
    requires Sorted(l + [x] + r)
    ensures Sorted(l + r) && x !in l && x !in r
  {
    var s, u := l + [x] + r, l + r;
    forall i | 0 <= i < |u| ensures u[i] == s[if i < |l| then i else i + 1] {
    }
    assert forall i :: 0 <= i < |l| ==> s[i] == l[i];
    assert forall i :: 0 <= i < |r| ==> s[|l| + 1 + i] == r[i];
    assert s[|l|] == x;
  }

  lemma {:induction false} RemovedIs(t: Tree, x: Interval)
    requires Valid(t) && x in InOrder(t)
    ensures Valid(Removed(t, x))
    ensures forall y :: y in InOrder(Removed(t, x)) <==> y in InOrder(t) && y != x
  {
    SortedParts(t);
    if x.Before(t.here) {
      RemovedIs(t.left, x);
      SortedConcat(InOrder(Removed(t.left, x)), t.here, InOrder(t.right));
    } else if t.here.Before(x) {
      RemovedIs(t.right, x);
      SortedConcat(InOrder(t.left), t.here, InOrder(Removed(t.right, x)));
    } else {
      JoinedIs(t.left, t.right);
      SortedWithout(InOrder(t.left), t.here, InOrder(t.right));
    }
  }

  lemma RotationKeepsOrder(t: Tree)
    requires Repaired(t)
    ensures Repaired(RotatedLeft(t)) && InOrder(RotatedLeft(t)) == InOrder(t)
    ensures Repaired(RotatedRight(t)) && InOrder(RotatedRight(t)) == InOrder(t)
  {
    if t.Node? && t.right.Node? {
      var a, x, b, y, c := InOrder(t.left), [t.here], InOrder(t.right.left), [t.right.here], InOrder(t.right.right);
      assert a + x + (b + y + c) == a + x + b + y + c;
    }
    if t.Node? && t.left.Node? {
      var a, x, b, y, c := InOrder(t.left.left), [t.left.here], InOrder(t.left.right), [t.here], InOrder(t.right);
      assert a + x + (b + y + c) == a + x + b + y + c;
    }
  }

  lemma {:induction false} RotatedAtKeepsOrder(t: Tree, path: seq<bool>, left: bool)
    requires Repaired(t)
    ensures Repaired(RotatedAt(t, path, left)) && InOrder(RotatedAt(t, path, left)) == InOrder(t)
  {
    if t.Node? {
      if path == [] {
        RotationKeepsOrder(t);
      } else if path[0] {
        RotatedAtKeepsOrder(t.left, path[1..], left);
      } else {
        RotatedAtKeepsOrder(t.right, path[1..], left);
      }
    }
  }

  lemma RotatedIs(t: Tree, path: seq<bool>, left: bool)
    requires Valid(t)
    ensures Valid(RotatedAt(t, path, left)) && InOrder(RotatedAt(t, path, left)) == InOrder(t)
  {
    RotatedAtKeepsOrder(t, path, left);
  }

  // ---- every tree that can arise

  datatype Op = Insert(x: Interval) | Remove(x: Interval) | Rotate(path: seq<bool>, left: bool)

  /** Only intervals of the tree are removed. */
  ghost predicate Allowed(t: Tree, op: Op) {
    op.Remove? ==> op.x in InOrder(t)
  }

  function Applied(t: Tree, op: Op): Tree {
    match op
    case Insert(x) => Inserted(t, x)
    case Remove(x) => Removed(t, x)
    case Rotate(path, left) => RotatedAt(t, path, left)
  }

  ghost predicate Reaches(ops: seq<Op>, t: Tree)
    decreases |ops|
  {
    if ops == [] then t == Leaf
    else
      var last := |ops| - 1;
      exists s :: Reaches(ops[..last], s) && Allowed(s, ops[last]) && t == Applied(s, ops[last])
  }

  /** The set of intervals inserted and not removed again. */
  ghost function Live(ops: seq<Op>): (r: set<Interval>) {
    if ops == [] then {}
    else
      var rest, op := Live(ops[..|ops| - 1]), ops[|ops| - 1];
      match op
      case Insert(x) => if exists y :: y in rest && y.sector == x.sector && y.id == x.id then rest else rest + {x}
      case Remove(x) => rest - {x}
      case Rotate(_, _) => rest
  }

  lemma LeafIsValid()
    ensures Valid(Leaf) && InOrder(Leaf) == []
  {
  }

  /** Every tree reached by inserts, removals and rotations is searchable and holds exactly the live intervals. */
  lemma {:induction false} ReachedIsValid(ops: seq<Op>, t: Tree)
    requires Reaches(ops, t)
    ensures Valid(t)
    ensures forall x :: x in InOrder(t) <==> x in Live(ops)
  {
    hide InOrder, Valid, Inserted, Removed, RotatedAt;
    if ops == [] {
      LeafIsValid();
    } else {
      var last := |ops| - 1;
      var s :| Reaches(ops[..last], s) && Allowed(s, ops[last]) && t == Applied(s, ops[last]);
      ReachedIsValid(ops[..last], s);
      match ops[last]
      case Insert(x) => InsertedIs(s, x);
      case Remove(x) => RemovedIs(s, x);
      case Rotate(path, left) => RotatedIs(s, path, left);
    }
  }
}
