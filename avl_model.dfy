/**
 * The value-level specification of `SearchTree` (SearchTree.java): a subtree
 * of `BinaryNode`s as a `Tree` value that keeps every node's cached height,
 * the four rotations and `insert` exactly as the code computes them, and the
 * floor search of `search`. The lemmas state what these promise: rotations
 * and insertion keep the in-order sequence ordered by begin address, the
 * corrected insertion keeps the AVL invariant, and `search` finds the entry
 * with the greatest begin address not above the key.
 */
module AvlModel {
  import opened Outcomes
  import opened Addresses
  import opened Entries

  /** A subtree of `BinaryNode`s: each node's entry and its cached `height` field. */
  datatype Tree = Nil | Node(left: Tree, data: Entry, height: int, right: Tree)

  /**
   * Which right-left rotation `insert` performs: the one at SearchTree.java:258-270
   * as written, or the same rotation with its height bookkeeping corrected.
   */
  datatype RLRotation = AsWritten | Corrected

  /** `Math.max`. */
  function Max(a: int, b: int): int
  {
    if a < b then b else a
  }

  /** `SearchTree.height`: the cached height of a subtree, -1 when it is empty. */
  function H(t: Tree): int
  {
    if t.Nil? then -1 else t.height
  }

  /** The entries of a subtree from left to right. */
  function InOrder(t: Tree): seq<Entry>
  {
    match t
    case Nil => []
    case Node(l, d, _, r) => InOrder(l) + [d] + InOrder(r)
  }

  /** The true height of a subtree, whatever its cached heights say. */
  function Depth(t: Tree): int
  {
    match t
    case Nil => -1
    case Node(l, _, _, r) => Max(Depth(l), Depth(r)) + 1
  }

  /** Entries strictly increasing by begin address. */
  ghost predicate Sorted(s: seq<Entry>)
  {
    forall i, j :: 0 <= i < j < |s| ==> Key(s[i]) < Key(s[j])
  }

  /** The search-tree property: the in-order sequence is strictly increasing by begin address. */
  ghost predicate Ordered(t: Tree)
  {
    Sorted(InOrder(t))
  }

  /** Every cached height is one more than the larger cached height of the node's children. */
  ghost predicate Exact(t: Tree)
  {
    match t
    case Nil => true
    case Node(l, _, h, r) => Exact(l) && Exact(r) && h == Max(H(l), H(r)) + 1
  }

  /** The AVL invariant on cached heights: exact heights, children differing by at most one. */
  ghost predicate Avl(t: Tree)
  {
    match t
    case Nil => true
    case Node(l, _, h, r) =>
      Avl(l) && Avl(r) && h == Max(H(l), H(r)) + 1 && -1 <= H(l) - H(r) <= 1
  }

  /** Balance measured on true heights: at every node the children differ by at most one. */
  ghost predicate DepthBalanced(t: Tree)
  {
    match t
    case Nil => true
    case Node(l, _, _, r) =>
      DepthBalanced(l) && DepthBalanced(r) && -1 <= Depth(l) - Depth(r) <= 1
  }

  /** A tree satisfying the AVL invariant has exact cached heights and is balanced in truth. */
  lemma {:induction false} AvlIsBalanced(t: Tree)
    requires Avl(t)
    ensures Exact(t) && H(t) == Depth(t) && DepthBalanced(t) && H(t) >= -1
  {
    match t
    case Nil =>
    case Node(l, _, _, r) =>
      AvlIsBalanced(l);
      AvlIsBalanced(r);
  }

  // ---------------------------------------------------------------------------
  // Rotations, as SearchTree.java computes them
  // ---------------------------------------------------------------------------

  /** The statement `p.height = Math.max(height(p.left), height(p.right)) + 1`. */
  function Reheight(t: Tree): (r: Tree)
    requires t.Node?
    ensures InOrder(r) == InOrder(t)
    ensures Exact(t.left) && Exact(t.right) ==> Exact(r)
  {
    Node(t.left, t.data, Max(H(t.left), H(t.right)) + 1, t.right)
  }

  /**
   * `rotateWithLeftChild` (LL): the left child `k1` becomes the root. The
   * in-order sequence is unchanged and both touched nodes get exact heights.
   */
  function RotateLL(t: Tree): (r: Tree)
    requires t.Node? && t.left.Node?
    ensures InOrder(r) == InOrder(t)
    ensures r.Node? && r.right.Node?
    ensures Exact(t.left.left) && Exact(t.left.right) && Exact(t.right) ==> Exact(r)
  {
    var k1 := t.left;
    var node := Node(k1.right, t.data, Max(H(k1.right), H(t.right)) + 1, t.right);
    Node(k1.left, k1.data, Max(H(k1.left), H(node)) + 1, node)
  }

  /** `rotateWithRightChild` (RR): the mirror image of `RotateLL`. */
  function RotateRR(t: Tree): (r: Tree)
    requires t.Node? && t.right.Node?
    ensures InOrder(r) == InOrder(t)
    ensures r.Node? && r.left.Node?
    ensures Exact(t.left) && Exact(t.right.left) && Exact(t.right.right) ==> Exact(r)
  {
    var k1 := t.right;
    var node := Node(t.left, t.data, Max(H(t.left), H(k1.left)) + 1, k1.left);
    Node(node, k1.data, Max(H(node), H(k1.right)) + 1, k1.right)
  }

  /**
   * `rotateWithLRChild` (LR): `k2 = node.left.right` is lifted above `k1 =
   * node.left`, then an LL rotation lifts it to the root. All three touched
   * nodes get exact heights.
   */
  function RotateLR(t: Tree): (r: Tree)
    requires t.Node? && t.left.Node? && t.left.right.Node?
    ensures InOrder(r) == InOrder(t)
    ensures Exact(t.left.left) && Exact(t.left.right.left) && Exact(t.left.right.right) && Exact(t.right)
            ==> Exact(r)
  {
    var k1 := t.left;
    var k2 := k1.right;
    var k1' := Node(k1.left, k1.data, Max(H(k1.left), H(k2.left)) + 1, k2.left);
    var k2' := Node(k1', k2.data, Max(H(k1'), H(k2.right)) + 1, k2.right);
    assert InOrder(k2') == InOrder(t.left) by {
      assert InOrder(k2') == InOrder(k1.left) + [k1.data] + InOrder(k2.left) + [k2.data] + InOrder(k2.right);
    }
    RotateLL(Node(k2', t.data, t.height, t.right))
  }

  /**
   * `rotateWithRLChild` (RL) as written: after `k2.right = k1` the statement
   * `k1.height = Math.max(height(k1.left), height(k2.right))` reads k1's own
   * old height, and neither assignment adds one. The final RR rotation
   * recomputes the root and its left child, but the right child `k1` keeps the
   * height computed here. The in-order sequence is still preserved.
   */
  function RotateRLAsWritten(t: Tree): (r: Tree)
    requires t.Node? && t.right.Node? && t.right.left.Node?
    ensures InOrder(r) == InOrder(t)
    ensures r.Node? && r.left.Node?
    ensures r.height == Max(H(r.left), H(r.right)) + 1
    ensures Exact(t.left) && Exact(t.right.left.left) ==> Exact(r.left)
  {
    var k1 := t.right;
    var k2 := k1.left;
    var k1Height := Max(H(k2.right), k1.height);
    var k1' := Node(k2.right, k1.data, k1Height, k1.right);
    var k2' := Node(k2.left, k2.data, Max(H(k2.left), k1Height), k1');
    assert InOrder(k2') == InOrder(t.right) by {
      assert InOrder(k2') == InOrder(k2.left) + [k2.data] + InOrder(k2.right) + [k1.data] + InOrder(k1.right);
    }
    RotateRR(Node(t.left, t.data, t.height, k2'))
  }

  /**
   * The right-left rotation with the bookkeeping of `rotateWithLRChild`:
   * `k1` and `k2` get one more than the larger height of their new children.
   * All three touched nodes get exact heights.
   */
  function RotateRLCorrected(t: Tree): (r: Tree)
    requires t.Node? && t.right.Node? && t.right.left.Node?
    ensures InOrder(r) == InOrder(t)
    ensures Exact(t.left) && Exact(t.right.left.left) && Exact(t.right.left.right) && Exact(t.right.right)
            ==> Exact(r)
  {
    var k1 := t.right;
    var k2 := k1.left;
    var k1' := Node(k2.right, k1.data, Max(H(k2.right), H(k1.right)) + 1, k1.right);
    var k2' := Node(k2.left, k2.data, Max(H(k2.left), H(k1')) + 1, k1');
    assert InOrder(k2') == InOrder(t.right) by {
      assert InOrder(k2') == InOrder(k2.left) + [k2.data] + InOrder(k2.right) + [k1.data] + InOrder(k1.right);
    }
    RotateRR(Node(t.left, t.data, t.height, k2'))
  }

  function RotateRL(t: Tree, rl: RLRotation): (r: Tree)
    requires t.Node? && t.right.Node? && t.right.left.Node?
    ensures InOrder(r) == InOrder(t)
  {
    match rl
    case AsWritten => RotateRLAsWritten(t)
    case Corrected => RotateRLCorrected(t)
  }

  // ---------------------------------------------------------------------------
  // Insertion
  // ---------------------------------------------------------------------------

  /**
   * `insert(newnode, p)` (SearchTree.java:183-215) on the subtree `t` with the
   * node `x`: descend by begin address, rebalance when the cached heights of
   * the children differ by two, and recompute the height of the subtree root.
   * An equal begin address inserts nothing. The double rotations dereference
   * the inner grandchild; when it is missing the source throws, which is
   * `NullPointerException` here.
   */
  function Insert(x: Tree, t: Tree, rl: RLRotation): (o: Throws<Tree>)
    requires x.Node?
    ensures o.Returns? ==> o.value.Node?
    decreases t
  {
    match t
    case Nil => Returns(x)
    case Node(l, d, h, r) =>
      if CompareTo(d, x.data) > 0 then
        match Insert(x, l, rl)
        case NullPointerException => NullPointerException
        case Returns(l1) => BalanceLeft(x.data, Node(l1, d, h, r))
      else if CompareTo(d, x.data) < 0 then
        match Insert(x, r, rl)
        case NullPointerException => NullPointerException
        case Returns(r1) => BalanceRight(x.data, Node(l, d, h, r1), rl)
      else Returns(Reheight(t))
  }

  /**
   * The rebalancing after `insert` returned into the left child `p.left`
   * (SearchTree.java:190-197): a single rotation when the new entry went to
   * the outer side, a double rotation otherwise, and a height update in any case.
   */
  function BalanceLeft(x: Entry, p: Tree): (o: Throws<Tree>)
    requires p.Node? && p.left.Node?
    ensures o.Returns? ==> o.value.Node?
  {
    if H(p.left) - H(p.right) == 2 then
      if CompareTo(x, p.left.data) < 0 then Returns(Reheight(RotateLL(p)))
      else if p.left.right.Nil? then NullPointerException
      else Returns(Reheight(RotateLR(p)))
    else Returns(Reheight(p))
  }

  /**
   * The rebalancing after `insert` returned into the right child `p.right`
   * (SearchTree.java:198-206), mirror image of `BalanceLeft`.
   */
  function BalanceRight(x: Entry, p: Tree, rl: RLRotation): (o: Throws<Tree>)
    requires p.Node? && p.right.Node?
    ensures o.Returns? ==> o.value.Node?
  {
    if H(p.right) - H(p.left) == 2 then
      if CompareTo(x, p.right.data) < 0 then
        if p.right.left.Nil? then NullPointerException
        else Returns(Reheight(RotateRL(p, rl)))
      else Returns(Reheight(RotateRR(p)))
    else Returns(Reheight(p))
  }

  /** A node as `new BinaryNode(ip)` creates it: no children, height 0. */
  function Leaf(e: Entry): (t: Tree)
    ensures InOrder(t) == [e] && Avl(t)
  {
    Node(Nil, e, 0, Nil)
  }

  /**
   * Inserting the entries one after the other, as `IPLocate.build` does with
   * the lines of the range file.
   */
  function InsertAll(t: Tree, es: seq<Entry>, rl: RLRotation): (r: Throws<Tree>)
    ensures es != [] && r.Returns? ==> r.value.Node?
    decreases |es|
  {
    if es == [] then Returns(t)
    else
      match Insert(Leaf(es[0]), t, rl)
      case NullPointerException => NullPointerException
      case Returns(t1) => InsertAll(t1, es[1..], rl)
  }

  /**
   * The reference for `insert`: `e` placed in a sequence sorted by begin
   * address before the first entry with a larger begin; nothing changes when
   * an entry with the same begin is met first.
   */
  function InsertByKey(s: seq<Entry>, e: Entry): (r: seq<Entry>)
    ensures forall d :: d in r ==> d in s || d == e
  {
    if s == [] then [e]
    else if Key(e) < Key(s[0]) then [e] + s
    else if Key(e) == Key(s[0]) then s
    else
      assert forall d :: d in s[1..] ==> d in s;
      [s[0]] + InsertByKey(s[1..], e)
  }

  /** `InsertByKey` keeps a sorted sequence sorted. */
  lemma {:induction false} InsertByKeySorted(s: seq<Entry>, e: Entry)
    requires Sorted(s)
    ensures Sorted(InsertByKey(s, e))
    decreases |s|
  {
    if s != [] && Key(e) > Key(s[0]) {
      var rest := InsertByKey(s[1..], e);
      InsertByKeySorted(s[1..], e);
      forall d | d in rest ensures Key(s[0]) < Key(d) {
        if d != e {
          var k :| 0 <= k < |s[1..]| && s[1..][k] == d;
          assert s[k + 1] == d;
        }
      }
      var r := [s[0]] + rest;
      forall i, j | 0 <= i < j < |r| ensures Key(r[i]) < Key(r[j]) {
        assert r[j] == rest[j - 1];
        if i > 0 {
          assert r[i] == rest[i - 1];
        } else {
          assert rest[j - 1] in rest;
        }
      }
    }
  }

  /** Without an entry of the same begin, `InsertByKey` adds exactly `e`. */
  lemma {:induction false} InsertByKeyAdds(s: seq<Entry>, e: Entry)
    requires forall d :: d in s ==> Key(d) != Key(e)
    ensures multiset(InsertByKey(s, e)) == multiset(s) + multiset{e}
    decreases |s|
  {
    if s != [] && Key(e) > Key(s[0]) {
      assert forall d :: d in s[1..] ==> d in s;
      InsertByKeyAdds(s[1..], e);
      assert s == [s[0]] + s[1..];
    }
  }

  /** When an entry with the same begin address is present, `InsertByKey` changes nothing. */
  lemma {:induction false} InsertByKeyPresent(s: seq<Entry>, e: Entry)
    requires Sorted(s)
    requires exists d :: d in s && d.begin == e.begin
    ensures InsertByKey(s, e) == s
    decreases |s|
  {
    var d :| d in s && d.begin == e.begin;
    if Key(e) > Key(s[0]) {
      assert s == [s[0]] + s[1..];
      assert d != s[0];
      assert d in s[1..];
      InsertByKeyPresent(s[1..], e);
    }
  }

  /** An entry below the first of `b` is inserted into the prefix `a` alone. */
  lemma {:induction false} InsertByKeyBefore(a: seq<Entry>, b: seq<Entry>, e: Entry)
    requires b != [] && Key(e) < Key(b[0])
    ensures InsertByKey(a + b, e) == InsertByKey(a, e) + b
    decreases |a|
  {
    if a != [] {
      assert (a + b)[0] == a[0];
      if Key(e) > Key(a[0]) {
        assert (a + b)[1..] == a[1..] + b;
        InsertByKeyBefore(a[1..], b, e);
      }
    }
  }

  /** An entry above every entry of `a` is inserted into the suffix `b` alone. */
  lemma {:induction false} InsertByKeyAfter(a: seq<Entry>, b: seq<Entry>, e: Entry)
    requires forall d :: d in a ==> Key(d) < Key(e)
    ensures InsertByKey(a + b, e) == a + InsertByKey(b, e)
    decreases |a|
  {
    if a != [] {
      assert a[0] in a;
      assert (a + b)[0] == a[0];
      assert (a + b)[1..] == a[1..] + b;
      assert a == [a[0]] + a[1..];
      assert forall d :: d in a[1..] ==> d in a;
      InsertByKeyAfter(a[1..], b, e);
      assert [a[0]] + (a[1..] + InsertByKey(b, e)) == a + InsertByKey(b, e);
    } else {
      assert a + b == b;
    }
  }

  /** What a sorted `a + [d] + b` says about its three parts. */
  lemma SortedSplit(a: seq<Entry>, d: Entry, b: seq<Entry>)
    requires Sorted(a + [d] + b)
    ensures Sorted(a) && Sorted(b)
    ensures forall e :: e in a ==> Key(e) < Key(d)
    ensures forall e :: e in b ==> Key(d) < Key(e)
  {
    var s := a + [d] + b;
    assert forall i :: 0 <= i < |a| ==> s[i] == a[i];
    assert forall i :: 0 <= i < |b| ==> s[|a| + 1 + i] == b[i];
    assert s[|a|] == d;
    forall i, j | 0 <= i < j < |b| ensures Key(b[i]) < Key(b[j]) {
      assert s[|a| + 1 + i] == b[i] && s[|a| + 1 + j] == b[j];
    }
  }

  /** Sorted parts, all of `a` below `d` and all of `b` above, make a sorted `a + [d] + b`. */
  lemma SortedJoin(a: seq<Entry>, d: Entry, b: seq<Entry>)
    requires Sorted(a) && Sorted(b)
    requires forall e :: e in a ==> Key(e) < Key(d)
    requires forall e :: e in b ==> Key(d) < Key(e)
    ensures Sorted(a + [d] + b)
  {
    var s := a + [d] + b;
    forall i, j | 0 <= i < j < |s| ensures Key(s[i]) < Key(s[j]) {
      if j < |a| {
        assert s[i] == a[i] && s[j] == a[j];
      } else if i > |a| {
        assert s[i] == b[i - |a| - 1] && s[j] == b[j - |a| - 1];
      } else if i == |a| {
        assert s[j] == b[j - |a| - 1];
      } else if j == |a| {
        assert s[i] == a[i];
      } else {
        assert s[i] == a[i] && s[j] == b[j - |a| - 1];
        assert a[i] in a && b[j - |a| - 1] in b;
      }
    }
  }

  /**
   * A node's subtree is ordered exactly when both children are ordered, every
   * entry on the left has a smaller begin and every entry on the right a larger one.
   */
  lemma OrderedNode(l: Tree, d: Entry, h: int, r: Tree)
    ensures Ordered(Node(l, d, h, r)) <==>
      Ordered(l) && Ordered(r) &&
      (forall e :: e in InOrder(l) ==> Key(e) < Key(d)) &&
      (forall e :: e in InOrder(r) ==> Key(d) < Key(e))
  {
    if Ordered(Node(l, d, h, r)) {
      SortedSplit(InOrder(l), d, InOrder(r));
    }
    if Ordered(l) && Ordered(r) &&
      (forall e :: e in InOrder(l) ==> Key(e) < Key(d)) &&
      (forall e :: e in InOrder(r) ==> Key(d) < Key(e))
    {
      SortedJoin(InOrder(l), d, InOrder(r));
    }
  }

  /** Descending left, whatever rebalancing follows keeps the in-order sequence of the pieces. */
  lemma InsertLeftInOrder(x: Tree, t: Tree, rl: RLRotation)
    requires x.Node? && t.Node? && CompareTo(t.data, x.data) > 0
    requires Insert(x, t, rl).Returns?
    ensures Insert(x, t.left, rl).Returns?
    ensures InOrder(Insert(x, t, rl).value) ==
      InOrder(Insert(x, t.left, rl).value) + [t.data] + InOrder(t.right)
  {
  }

  /** Descending right, whatever rebalancing follows keeps the in-order sequence of the pieces. */
  lemma InsertRightInOrder(x: Tree, t: Tree, rl: RLRotation)
    requires x.Node? && t.Node? && CompareTo(t.data, x.data) < 0
    requires Insert(x, t, rl).Returns?
    ensures Insert(x, t.right, rl).Returns?
    ensures InOrder(Insert(x, t, rl).value) ==
      InOrder(t.left) + [t.data] + InOrder(Insert(x, t.right, rl).value)
  {
  }

  /**
   * `insert` keeps the tree a search tree by begin address: the new in-order
   * sequence is the old one with the new entry inserted at its position, and
   * unchanged when an entry with the same begin is already present. This holds
   * for either right-left rotation, whenever the insertion does not throw.
   */
  lemma {:induction false} InsertInOrder(x: Tree, t: Tree, rl: RLRotation)
    requires x.Node? && x.left.Nil? && x.right.Nil?
    requires Ordered(t)
    requires Insert(x, t, rl).Returns?
    ensures InOrder(Insert(x, t, rl).value) == InsertByKey(InOrder(t), x.data)
    ensures Ordered(Insert(x, t, rl).value)
    decreases t
  {
    if t.Node? {
      OrderedNode(t.left, t.data, t.height, t.right);
      if CompareTo(t.data, x.data) > 0 {
        InsertLeftInOrder(x, t, rl);
        InsertInOrder(x, t.left, rl);
        InsertDescendLeft(x.data, InOrder(t.left), t.data, InOrder(t.right));
      } else if CompareTo(t.data, x.data) < 0 {
        InsertRightInOrder(x, t, rl);
        InsertInOrder(x, t.right, rl);
        InsertDescendRight(x.data, InOrder(t.left), t.data, InOrder(t.right));
      } else {
        InsertEqualInOrder(x, t, rl);
        InsertStopEqual(x.data, InOrder(t.left), t.data, InOrder(t.right));
      }
      InsertByKeySorted(InOrder(t), x.data);
    }
  }

  /** Sequence form of the left descent of `InsertInOrder`. */
  lemma InsertDescendLeft(e: Entry, a: seq<Entry>, d: Entry, b: seq<Entry>)
    requires Key(e) < Key(d)
    ensures InsertByKey(a + [d] + b, e) == InsertByKey(a, e) + [d] + b
  {
    InsertByKeyBefore(a, [d] + b, e);
    assert a + [d] + b == a + ([d] + b);
  }

  /** Sequence form of the right descent of `InsertInOrder`. */
  lemma InsertDescendRight(e: Entry, a: seq<Entry>, d: Entry, b: seq<Entry>)
    requires forall c :: c in a ==> Key(c) < Key(d)
    requires Key(d) < Key(e)
    ensures InsertByKey(a + [d] + b, e) == a + [d] + InsertByKey(b, e)
  {
    InsertByKeyAfter(a + [d], b, e);
  }

  /** Sequence form of the equal-key stop of `InsertInOrder`. */
  lemma InsertStopEqual(e: Entry, a: seq<Entry>, d: Entry, b: seq<Entry>)
    requires forall c :: c in a ==> Key(c) < Key(d)
    requires Key(d) == Key(e)
    ensures InsertByKey(a + [d] + b, e) == a + [d] + b
  {
    InsertByKeyAfter(a, [d] + b, e);
    assert a + [d] + b == a + ([d] + b);
  }

  /** Meeting an equal begin, `insert` keeps the in-order sequence. */
  lemma InsertEqualInOrder(x: Tree, t: Tree, rl: RLRotation)
    requires x.Node? && t.Node? && CompareTo(t.data, x.data) == 0
    ensures Insert(x, t, rl) == Returns(Reheight(t))
    ensures InOrder(Insert(x, t, rl).value) == InOrder(t)
  {
  }

  /**
   * When an entry with the same begin address is already in the tree,
   * `insert` keeps exactly the entries it had.
   */
  lemma InsertDuplicateKeepsEntries(x: Tree, t: Tree, rl: RLRotation)
    requires x.Node? && x.left.Nil? && x.right.Nil?
    requires Ordered(t)
    requires exists d :: d in InOrder(t) && d.begin == x.data.begin
    requires Insert(x, t, rl).Returns?
    ensures InOrder(Insert(x, t, rl).value) == InOrder(t)
  {
    InsertInOrder(x, t, rl);
    InsertByKeyPresent(InOrder(t), x.data);
  }

  /** A subtree satisfying the AVL invariant has cached height at least -1. */
  lemma {:induction false} AvlHeight(t: Tree)
    requires Avl(t)
    ensures H(t) >= -1
    ensures t.Node? ==> H(t) >= 0
  {
    match t
    case Nil =>
    case Node(l, _, _, r) =>
      AvlHeight(l);
  }

  /** Recomputing the height of a node whose height is already exact changes nothing. */
  lemma ReheightExact(t: Tree)
    requires t.Node? && t.height == Max(H(t.left), H(t.right)) + 1
    ensures Reheight(t) == t
  {
  }

  /**
   * What one corrected insertion of the entry `e` into `t` keeps: the result
   * `r` satisfies the AVL invariant, is at most one taller, and when it grew
   * it is the new leaf alone or `e` lies below the side that became the taller one.
   */
  ghost predicate Grown(e: Entry, t: Tree, r: Tree)
  {
    Avl(r) && H(t) <= H(r) <= H(t) + 1 &&
    (H(r) == H(t) + 1 ==>
      r == Leaf(e) ||
      (r.Node? && Key(e) < Key(r.data) && H(r.left) == H(r) - 1 && H(r.right) == H(r) - 2) ||
      (r.Node? && Key(e) > Key(r.data) && H(r.right) == H(r) - 1 && H(r.left) == H(r) - 2))
  }

  /**
   * With the corrected right-left rotation, inserting a new node into a tree
   * with the AVL invariant never throws and keeps the invariant, growing the
   * height by at most one.
   */
  lemma {:induction false} InsertCorrectedAvl(e: Entry, t: Tree)
    requires Avl(t)
    ensures Insert(Leaf(e), t, Corrected).Returns?
    ensures Grown(e, t, Insert(Leaf(e), t, Corrected).value)
    decreases t
  {
    var x := Leaf(e);
    match t
    case Nil =>
    case Node(l, d, h, r) =>
      if CompareTo(d, e) > 0 {
        InsertCorrectedAvl(e, l);
        BalanceLeftGrown(e, t, Insert(x, l, Corrected).value);
      } else if CompareTo(d, e) < 0 {
        InsertCorrectedAvl(e, r);
        BalanceRightGrown(e, t, Insert(x, r, Corrected).value);
      } else {
        ReheightExact(t);
      }
  }

  /** Rebalancing after a corrected insertion into the left child. */
  lemma BalanceLeftGrown(e: Entry, t: Tree, l1: Tree)
    requires Avl(t) && t.Node? && Key(e) < Key(t.data)
    requires l1.Node? && Grown(e, t.left, l1)
    ensures BalanceLeft(e, Node(l1, t.data, t.height, t.right)).Returns?
    ensures Grown(e, t, BalanceLeft(e, Node(l1, t.data, t.height, t.right)).value)
  {
    var d, h, r := t.data, t.height, t.right;
    AvlHeight(t.left);
    AvlHeight(r);
    if H(l1) - H(r) == 2 {
      assert l1 != Leaf(e);
      if CompareTo(e, l1.data) < 0 {
        InsertLeftLeft(l1, d, h, r);
      } else {
        InsertLeftRight(l1, d, h, r);
      }
    }
  }

  /** Rebalancing after a corrected insertion into the right child. */
  lemma BalanceRightGrown(e: Entry, t: Tree, r1: Tree)
    requires Avl(t) && t.Node? && Key(e) > Key(t.data)
    requires r1.Node? && Grown(e, t.right, r1)
    ensures BalanceRight(e, Node(t.left, t.data, t.height, r1), Corrected).Returns?
    ensures Grown(e, t, BalanceRight(e, Node(t.left, t.data, t.height, r1), Corrected).value)
  {
    var l, d, h := t.left, t.data, t.height;
    AvlHeight(l);
    AvlHeight(t.right);
    if H(r1) - H(l) == 2 {
      assert r1 != Leaf(e);
      if CompareTo(e, r1.data) < 0 {
        InsertRightLeft(l, d, h, r1);
      } else {
        InsertRightRight(l, d, h, r1);
      }
    }
  }

  /** The LL case of a corrected insertion restores the AVL invariant without growing. */
  lemma InsertLeftLeft(l1: Tree, d: Entry, h: int, r: Tree)
    requires Avl(l1) && Avl(r) && l1.Node?
    requires H(l1) - H(r) == 2
    requires H(l1.left) == H(l1) - 1 && H(l1.right) == H(l1) - 2
    ensures var res := Reheight(RotateLL(Node(l1, d, h, r)));
      Avl(res) && H(res) == H(l1)
  {
    var node := Node(l1.right, d, Max(H(l1.right), H(r)) + 1, r);
    assert Avl(node);
    var top := Node(l1.left, l1.data, Max(H(l1.left), H(node)) + 1, node);
    assert RotateLL(Node(l1, d, h, r)) == top;
    assert Avl(top);
  }

  /** The LR case of a corrected insertion restores the AVL invariant without growing. */
  lemma InsertLeftRight(l1: Tree, d: Entry, h: int, r: Tree)
    requires Avl(l1) && Avl(r) && l1.Node?
    requires H(l1) - H(r) == 2
    requires H(l1.right) == H(l1) - 1 && H(l1.left) == H(l1) - 2
    ensures l1.right.Node?
    ensures var res := Reheight(RotateLR(Node(l1, d, h, r)));
      Avl(res) && H(res) == H(l1)
  {
    AvlHeight(r);
    var k2 := l1.right;
    AvlHeight(k2.left);
    AvlHeight(k2.right);
    var k1' := Node(l1.left, l1.data, Max(H(l1.left), H(k2.left)) + 1, k2.left);
    assert Avl(k1');
    var node := Node(k2.right, d, Max(H(k2.right), H(r)) + 1, r);
    assert Avl(node);
    var top := Node(k1', k2.data, Max(H(k1'), H(node)) + 1, node);
    assert RotateLR(Node(l1, d, h, r)) == top;
    assert Avl(top);
  }

  /** The RR case of a corrected insertion restores the AVL invariant without growing. */
  lemma InsertRightRight(l: Tree, d: Entry, h: int, r1: Tree)
    requires Avl(l) && Avl(r1) && r1.Node?
    requires H(r1) - H(l) == 2
    requires H(r1.right) == H(r1) - 1 && H(r1.left) == H(r1) - 2
    ensures var res := Reheight(RotateRR(Node(l, d, h, r1)));
      Avl(res) && H(res) == H(r1)
  {
    var node := Node(l, d, Max(H(l), H(r1.left)) + 1, r1.left);
    assert Avl(node);
    var top := Node(node, r1.data, Max(H(node), H(r1.right)) + 1, r1.right);
    assert RotateRR(Node(l, d, h, r1)) == top;
    assert Avl(top);
  }

  /** The RL case of a corrected insertion restores the AVL invariant without growing. */
  lemma InsertRightLeft(l: Tree, d: Entry, h: int, r1: Tree)
    requires Avl(l) && Avl(r1) && r1.Node?
    requires H(r1) - H(l) == 2
    requires H(r1.left) == H(r1) - 1 && H(r1.right) == H(r1) - 2
    ensures r1.left.Node?
    ensures var res := Reheight(RotateRL(Node(l, d, h, r1), Corrected));
      Avl(res) && H(res) == H(r1)
  {
    AvlHeight(l);
    var k2 := r1.left;
    AvlHeight(k2.left);
    AvlHeight(k2.right);
    var k1' := Node(k2.right, r1.data, Max(H(k2.right), H(r1.right)) + 1, r1.right);
    assert Avl(k1');
    var node := Node(l, d, Max(H(l), H(k2.left)) + 1, k2.left);
    assert Avl(node);
    var top := Node(node, k2.data, Max(H(node), H(k1')) + 1, k1');
    assert RotateRL(Node(l, d, h, r1), Corrected) == top;
    assert Avl(top);
  }

  /**
   * Building with either rotation keeps the tree ordered by begin address:
   * the rotation as written spoils only the cached heights.
   */
  lemma {:induction false} InsertAllOrdered(t: Tree, es: seq<Entry>, rl: RLRotation)
    requires Ordered(t)
    requires InsertAll(t, es, rl).Returns?
    ensures Ordered(InsertAll(t, es, rl).value)
    decreases |es|
  {
    if es != [] {
      InsertInOrder(Leaf(es[0]), t, rl);
      InsertAllOrdered(Insert(Leaf(es[0]), t, rl).value, es[1..], rl);
    }
  }

  /**
   * Building with the corrected rotation: any sequence of entries inserted
   * into an ordered AVL tree leaves an ordered AVL tree, and never throws.
   */
  lemma {:induction false} InsertAllCorrected(t: Tree, es: seq<Entry>)
    requires Avl(t) && Ordered(t)
    ensures InsertAll(t, es, Corrected).Returns?
    ensures Avl(InsertAll(t, es, Corrected).value) && Ordered(InsertAll(t, es, Corrected).value)
    decreases |es|
  {
    if es != [] {
      InsertCorrectedAvl(es[0], t);
      InsertInOrder(Leaf(es[0]), t, Corrected);
      InsertAllCorrected(Insert(Leaf(es[0]), t, Corrected).value, es[1..]);
    }
  }

  // ---------------------------------------------------------------------------
  // Search
  // ---------------------------------------------------------------------------

  /**
   * The entry `search` answers for `key`, starting from the candidate `min`:
   * on a smaller begin it remembers the node and goes right, on a larger
   * begin it goes left, on an equal begin it stops there.
   */
  function Floor(t: Tree, key: Addr, min: Entry): (f: Entry)
    ensures f == min || f in InOrder(t)
  {
    match t
    case Nil => min
    case Node(l, d, _, r) =>
      if Compare(d.begin, key) < 0 then Floor(r, key, d)
      else if Compare(d.begin, key) > 0 then Floor(l, key, min)
      else d
  }

  /**
   * In an ordered tree `Floor` is the entry with the greatest begin address
   * not above the key (so the one with an equal begin when there is one); when
   * every begin lies above the key it is the starting candidate.
   */
  lemma {:induction false} FloorIsGreatestNotAbove(t: Tree, key: Addr, min: Entry)
    requires Ordered(t)
    ensures (forall e :: e in InOrder(t) ==> Key(e) > Value(key)) ==> Floor(t, key, min) == min
    ensures (exists e :: e in InOrder(t) && Key(e) <= Value(key)) ==>
      var f := Floor(t, key, min);
      f in InOrder(t) && Key(f) <= Value(key) &&
      forall e :: e in InOrder(t) && Key(e) <= Value(key) ==> Key(e) <= Key(f)
  {
    match t
    case Nil =>
    case Node(l, d, h, r) =>
      OrderedNode(l, d, h, r);
      if Compare(d.begin, key) < 0 {
        FloorIsGreatestNotAbove(r, key, d);
      } else if Compare(d.begin, key) > 0 {
        FloorIsGreatestNotAbove(l, key, min);
      }
  }
}
