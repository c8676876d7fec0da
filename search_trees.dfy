/**
 * The heap side of SearchTree.java: `BinaryNode` objects linked by `left` and
 * `right`, the rotations that relink them, the recursive `insert`, and the
 * iterative `search`. Every node carries a ghost footprint `Repr` and a ghost
 * `Model`, the `AvlModel.Tree` value of its subtree; each method is proved to
 * transform the models exactly as the matching function of `AvlModel` does.
 */
module SearchTrees {
  import opened Outcomes
  import opened Addresses
  import opened Entries
  import opened AvlModel

  /** `BinaryNode`: one range of the tree, its two children and its cached height. */
  class BinaryNode {
    const data: Entry
    var left: BinaryNode?
    var right: BinaryNode?
    var height: int
    ghost var Repr: set<object>
    ghost var Model: Tree

    /** The nodes below are disjoint subtrees, and `Model` is this subtree read as a value. */
    ghost predicate Valid()
      reads this, Repr
      decreases Repr
    {
      this in Repr &&
      (left != null ==>
        left in Repr && left.Repr <= Repr && this !in left.Repr && left.Valid()) &&
      (right != null ==>
        right in Repr && right.Repr <= Repr && this !in right.Repr && right.Valid()) &&
      (left != null && right != null ==> left.Repr !! right.Repr) &&
      Model == Node(ModelOf(left), data, height, ModelOf(right))
    }

    /** `new BinaryNode(ip)`: a node with no children and height 0. */
    constructor (e: Entry)
      ensures Valid() && fresh(Repr)
      ensures data == e && left == null && right == null && height == 0
      ensures Model == Leaf(e)
    {
      data := e;
      left := null;
      right := null;
      height := 0;
      Repr := {this};
      Model := Leaf(e);
    }

    /** `new BinaryNode(r, left, right, height)`: a node over two existing subtrees. */
    constructor Linked(e: Entry, l: BinaryNode?, r: BinaryNode?, h: int)
      requires l != null ==> l.Valid()
      requires r != null ==> r.Valid()
      requires ReprOf(l) !! ReprOf(r)
      ensures Valid() && fresh(Repr - ReprOf(l) - ReprOf(r))
      ensures data == e && left == l && right == r && height == h
      ensures Model == Node(ModelOf(l), e, h, ModelOf(r))
    {
      data := e;
      left := l;
      right := r;
      height := h;
      Repr := {this} + ReprOf(l) + ReprOf(r);
      Model := Node(ModelOf(l), e, h, ModelOf(r));
    }
  }

  /** The value of a possibly empty subtree. */
  ghost function ModelOf(n: BinaryNode?): Tree
    reads n
  {
    if n == null then Nil else n.Model
  }

  /** The objects of a possibly empty subtree. */
  ghost function ReprOf(n: BinaryNode?): set<object>
    reads n
  {
    if n == null then {} else n.Repr
  }

  /**
   * Sets the ghost fields of `n` from its children, once its links and height
   * are in place.
   */
  ghost method Relink(n: BinaryNode)
    requires n.left != null ==> n.left.Valid() && n !in n.left.Repr
    requires n.right != null ==> n.right.Valid() && n !in n.right.Repr
    requires ReprOf(n.left) !! ReprOf(n.right)
    modifies n`Repr, n`Model
    ensures n.Valid()
    ensures n.Repr == {n} + ReprOf(n.left) + ReprOf(n.right)
    ensures n.Model == Node(ModelOf(n.left), n.data, n.height, ModelOf(n.right))
  {
    n.Repr := {n} + ReprOf(n.left) + ReprOf(n.right);
    n.Model := Node(ModelOf(n.left), n.data, n.height, ModelOf(n.right));
  }

  /** `SearchTree`: the root of the tree and the number of insertions made. */
  class SearchTree {
    var root: BinaryNode?
    var nodeNum: int
    ghost var Repr: set<object>

    /** The nodes below `root` form a tree of valid nodes, whatever their heights and order. */
    ghost predicate Shaped()
      reads this, Repr
    {
      this in Repr &&
      (root != null ==>
        root in Repr && root.Repr <= Repr && this !in root.Repr && root.Valid())
    }

    /**
     * The class invariant: the nodes form a tree whose value is ordered by
     * begin address and satisfies the AVL invariant.
     */
    ghost predicate Valid()
      reads this, Repr
    {
      Shaped() && Avl(Model()) && Ordered(Model())
    }

    /** The value of the whole tree. */
    ghost function Model(): Tree
      reads this, root
    {
      ModelOf(root)
    }

    /** `new SearchTree()`: an empty tree. */
    constructor ()
      ensures Valid() && fresh(Repr)
      ensures root == null && nodeNum == 0 && Model() == Nil
    {
      root := null;
      nodeNum := 0;
      Repr := {this};
    }

    /** `height(node)`: the cached height of a subtree, -1 for an empty one. */
    function Height(n: BinaryNode?): (h: int)
      reads n
      ensures n == null ==> h == -1
      ensures n != null ==> h == n.height
    {
      if n == null then -1 else n.height
    }

    /** On a well-formed subtree, `height` is the height of the subtree's value. */
    lemma HeightOfModel(n: BinaryNode?)
      requires n != null ==> n.Valid()
      ensures Height(n) == H(ModelOf(n))
    {
    }

    // -------------------------------------------------------------------------
    // Rotations
    // -------------------------------------------------------------------------

    /**
     * A height assignment to `n` once its links are in place; the ghost
     * fields follow.
     */
    method SetHeight(n: BinaryNode, h: int)
      requires n.left != null ==> n.left.Valid() && n !in n.left.Repr
      requires n.right != null ==> n.right.Valid() && n !in n.right.Repr
      requires ReprOf(n.left) !! ReprOf(n.right)
      modifies n`height, n`Repr, n`Model
      ensures n.Valid()
      ensures n.Repr == {n} + ReprOf(n.left) + ReprOf(n.right)
      ensures n.Model == Node(ModelOf(n.left), n.data, h, ModelOf(n.right))
    {
      n.height := h;
      Relink(n);
    }

    /**
     * The statement `p.height = Math.max(height(p.left), height(p.right)) + 1`
     * that ends `insert` and the rotations: the height becomes exact again.
     */
    method UpdateHeight(n: BinaryNode)
      requires n.left != null ==> n.left.Valid() && n !in n.left.Repr
      requires n.right != null ==> n.right.Valid() && n !in n.right.Repr
      requires ReprOf(n.left) !! ReprOf(n.right)
      modifies n`height, n`Repr, n`Model
      ensures n.Valid()
      ensures n.Repr == {n} + ReprOf(n.left) + ReprOf(n.right)
      ensures n.Model == Reheight(Node(ModelOf(n.left), n.data, old(n.height), ModelOf(n.right)))
    {
      n.height := Max(Height(n.left), Height(n.right)) + 1;
      Relink(n);
    }

    /** The store `n.left = l` of a node whose subtrees are valid; the ghost fields follow. */
    method SetLeft(n: BinaryNode, l: BinaryNode?)
      requires l != null ==> l.Valid() && n !in l.Repr
      requires n.right != null ==> n.right.Valid() && n !in n.right.Repr
      requires ReprOf(l) !! ReprOf(n.right)
      modifies n`left, n`Repr, n`Model
      ensures n.left == l && n.Valid()
      ensures n.Repr == {n} + ReprOf(l) + ReprOf(n.right)
      ensures n.Model == Node(ModelOf(l), n.data, n.height, ModelOf(n.right))
    {
      n.left := l;
      Relink(n);
    }

    /** The store `n.right = r` of a node whose subtrees are valid; the ghost fields follow. */
    method SetRight(n: BinaryNode, r: BinaryNode?)
      requires n.left != null ==> n.left.Valid() && n !in n.left.Repr
      requires r != null ==> r.Valid() && n !in r.Repr
      requires ReprOf(n.left) !! ReprOf(r)
      modifies n`right, n`Repr, n`Model
      ensures n.right == r && n.Valid()
      ensures n.Repr == {n} + ReprOf(n.left) + ReprOf(r)
      ensures n.Model == Node(ModelOf(n.left), n.data, n.height, ModelOf(r))
    {
      n.right := r;
      Relink(n);
    }

    /**
     * The store `n.left = l` followed by `n.height = Math.max(height(n.left),
     * height(n.right)) + 1`; the ghost fields follow.
     */
    method HangLeft(n: BinaryNode, l: BinaryNode?)
      requires l != null ==> l.Valid() && n !in l.Repr
      requires n.right != null ==> n.right.Valid() && n !in n.right.Repr
      requires ReprOf(l) !! ReprOf(n.right)
      modifies n`left, n`height, n`Repr, n`Model
      ensures n.left == l && n.Valid()
      ensures n.Repr == {n} + ReprOf(l) + ReprOf(n.right)
      ensures n.Model == Node(ModelOf(l), n.data, Max(H(ModelOf(l)), H(ModelOf(n.right))) + 1, ModelOf(n.right))
    {
      n.left := l;
      n.height := Max(Height(l), Height(n.right)) + 1;
      Relink(n);
    }

    /** The store `n.right = r` followed by the height update; the mirror image of `HangLeft`. */
    method HangRight(n: BinaryNode, r: BinaryNode?)
      requires n.left != null ==> n.left.Valid() && n !in n.left.Repr
      requires r != null ==> r.Valid() && n !in r.Repr
      requires ReprOf(n.left) !! ReprOf(r)
      modifies n`right, n`height, n`Repr, n`Model
      ensures n.right == r && n.Valid()
      ensures n.Repr == {n} + ReprOf(n.left) + ReprOf(r)
      ensures n.Model == Node(ModelOf(n.left), n.data, Max(H(ModelOf(n.left)), H(ModelOf(r))) + 1, ModelOf(r))
    {
      n.right := r;
      n.height := Max(Height(n.left), Height(r)) + 1;
      Relink(n);
    }

    /** `rotateWithLeftChild` (LL): the left child becomes the root of the subtree. */
    method RotateWithLeftChild(node: BinaryNode) returns (k1: BinaryNode)
      requires node.Valid() && node.left != null
      modifies node, node.left
      ensures k1 == old(node.left)
      ensures k1.Valid() && k1.Repr <= old(node.Repr)
      ensures old(node.Model).left.Node? && k1.Model == RotateLL(old(node.Model))
    {
      k1 := node.left;
      ghost var a, b, c := k1.left, k1.right, node.right;
      assert k1.Valid();
      assert b != null ==> b.Valid() && node !in b.Repr && k1 !in b.Repr;
      assert c != null ==> c.Valid() && k1 !in c.Repr;
      HangLeft(node, k1.right);
      HangRight(k1, node);
    }

    /** `rotateWithRightChild` (RR): the right child becomes the root of the subtree. */
    method RotateWithRightChild(node: BinaryNode) returns (k1: BinaryNode)
      requires node.Valid() && node.right != null
      modifies node, node.right
      ensures k1 == old(node.right)
      ensures k1.Valid() && k1.Repr <= old(node.Repr)
      ensures old(node.Model).right.Node? && k1.Model == RotateRR(old(node.Model))
    {
      k1 := node.right;
      ghost var a, b, c := node.left, k1.left, k1.right;
      assert k1.Valid();
      assert b != null ==> b.Valid() && node !in b.Repr && k1 !in b.Repr;
      assert a != null ==> a.Valid() && k1 !in a.Repr;
      HangRight(node, k1.left);
      HangLeft(k1, node);
    }

    /**
     * `rotateWithLRChild` (LR). Its first five statements relink and re-height
     * `k1 = node.left` and `k2 = k1.right` exactly as `rotateWithRightChild(k1)`
     * does, and `node.left = k2` hangs the result back; then an LL rotation
     * lifts `k2` to the root.
     */
    method RotateWithLRChild(node: BinaryNode) returns (k: BinaryNode)
      requires node.Valid() && node.left != null && node.left.right != null
      modifies node, node.left, node.left.right
      ensures k == old(node.left.right)
      ensures k.Valid() && k.Repr <= old(node.Repr)
      ensures old(node.Model).left.Node? && old(node.Model).left.right.Node?
      ensures k.Model == RotateLR(old(node.Model))
    {
      ghost var c := node.right;
      assert node.left.Valid();
      assert c != null ==> c.Valid() && node.left !in c.Repr;
      var k2 := RotateWithRightChild(node.left);
      SetLeft(node, k2);
      k := RotateWithLeftChild(node);
    }

    /**
     * The statements of `rotateWithRLChild` that touch `k1 = node.right` and
     * its left child `k2`, as written: `k2` is lifted above `k1`, and both
     * take the larger height of their new children without adding one, `k1`
     * reading its own stale height through `k2.right`.
     */
    method RaiseInnerAsWritten(k1: BinaryNode) returns (k2: BinaryNode)
      requires k1.Valid() && k1.left != null
      modifies k1, k1.left
      ensures k2 == old(k1.left)
      ensures k2.Valid() && k2.Repr <= old(k1.Repr)
      ensures old(k1.Model).left.Node?
      ensures var t := old(k1.Model);
        var k1Height := Max(H(t.left.right), t.height);
        k2.Model == Node(t.left.left, t.left.data, Max(H(t.left.left), k1Height),
                         Node(t.left.right, t.data, k1Height, t.right))
    {
      k2 := k1.left;
      ghost var a, b, c := k2.left, k2.right, k1.right;
      assert k2.Valid();
      assert b != null ==> b.Valid() && k1 !in b.Repr && k2 !in b.Repr;
      assert c != null ==> c.Valid() && k2 !in c.Repr;
      k1.left := k2.right;
      k2.right := k1;
      SetHeight(k1, Max(Height(k1.left), Height(k2.right)));
      SetHeight(k2, Max(Height(k2.left), Height(k2.right)));
    }

    /**
     * `rotateWithRLChild` (RL) as written: the inner step of
     * `RaiseInnerAsWritten`, `node.right = k2`, then an RR rotation.
     */
    method RotateWithRLChild(node: BinaryNode) returns (k: BinaryNode)
      requires node.Valid() && node.right != null && node.right.left != null
      modifies node, node.right, node.right.left
      ensures k == old(node.right.left)
      ensures k.Valid() && k.Repr <= old(node.Repr)
      ensures old(node.Model).right.Node? && old(node.Model).right.left.Node?
      ensures k.Model == RotateRLAsWritten(old(node.Model))
    {
      ghost var a := node.left;
      assert node.right.Valid();
      assert a != null ==> a.Valid() && node.right !in a.Repr;
      var k2 := RaiseInnerAsWritten(node.right);
      SetRight(node, k2);
      k := RotateWithRightChild(node);
    }

    /**
     * The right-left rotation with the bookkeeping of `rotateWithLRChild`: an
     * LL rotation of `node.right`, then an RR rotation of `node`.
     */
    method RotateWithRLChildCorrected(node: BinaryNode) returns (k: BinaryNode)
      requires node.Valid() && node.right != null && node.right.left != null
      modifies node, node.right, node.right.left
      ensures k == old(node.right.left)
      ensures k.Valid() && k.Repr <= old(node.Repr)
      ensures old(node.Model).right.Node? && old(node.Model).right.left.Node?
      ensures k.Model == RotateRLCorrected(old(node.Model))
    {
      ghost var a := node.left;
      assert node.right.Valid();
      assert a != null ==> a.Valid() && node.right !in a.Repr;
      var k2 := RotateWithLeftChild(node.right);
      SetRight(node, k2);
      k := RotateWithRightChild(node);
    }

    // -------------------------------------------------------------------------
    // Insertion
    // -------------------------------------------------------------------------

    /**
     * The rebalancing in `insert` after the new node went into `p.left`
     * (SearchTree.java:190-197) together with the final height update.
     */
    method BalanceLeftAt(x: Entry, p: BinaryNode) returns (r: BinaryNode)
      requires p.Valid() && p.left != null
      requires p.Model.left.Node? && BalanceLeft(x, p.Model).Returns?
      modifies p.Repr
      ensures r.Valid() && r.Repr <= old(p.Repr)
      ensures r.Model == BalanceLeft(x, old(p.Model)).value
    {
      r := p;
      if Height(p.left) - Height(p.right) == 2 {
        if CompareTo(x, p.left.data) < 0 {
          r := RotateWithLeftChild(p);
        } else {
          r := RotateWithLRChild(p);
        }
      }
      UpdateHeight(r);
    }

    /**
     * The rebalancing in `insert` after the new node went into `p.right`
     * (SearchTree.java:198-206), with the corrected right-left rotation.
     */
    method BalanceRightAt(x: Entry, p: BinaryNode) returns (r: BinaryNode)
      requires p.Valid() && p.right != null
      requires p.Model.right.Node? && BalanceRight(x, p.Model, Corrected).Returns?
      modifies p.Repr
      ensures r.Valid() && r.Repr <= old(p.Repr)
      ensures r.Model == BalanceRight(x, old(p.Model), Corrected).value
    {
      r := p;
      if Height(p.right) - Height(p.left) == 2 {
        if CompareTo(x, p.right.data) < 0 {
          r := RotateWithRLChildCorrected(p);
        } else {
          r := RotateWithRightChild(p);
        }
      }
      UpdateHeight(r);
    }

    /**
     * `insert(newnode, p)` (SearchTree.java:183-215): hangs `x` below `p` by
     * begin address, rebalancing on the way back up, and returns the new root
     * of the subtree. The nodes change exactly as `AvlModel.Insert` says; an
     * equal begin address only recomputes the height of `p`.
     */
    method InsertAt(x: BinaryNode, p: BinaryNode?) returns (r: BinaryNode)
      requires x.Valid() && (p != null ==> p.Valid()) && x.Repr !! ReprOf(p)
      requires Insert(x.Model, ModelOf(p), Corrected).Returns?
      modifies x.Repr, ReprOf(p)
      ensures r.Valid() && r.Repr <= old(x.Repr) + old(ReprOf(p))
      ensures r.Model == Insert(old(x.Model), old(ModelOf(p)), Corrected).value
      decreases ReprOf(p), 1
    {
      if p == null {
        return x;
      }
      if CompareTo(p.data, x.data) > 0 {
        r := InsertLeftAt(x, p);
      } else if CompareTo(p.data, x.data) < 0 {
        r := InsertRightAt(x, p);
      } else {
        UpdateHeight(p);
        r := p;
      }
    }

    /**
     * The branch of `insert` for a begin address below that of `p`
     * (SearchTree.java:187-197): `p.left = insert(newnode, p.left)`, then the
     * rebalancing.
     */
    method InsertLeftAt(x: BinaryNode, p: BinaryNode) returns (r: BinaryNode)
      requires x.Valid() && p.Valid() && x.Repr !! p.Repr
      requires CompareTo(p.data, x.data) > 0
      requires Insert(x.Model, p.Model, Corrected).Returns?
      modifies x.Repr, p.Repr
      ensures r.Valid() && r.Repr <= old(x.Repr) + old(p.Repr)
      ensures r.Model == Insert(old(x.Model), old(p.Model), Corrected).value
      decreases p.Repr, 0
    {
      ghost var c := p.right;
      assert c != null ==> c.Valid() && p !in c.Repr;
      var l := InsertAt(x, p.left);
      SetLeft(p, l);
      r := BalanceLeftAt(x.data, p);
    }

    /**
     * The branch of `insert` for a begin address above that of `p`
     * (SearchTree.java:198-206): `p.right = insert(newnode, p.right)`, then the
     * rebalancing.
     */
    method InsertRightAt(x: BinaryNode, p: BinaryNode) returns (r: BinaryNode)
      requires x.Valid() && p.Valid() && x.Repr !! p.Repr
      requires CompareTo(p.data, x.data) < 0
      requires Insert(x.Model, p.Model, Corrected).Returns?
      modifies x.Repr, p.Repr
      ensures r.Valid() && r.Repr <= old(x.Repr) + old(p.Repr)
      ensures r.Model == Insert(old(x.Model), old(p.Model), Corrected).value
      decreases p.Repr, 0
    {
      ghost var a := p.left;
      assert a != null ==> a.Valid() && p !in a.Repr;
      var rr := InsertAt(x, p.right);
      SetRight(p, rr);
      r := BalanceRightAt(x.data, p);
    }

    // -------------------------------------------------------------------------
    // The public operations
    // -------------------------------------------------------------------------

    /**
     * `createTree(node)`: the subtree of `node` becomes the whole tree and the
     * insertion count goes up by one.
     */
    method CreateTree(node: BinaryNode)
      requires Valid() && node.Valid() && node.Repr !! Repr
      requires Avl(node.Model) && Ordered(node.Model)
      modifies this
      ensures Valid() && root == node && nodeNum == old(nodeNum) + 1
      ensures Model() == node.Model && Repr == old(Repr) + node.Repr
    {
      root := node;
      nodeNum := nodeNum + 1;
      Repr := Repr + node.Repr;
    }

    /**
     * `insert(BinaryNode node)` (SearchTree.java:165-174) with a node as
     * `new BinaryNode(ip)` makes it: the entry joins the ordered sequence of
     * entries unless one with the same begin address is there already, the
     * tree stays an ordered AVL tree, and the count goes up by one either way.
     */
    method InsertNode(node: BinaryNode)
      requires Valid() && node.Valid() && node.Repr !! Repr
      requires node.left == null && node.right == null && node.height == 0
      modifies this, Repr, node.Repr
      ensures Valid() && nodeNum == old(nodeNum) + 1
      ensures Repr == old(Repr) + old(node.Repr)
      ensures InOrder(Model()) == InsertByKey(old(InOrder(Model())), node.data)
      ensures Insert(Leaf(node.data), old(Model()), Corrected).Returns?
      ensures Model() == Insert(Leaf(node.data), old(Model()), Corrected).value
    {
      InsertCorrectedAvl(node.data, Model());
      InsertInOrder(Leaf(node.data), Model(), Corrected);
      if root == null {
        CreateTree(node);
      } else {
        InsertBelowRoot(node);
      }
    }

    /** The non-empty case of `InsertNode`: the node goes in below the root. */
    method InsertBelowRoot(node: BinaryNode)
      requires Valid() && root != null && node.Valid() && node.Repr !! Repr
      requires Insert(node.Model, Model(), Corrected).Returns?
      requires Avl(Insert(node.Model, Model(), Corrected).value) && Ordered(Insert(node.Model, Model(), Corrected).value)
      modifies this, Repr, node.Repr
      ensures Valid() && nodeNum == old(nodeNum) + 1
      ensures Repr == old(Repr) + old(node.Repr)
      ensures Model() == Insert(old(node.Model), old(Model()), Corrected).value
    {
      ghost var nr := node.Repr;
      root := InsertAt(node, root);
      nodeNum := nodeNum + 1;
      Repr := Repr + nr;
    }

    /** `insert(IPEntry ip)`: a fresh node for `e`, inserted as `InsertNode` does. */
    method InsertEntry(e: Entry)
      requires Valid()
      modifies this, Repr
      ensures Valid() && nodeNum == old(nodeNum) + 1 && fresh(Repr - old(Repr))
      ensures InOrder(Model()) == InsertByKey(old(InOrder(Model())), e)
    {
      var newnode := new BinaryNode(e);
      InsertNode(newnode);
    }

    /**
     * What `search` answers for the address `k`: on an empty tree it throws,
     * otherwise it returns the node whose entry is `Floor` of the tree, starting
     * from the root as the candidate.
     */
    ghost predicate Answers(k: Addr, r: Throws<BinaryNode?>)
      reads this, root
      ensures Answers(k, r) ==> (r.NullPointerException? <==> root == null)
      ensures Answers(k, r) && root != null ==>
        r.Returns? && r.value != null && (r.value.data == root.data || r.value.data in InOrder(Model()))
    {
      if root == null then r == NullPointerException
      else r.Returns? && r.value != null && r.value.data == Floor(Model(), k, root.data)
    }

    /**
     * `search(BinaryNode key)` (SearchTree.java:272-297), with the key given
     * by its begin address (`None` for a null key). The loop walks down from
     * the root remembering in `min` the last node whose begin is below the
     * key. In an ordered tree the answer is the entry with the greatest begin
     * address not above the key, and the root when every begin is above it.
     */
    method Search(key: Option<Addr>) returns (r: Throws<BinaryNode?>)
      requires Shaped() && Ordered(Model())
      ensures key.None? ==> r == Returns(null)
      ensures key.Some? ==> Answers(key.value, r)
      ensures key.Some? && r.Returns? && r.value != null ==>
        r.value.data in InOrder(Model()) &&
        ((exists e :: e in InOrder(Model()) && Key(e) <= Value(key.value)) ==>
          Key(r.value.data) <= Value(key.value) &&
          forall e :: e in InOrder(Model()) && Key(e) <= Value(key.value) ==> Key(e) <= Key(r.value.data)) &&
        ((forall e :: e in InOrder(Model()) ==> Key(e) > Value(key.value)) ==> r.value == root)
    {
      var pp, parent, min := root, root, root;
      if key.None? {
        return Returns(null);
      }
      var k := key.value;
      while pp != null
        invariant pp != null ==> pp.Valid()
        invariant root == null ==> parent == null
        invariant root != null ==> min != null && parent != null
        invariant root != null ==> Floor(ModelOf(pp), k, min.data) == Floor(Model(), k, root.data)
        invariant root != null ==> parent == min || Compare(parent.data.begin, k) > 0
        invariant root != null && min != root ==> Key(min.data) < Value(k)
        decreases ReprOf(pp)
      {
        if Compare(pp.data.begin, k) < 0 {
          min := pp;
          parent := pp;
          pp := pp.right;
        } else if Compare(pp.data.begin, k) > 0 {
          parent := pp;
          pp := pp.left;
        } else {
          FloorIsGreatestNotAbove(Model(), k, root.data);
          return Returns(pp);
        }
      }
      if parent == null {
        return NullPointerException;
      }
      FloorIsGreatestNotAbove(Model(), k, root.data);
      if Compare(parent.data.begin, k) > 0 {
        return Returns(min);
      }
      return Returns(parent);
    }

    /** `search(String ip)`: the search for a key holding the address `ip`. */
    method SearchIp(ip: Addr) returns (r: Throws<BinaryNode?>)
      requires Shaped() && Ordered(Model())
      ensures Answers(ip, r)
    {
      r := Search(Some(ip));
    }
  }
}
