/**
 * avl.c on node objects. Each `AvlNode` has the fields of `struct avl_node` and
 * two ghost fields: `Repr`, the objects of the subtree it roots, and `Model`,
 * that subtree as an `AvlTree.Tree` value. The methods update nodes in place
 * as the C functions do and are proved to leave behind exactly the value the
 * corresponding function of AvlTree computes; the properties of those values
 * are proved in AvlTree.
 *
 * Every method names the footprints and values of the subtrees it is handed as
 * ghost parameters (`L`, `R` and `l`, `r` for the left and right child), tied
 * to the nodes by `Sub`. `Valid()` already determines them, but naming them
 * lets each contract speak of the old subtrees directly instead of through
 * `old(t.left.Model)` and friends, which keeps each proof small for the
 * solver. For the same reason a C function whose body has several arms or
 * two halves (`rebalance`, the rotations, `avl_insert`, `avl_delete`) is
 * split into one method per arm or half; the split follows the C statements
 * and changes no behaviour.
 */
module AvlHeap {
  import opened AvlTree

  /** AVL_SENTINEL: what a query returns when it has no key to return. */
  const Sentinel: int := -1

  class AvlNode {
    var key: int
    var left: AvlNode?
    var right: AvlNode?
    var height: int
    var status: Status
    ghost var Repr: set<object>
    ghost var Model: Tree

    /** The subtree rooted here is a finite, unshared tree whose value is `Model`. */
    ghost predicate Valid()
      reads this, Repr
      decreases Repr
    {
      this in Repr &&
      (left != null ==> left in Repr && left.Repr <= Repr && this !in left.Repr && left.Valid()) &&
      (right != null ==> right in Repr && right.Repr <= Repr && this !in right.Repr && right.Valid()) &&
      (left != null && right != null ==> left.Repr !! right.Repr) &&
      Model == Node(ModelOf(left), key, ModelOf(right), height, status)
    }

    /** The node `avl_insert(NULL, k)` allocates: a leaf of height 0, BALANCED. */
    constructor Leaf(k: int)
      ensures Valid() && Repr == {this}
      ensures Model == Node(Nil, k, Nil, 0, Balanced)
    {
      key, left, right, height, status := k, null, null, 0, Balanced;
      Repr := {this};
      Model := Node(Nil, k, Nil, 0, Balanced);
    }
  }

  ghost function ModelOf(n: AvlNode?): Tree
    reads n
  {
    if n == null then Nil else n.Model
  }

  ghost function ReprOf(n: AvlNode?): set<object>
    reads n
  {
    if n == null then {} else n.Repr
  }

  /** An absent subtree or a valid one. */
  ghost predicate ValidOrNull(n: AvlNode?)
    reads n, ReprOf(n)
  {
    n != null ==> n.Valid()
  }

  /** `n` roots a valid subtree with footprint `S` and value `m`, or is null with `S` empty and `m` Nil. */
  ghost predicate Sub(n: AvlNode?, S: set<object>, m: Tree)
    reads n, S
  {
    if n == null then S == {} && m == Nil else n.Repr == S && n.Model == m && n.Valid()
  }

  /** The `height` macro on a child pointer. */
  function HeightOf(n: AvlNode?): (h: int)
    reads n
    ensures ValidOrNull(n) ==> h == Height(ModelOf(n))
  {
    if n == null then -1 else n.height
  }

  /**
   * The first two statements of `rebalance`: `t`'s height and status are
   * recomputed from its children, which turns `t` into a valid node over them.
   */
  method Refresh(t: AvlNode, ghost L: set<object>, ghost R: set<object>, ghost l: Tree, ghost r: Tree)
    requires Sub(t.left, L, l) && Sub(t.right, R, r) && t !in L && t !in R && L !! R
    requires -2 <= Height(r) - Height(l) <= 2
    modifies t
    ensures t.Valid() && t.Repr == {t} + L + R && t.Model == Recomputed(l, t.key, r)
    ensures t.left == old(t.left) && t.right == old(t.right) && t.key == old(t.key)
  {
    t.height := 1 + Larger(HeightOf(t.left), HeightOf(t.right));
    t.status := NewStatus(HeightOf(t.right) - HeightOf(t.left));
    assert Ordinal(t.status) < Ordinal(Invalid);
    t.Repr := {t} + L + R;
    t.Model := Node(l, t.key, r, t.height, t.status);
  }

  /**
   * `rebalance(t)`: recompute `t`'s height and status in place and, if `t` is
   * doubly heavy, rotate; returns the node that now roots the subtree.
   */
  method Rebalance(t: AvlNode, ghost L: set<object>, ghost R: set<object>, ghost l: Tree, ghost r: Tree) returns (top: AvlNode)
    requires Sub(t.left, L, l) && Sub(t.right, R, r) && t !in L && t !in R && L !! R
    requires Avl(l) && Avl(r) && -2 <= Height(r) - Height(l) <= 2
    modifies t, L, R
    ensures top.Valid() && top.Repr <= {t} + L + R
    ensures top.Model == AvlTree.Rebalance(l, old(t.key), r)
    decreases Size(l) + Size(r) + 1, RebalanceRank(l, r), 2
  {
    Refresh(t, L, R, l, r);
    top := t;
    match t.status
    case DoublyLeftHeavy =>
      top := FixLeftHeavy(t, L, R, l, r);
    case DoublyRightHeavy =>
      top := FixRightHeavy(t, L, R, l, r);
    case _ =>
  }

  /**
   * The DOUBLY_LEFT_HEAVY arm of `rebalance`: rotate the left child left when
   * its status is RIGHT_HEAVY, then rotate `t` right.
   */
  method FixLeftHeavy(t: AvlNode, ghost L: set<object>, ghost R: set<object>, ghost l: Tree, ghost r: Tree) returns (top: AvlNode)
    requires Sub(t.left, L, l) && Sub(t.right, R, r) && t !in L && t !in R && L !! R
    requires Avl(l) && Avl(r) && Height(l) == Height(r) + 2
    modifies t, L, R
    ensures top.Valid() && top.Repr <= {t} + L + R
    ensures top.Model == AvlTree.Rebalance(l, old(t.key), r)
    decreases Size(l) + Size(r) + 1, RebalanceRank(l, r), 1
  {
    ghost var k := t.key;
    LeftHeavyArm(l, k, r);
    PrepareLeft(t, L, l);
    ghost var l' := if l.status == RightHeavy then AvlTree.RotateLeft(l.left, l.key, l.right) else l;
    top := RotateRight(t, t.left.Repr, R, l', r);
  }

  /** The double-rotation half of the DOUBLY_LEFT_HEAVY arm: a RIGHT_HEAVY left child is first rotated left. */
  method PrepareLeft(t: AvlNode, ghost L: set<object>, ghost l: Tree)
    requires Sub(t.left, L, l) && t !in L && l.Node? && Avl(l)
    modifies t, L
    ensures t.left != null && t.left.Valid() && t.left.Repr <= L
    ensures t.left.Model == if l.status == RightHeavy then AvlTree.RotateLeft(l.left, l.key, l.right) else l
    ensures t.right == old(t.right) && t.key == old(t.key)
    decreases Size(l) + 1, 0, 0
  {
    assert t.left != null;
    if t.left.status == RightHeavy {
      var n := t.left;
      ghost var NL, NR := ReprOf(n.left), ReprOf(n.right);
      assert Sub(n.left, NL, l.left) && Sub(n.right, NR, l.right);
      assert NL <= L && NR <= L && n in L;
      t.left := RotateLeft(n, NL, NR, l.left, l.right);
    }
  }

  /** The DOUBLY_RIGHT_HEAVY arm of `rebalance`, mirroring `FixLeftHeavy`. */
  method FixRightHeavy(t: AvlNode, ghost L: set<object>, ghost R: set<object>, ghost l: Tree, ghost r: Tree) returns (top: AvlNode)
    requires Sub(t.left, L, l) && Sub(t.right, R, r) && t !in L && t !in R && L !! R
    requires Avl(l) && Avl(r) && Height(r) == Height(l) + 2
    modifies t, L, R
    ensures top.Valid() && top.Repr <= {t} + L + R
    ensures top.Model == AvlTree.Rebalance(l, old(t.key), r)
    decreases Size(l) + Size(r) + 1, RebalanceRank(l, r), 1
  {
    ghost var k := t.key;
    RightHeavyArm(l, k, r);
    PrepareRight(t, R, r);
    ghost var r' := if r.status == LeftHeavy then AvlTree.RotateRight(r.left, r.key, r.right) else r;
    top := RotateLeft(t, L, t.right.Repr, l, r');
  }

  /** The double-rotation half of the DOUBLY_RIGHT_HEAVY arm: a LEFT_HEAVY right child is first rotated right. */
  method PrepareRight(t: AvlNode, ghost R: set<object>, ghost r: Tree)
    requires Sub(t.right, R, r) && t !in R && r.Node? && Avl(r)
    modifies t, R
    ensures t.right != null && t.right.Valid() && t.right.Repr <= R
    ensures t.right.Model == if r.status == LeftHeavy then AvlTree.RotateRight(r.left, r.key, r.right) else r
    ensures t.left == old(t.left) && t.key == old(t.key)
    decreases Size(r) + 1, 0, 0
  {
    assert t.right != null;
    if t.right.status == LeftHeavy {
      var n := t.right;
      ghost var NL, NR := ReprOf(n.left), ReprOf(n.right);
      assert Sub(n.left, NL, r.left) && Sub(n.right, NR, r.right);
      assert NL <= R && NR <= R && n in R;
      t.right := RotateRight(n, NL, NR, r.left, r.right);
    }
  }

  /**
   * `rotateleft(t)`: `t`'s right child `n` becomes the root of the subtree,
   * `t` becomes `n`'s left child and takes `n`'s old left child; `t` and then
   * `n` go through `rebalance`.
   */
  method RotateLeft(t: AvlNode, ghost L: set<object>, ghost R: set<object>, ghost l: Tree, ghost r: Tree) returns (top: AvlNode)
    requires Sub(t.left, L, l) && Sub(t.right, R, r) && t !in L && t !in R && L !! R
    requires r.Node? && Avl(l) && Avl(r)
    requires -1 <= Height(r.left) - Height(l) <= 1
    requires -2 <= Height(r.right) - (1 + Larger(Height(l), Height(r.left))) <= 2
    modifies t, L, R
    ensures top.Valid() && top.Repr <= {t} + L + R
    ensures top.Model == AvlTree.RotateLeft(l, old(t.key), r)
    decreases Size(l) + Size(r) + 1, 2 * RebalanceRank(Recomputed(l, t.key, r.left), r.right) + 1, 2
  {
    ghost var k := t.key;
    var n, lowered;
    ghost var NR;
    n, lowered, NR := LowerLeft(t, L, R, l, r);
    RotateLeftSteps(l, k, r);
    top := RaiseRight(n, lowered, lowered.Repr, NR, Recomputed(l, k, r.left), r.right);
  }

  /**
   * The first half of `rotateleft`: `t` takes the left child of its right
   * child `n` and is rebalanced; `n` keeps its key and right subtree.
   */
  method LowerLeft(t: AvlNode, ghost L: set<object>, ghost R: set<object>, ghost l: Tree, ghost r: Tree)
    returns (n: AvlNode, lowered: AvlNode, ghost NR: set<object>)
    requires Sub(t.left, L, l) && Sub(t.right, R, r) && t !in L && t !in R && L !! R
    requires r.Node? && Avl(l) && Avl(r) && -2 <= Height(r.left) - Height(l) <= 2
    modifies t, L, R
    ensures Sub(lowered, lowered.Repr, AvlTree.Rebalance(l, old(t.key), r.left))
    ensures Sub(n.right, NR, r.right) && n.key == r.key
    ensures n !in lowered.Repr && n !in NR && lowered.Repr !! NR && {n} + lowered.Repr + NR <= {t} + L + R
    decreases Size(l) + Size(r) + 1, 0, 0
  {
    n := t.right;
    ghost var NL := ReprOf(n.left);
    NR := ReprOf(n.right);
    assert Sub(n.left, NL, r.left) && Sub(n.right, NR, r.right);
    t.right := n.left;
    lowered := Rebalance(t, L, NL, l, r.left);
  }

  /** The second half of `rotateleft`: the lowered node hangs left of `n`, which is rebalanced. */
  method RaiseRight(n: AvlNode, lowered: AvlNode, ghost X: set<object>, ghost NR: set<object>, ghost x: Tree, ghost b: Tree) returns (top: AvlNode)
    requires Sub(lowered, X, x) && Sub(n.right, NR, b) && n !in X && n !in NR && X !! NR
    requires Avl(x) && Avl(b) && -2 <= Height(b) - Height(x) <= 2
    modifies n, X, NR
    ensures top.Valid() && top.Repr <= {n} + X + NR
    ensures top.Model == AvlTree.Rebalance(x, old(n.key), b)
    decreases Size(x) + Size(b) + 1, 2 * RebalanceRank(x, b) + 1, 1
  {
    n.left := lowered;
    top := Rebalance(n, X, NR, x, b);
  }

  /** `rotateright(t)`: the mirror image of `RotateLeft`. */
  method RotateRight(t: AvlNode, ghost L: set<object>, ghost R: set<object>, ghost l: Tree, ghost r: Tree) returns (top: AvlNode)
    requires Sub(t.left, L, l) && Sub(t.right, R, r) && t !in L && t !in R && L !! R
    requires l.Node? && Avl(l) && Avl(r)
    requires -1 <= Height(r) - Height(l.right) <= 1
    requires -2 <= 1 + Larger(Height(l.right), Height(r)) - Height(l.left) <= 2
    modifies t, L, R
    ensures top.Valid() && top.Repr <= {t} + L + R
    ensures top.Model == AvlTree.RotateRight(l, old(t.key), r)
    decreases Size(l) + Size(r) + 1, 2 * RebalanceRank(l.left, Recomputed(l.right, t.key, r)) + 1, 2
  {
    ghost var k := t.key;
    var n, lowered;
    ghost var NL;
    n, lowered, NL := LowerRight(t, L, R, l, r);
    RotateRightSteps(l, k, r);
    top := RaiseLeft(n, lowered, NL, lowered.Repr, l.left, Recomputed(l.right, k, r));
  }

  /**
   * The first half of `rotateright`: `t` takes the right child of its left
   * child `n` and is rebalanced; `n` keeps its key and left subtree.
   */
  method LowerRight(t: AvlNode, ghost L: set<object>, ghost R: set<object>, ghost l: Tree, ghost r: Tree)
    returns (n: AvlNode, lowered: AvlNode, ghost NL: set<object>)
    requires Sub(t.left, L, l) && Sub(t.right, R, r) && t !in L && t !in R && L !! R
    requires l.Node? && Avl(l) && Avl(r) && -2 <= Height(r) - Height(l.right) <= 2
    modifies t, L, R
    ensures Sub(lowered, lowered.Repr, AvlTree.Rebalance(l.right, old(t.key), r))
    ensures Sub(n.left, NL, l.left) && n.key == l.key
    ensures n !in lowered.Repr && n !in NL && lowered.Repr !! NL && {n} + lowered.Repr + NL <= {t} + L + R
    decreases Size(l) + Size(r) + 1, 0, 0
  {
    n := t.left;
    ghost var NR := ReprOf(n.right);
    NL := ReprOf(n.left);
    assert Sub(n.left, NL, l.left) && Sub(n.right, NR, l.right);
    t.left := n.right;
    lowered := Rebalance(t, NR, R, l.right, r);
  }

  /** The second half of `rotateright`: the lowered node hangs right of `n`, which is rebalanced. */
  method RaiseLeft(n: AvlNode, lowered: AvlNode, ghost NL: set<object>, ghost X: set<object>, ghost a: Tree, ghost x: Tree) returns (top: AvlNode)
    requires Sub(lowered, X, x) && Sub(n.left, NL, a) && n !in X && n !in NL && X !! NL
    requires Avl(a) && Avl(x) && -2 <= Height(x) - Height(a) <= 2
    modifies n, NL, X
    ensures top.Valid() && top.Repr <= {n} + NL + X
    ensures top.Model == AvlTree.Rebalance(a, old(n.key), x)
    decreases Size(a) + Size(x) + 1, 2 * RebalanceRank(a, x) + 1, 1
  {
    n.right := lowered;
    top := Rebalance(n, NL, X, a, x);
  }

  /**
   * `avl_insert(t, k)`: descend by comparison, allocate a leaf where the
   * descent falls off, and pass every node on the way back through
   * `rebalance`; an equal key leaves the subtree as it is. The new nodes are
   * the only objects in the result that were not in the input.
   */
  method Insert(t: AvlNode?, k: int, ghost T: set<object>, ghost m: Tree) returns (r: AvlNode)
    requires Sub(t, T, m) && Avl(m)
    modifies T
    ensures r.Valid() && r.Model == AvlTree.Insert(m, k)
    ensures fresh(r.Repr - T)
    decreases m, 1
  {
    if t == null {
      r := new AvlNode.Leaf(k);
      return;
    }
    AvlIsSettled(m);
    assert Ordinal(t.status) < Ordinal(Violative);
    ghost var L, R := ReprOf(t.left), ReprOf(t.right);
    assert Sub(t.left, L, m.left) && Sub(t.right, R, m.right);
    if k < t.key {
      r := InsertLeft(t, k, L, R, m);
    } else if k > t.key {
      r := InsertRight(t, k, L, R, m);
    } else {
      r := t;
    }
  }

  /** The `k < t->key` arm of `avl_insert`: insert into the left subtree, then rebalance `t`. */
  method InsertLeft(t: AvlNode, k: int, ghost L: set<object>, ghost R: set<object>, ghost m: Tree) returns (r: AvlNode)
    requires m.Node? && Avl(m) && k < m.key
    requires Sub(t.left, L, m.left) && Sub(t.right, R, m.right) && t !in L && t !in R && L !! R
    modifies t, L, R
    ensures r.Valid() && r.Model == AvlTree.Rebalance(AvlTree.Insert(m.left, k), old(t.key), m.right)
    ensures fresh(r.Repr - ({t} + L + R))
    decreases m, 0
  {
    var n := Insert(t.left, k, L, m.left);
    t.left := n;
    r := Rebalance(t, n.Repr, R, AvlTree.Insert(m.left, k), m.right);
  }

  /** The `k > t->key` arm of `avl_insert`, mirroring `InsertLeft`. */
  method InsertRight(t: AvlNode, k: int, ghost L: set<object>, ghost R: set<object>, ghost m: Tree) returns (r: AvlNode)
    requires m.Node? && Avl(m) && k > m.key
    requires Sub(t.left, L, m.left) && Sub(t.right, R, m.right) && t !in L && t !in R && L !! R
    modifies t, L, R
    ensures r.Valid() && r.Model == AvlTree.Rebalance(m.left, old(t.key), AvlTree.Insert(m.right, k))
    ensures fresh(r.Repr - ({t} + L + R))
    decreases m, 0
  {
    var n := Insert(t.right, k, R, m.right);
    t.right := n;
    r := Rebalance(t, L, n.Repr, m.left, AvlTree.Insert(m.right, k));
  }

  /**
   * `avl_delete(t, k)`: descend by comparison; a matching node with at most
   * one child is replaced by that child, one with two children by a fresh
   * node (see `ReplaceBySuccessor`); every node on the way back goes through
   * `rebalance`. The matching node is dropped from the result.
   */
  method Delete(t: AvlNode?, k: int, ghost T: set<object>, ghost m: Tree) returns (r: AvlNode?)
    requires Sub(t, T, m) && Avl(m)
    modifies T
    ensures ValidOrNull(r) && ModelOf(r) == AvlTree.Delete(m, k)
    ensures fresh(ReprOf(r) - T)
    decreases m, 1
  {
    if t == null {
      r := t;
      return;
    }
    AvlIsSettled(m);
    assert Ordinal(t.status) < Ordinal(Violative);
    ghost var L, R := ReprOf(t.left), ReprOf(t.right);
    assert Sub(t.left, L, m.left) && Sub(t.right, R, m.right);
    if k < t.key {
      r := DeleteLeft(t, k, L, R, m);
    } else if k > t.key {
      r := DeleteRight(t, k, L, R, m);
    } else if t.left == null {
      r := t.right;
    } else if t.right == null {
      r := t.left;
    } else {
      r := ReplaceBySuccessor(t, L, R, m);
    }
  }

  /** The `k < t->key` arm of `avl_delete`: delete from the left subtree, then rebalance `t`. */
  method DeleteLeft(t: AvlNode, k: int, ghost L: set<object>, ghost R: set<object>, ghost m: Tree) returns (r: AvlNode)
    requires m.Node? && Avl(m) && k < m.key
    requires Sub(t.left, L, m.left) && Sub(t.right, R, m.right) && t !in L && t !in R && L !! R
    modifies t, L, R
    ensures r.Valid() && r.Model == AvlTree.Rebalance(AvlTree.Delete(m.left, k), old(t.key), m.right)
    ensures fresh(r.Repr - ({t} + L + R))
    decreases m, 0
  {
    var n := Delete(t.left, k, L, m.left);
    t.left := n;
    r := Rebalance(t, ReprOf(n), R, AvlTree.Delete(m.left, k), m.right);
  }

  /** The `k > t->key` arm of `avl_delete`, mirroring `DeleteLeft`. */
  method DeleteRight(t: AvlNode, k: int, ghost L: set<object>, ghost R: set<object>, ghost m: Tree) returns (r: AvlNode)
    requires m.Node? && Avl(m) && k > m.key
    requires Sub(t.left, L, m.left) && Sub(t.right, R, m.right) && t !in L && t !in R && L !! R
    modifies t, L, R
    ensures r.Valid() && r.Model == AvlTree.Rebalance(m.left, old(t.key), AvlTree.Delete(m.right, k))
    ensures fresh(r.Repr - ({t} + L + R))
    decreases m, 0
  {
    var n := Delete(t.right, k, R, m.right);
    t.right := n;
    r := Rebalance(t, L, ReprOf(n), m.left, AvlTree.Delete(m.right, k));
  }

  /**
   * The two-children arm of `avl_delete`: the least key of the right subtree
   * goes into a new node (allocated by `avl_insert` on an empty tree) that
   * takes the left subtree and the right subtree with that key deleted, and
   * is rebalanced; the old node is dropped.
   */
  method ReplaceBySuccessor(t: AvlNode, ghost L: set<object>, ghost R: set<object>, ghost m: Tree) returns (r: AvlNode)
    requires m.Node? && Avl(m) && t.key == m.key && t.left != null && t.right != null
    requires Sub(t.left, L, m.left) && Sub(t.right, R, m.right) && t !in L && t !in R && L !! R
    modifies L, R
    ensures r.Valid() && r.Model == AvlTree.Delete(m, t.key)
    ensures fresh(r.Repr - (L + R))
    decreases m, 0
  {
    var k := Min(t.right, R, m.right);
    var n := Insert(null, k, {}, Nil);
    n.left := t.left;
    r := AdoptRemainder(n, t.right, k, L, R, m.left, m.right);
    assert AvlTree.Delete(m, m.key) == AvlTree.Rebalance(m.left, k, AvlTree.Delete(m.right, k));
  }

  /**
   * The end of the two-children arm of `avl_delete`: the new node `n` takes the
   * old right subtree with its least key `k` deleted, and is rebalanced.
   */
  method AdoptRemainder(n: AvlNode, right: AvlNode, k: int, ghost L: set<object>, ghost R: set<object>, ghost l: Tree, ghost rt: Tree) returns (r: AvlNode)
    requires Sub(n.left, L, l) && Sub(right, R, rt) && n !in L && n !in R && L !! R
    requires Avl(l) && Avl(rt) && -1 <= Height(rt) - Height(l) <= 1 && rt.Node? && k == LeftmostKey(rt) && n.key == k
    modifies n, L, R
    ensures r.Valid() && r.Model == AvlTree.Rebalance(l, k, AvlTree.Delete(rt, k))
    ensures fresh(r.Repr - ({n} + L + R))
    decreases rt, 2
  {
    var d := Delete(right, k, R, rt);
    n.right := d;
    r := Rebalance(n, L, ReprOf(d), l, AvlTree.Delete(rt, k));
  }

  /**
   * `avl_search(t, k)`: follow the comparisons down from the top; 1 when a
   * node holds `k`, 0 when the descent falls off the tree. On an ordered tree
   * that is exactly membership.
   */
  method Search(t: AvlNode?, k: int, ghost T: set<object>, ghost m: Tree) returns (found: int)
    requires Sub(t, T, m)
    ensures found == 0 || found == 1
    ensures found == 1 ==> k in Keys(m)
    ensures Ordered(m) ==> (found == 1 <==> k in Keys(m))
  {
    var n := t;
    ghost var cur := m;
    while n != null
      invariant ValidOrNull(n) && ModelOf(n) == cur
      invariant Keys(cur) <= Keys(m)
      invariant Ordered(m) ==> Ordered(cur) && (k in Keys(m) <==> k in Keys(cur))
      decreases cur
    {
      if k < n.key {
        n, cur := n.left, cur.left;
      } else if k > n.key {
        n, cur := n.right, cur.right;
      } else {
        return 1;
      }
    }
    return 0;
  }

  /** `avl_min(t)`: the sentinel on an empty tree, else the key reached by following left children. */
  method Min(t: AvlNode?, ghost T: set<object>, ghost m: Tree) returns (key: int)
    requires Sub(t, T, m)
    ensures m == Nil ==> key == Sentinel
    ensures m.Node? ==> key == LeftmostKey(m) && key in Keys(m)
    ensures m.Node? && Ordered(m) ==> forall x | x in Keys(m) :: key <= x
  {
    if t == null {
      return Sentinel;
    }
    var n: AvlNode := t;
    ghost var cur := m;
    while n.left != null
      invariant n.Valid() && n.Model == cur && LeftmostKey(cur) == LeftmostKey(m)
      decreases cur
    {
      n, cur := n.left, cur.left;
    }
    key := n.key;
  }

  /** `avl_max(t)`: the sentinel on an empty tree, else the key reached by following right children. */
  method Max(t: AvlNode?, ghost T: set<object>, ghost m: Tree) returns (key: int)
    requires Sub(t, T, m)
    ensures m == Nil ==> key == Sentinel
    ensures m.Node? ==> key == RightmostKey(m) && key in Keys(m)
    ensures m.Node? && Ordered(m) ==> forall x | x in Keys(m) :: x <= key
  {
    if t == null {
      return Sentinel;
    }
    var n: AvlNode := t;
    ghost var cur := m;
    while n.right != null
      invariant n.Valid() && n.Model == cur && RightmostKey(cur) == RightmostKey(m)
      decreases cur
    {
      n, cur := n.right, cur.right;
    }
    key := n.key;
  }

  /**
   * `avl_predecessor(t, k)`: descend as `avl_search` does, remembering the
   * last node whose key is below `k`; a node holding `k` with a left subtree
   * answers with the greatest key of that subtree. On an ordered tree the
   * result is the greatest key below `k`, or the sentinel when there is none.
   */
  method Predecessor(t: AvlNode?, k: int, ghost T: set<object>, ghost m: Tree) returns (p: int)
    requires Sub(t, T, m)
    ensures p == Sentinel || p in Keys(m)
    ensures Ordered(m) && Below(Keys(m), k) == {} ==> p == Sentinel
    ensures Ordered(m) && Below(Keys(m), k) != {} ==>
      p in Below(Keys(m), k) && forall x | x in Below(Keys(m), k) :: x <= p
  {
    var n := t;
    ghost var cur := m;
    var best: AvlNode? := null;
    while n != null
      invariant ValidOrNull(n) && ModelOf(n) == cur
      invariant Keys(cur) <= Keys(m)
      invariant best != null ==> best.key in Keys(m)
      invariant Ordered(m) ==> Ordered(cur)
      invariant Ordered(m) && best != null ==> best.key < k && forall x | x in Keys(cur) :: best.key < x
      invariant Ordered(m) ==> forall x | x in Below(Keys(m), k) :: x in Keys(cur) || (best != null && x <= best.key)
      decreases cur
    {
      if k < n.key {
        n, cur := n.left, cur.left;
      } else if k > n.key {
        best := n;
        n, cur := n.right, cur.right;
      } else if n.left == null {
        break;
      } else {
        p := Max(n.left, ReprOf(n.left), cur.left);
        return;
      }
    }
    if best == null {
      p := Sentinel;
    } else {
      p := best.key;
    }
  }

  /**
   * `avl_successor(t, k)`: the mirror image of `Predecessor`. On an ordered
   * tree the result is the least key above `k`, or the sentinel when there is none.
   */
  method Successor(t: AvlNode?, k: int, ghost T: set<object>, ghost m: Tree) returns (s: int)
    requires Sub(t, T, m)
    ensures s == Sentinel || s in Keys(m)
    ensures Ordered(m) && Above(Keys(m), k) == {} ==> s == Sentinel
    ensures Ordered(m) && Above(Keys(m), k) != {} ==>
      s in Above(Keys(m), k) && forall x | x in Above(Keys(m), k) :: s <= x
  {
    var n := t;
    ghost var cur := m;
    var best: AvlNode? := null;
    while n != null
      invariant ValidOrNull(n) && ModelOf(n) == cur
      invariant Keys(cur) <= Keys(m)
      invariant best != null ==> best.key in Keys(m)
      invariant Ordered(m) ==> Ordered(cur)
      invariant Ordered(m) && best != null ==> k < best.key && forall x | x in Keys(cur) :: x < best.key
      invariant Ordered(m) ==> forall x | x in Above(Keys(m), k) :: x in Keys(cur) || (best != null && best.key <= x)
      decreases cur
    {
      if k < n.key {
        best := n;
        n, cur := n.left, cur.left;
      } else if k > n.key {
        n, cur := n.right, cur.right;
      } else if n.right == null {
        break;
      } else {
        s := Min(n.right, ReprOf(n.right), cur.right);
        return;
      }
    }
    if best == null {
      s := Sentinel;
    } else {
      s := best.key;
    }
  }

  /**
   * `avl_traverse(t, f)`: the keys handed to the callback, in the order it is
   * called: every stored key once, ascending on an ordered tree.
   */
  function Traverse(t: AvlNode?): (s: seq<int>)
    requires ValidOrNull(t)
    reads t, ReprOf(t)
    ensures s == InOrder(ModelOf(t))
    ensures |s| == Size(ModelOf(t)) && forall x :: x in s <==> x in Keys(ModelOf(t))
    ensures Ordered(ModelOf(t)) ==> Increasing(s)
    decreases ReprOf(t)
  {
    InOrderSound(ModelOf(t));
    if t == null then [] else Traverse(t.left) + [t.key] + Traverse(t.right)
  }
}
