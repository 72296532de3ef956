/**
 * The AVL engine of avl.c on values.
 *
 * A node is a `Tree.Node` that carries, besides its key and children, the two
 * cached fields the C node stores: `height` and `status`. The operations below
 * follow avl.c branch for branch; the class-based model in AvlHeap updates
 * node objects in place and is proved to compute exactly these values.
 */
module AvlTree {

  /** avl_status, in declaration order (the debug assertions compare ordinals). */
  datatype Status =
    | Balanced
    | LeftHeavy
    | RightHeavy
    | Violative
    | DoublyLeftHeavy
    | DoublyRightHeavy
    | Invalid

  function Ordinal(s: Status): nat
  {
    match s
    case Balanced => 0
    case LeftHeavy => 1
    case RightHeavy => 2
    case Violative => 3
    case DoublyLeftHeavy => 4
    case DoublyRightHeavy => 5
    case Invalid => 6
  }

  datatype Tree =
    | Nil
    | Node(left: Tree, key: int, right: Tree, height: int, status: Status)

  /** The `max` macro: the larger of two heights. */
  function Larger(x: int, y: int): int
  {
    if x > y then x else y
  }

  /** The `height` macro: the cached height, -1 for an absent child. */
  function Height(t: Tree): int
  {
    if t.Nil? then -1 else t.height
  }

  /** `newstatus`: the right-minus-left height difference `d` as a status. */
  function NewStatus(d: int): (s: Status)
    ensures Ordinal(s) < Ordinal(Invalid) <==> -2 <= d <= 2
    ensures Ordinal(s) < Ordinal(Violative) <==> -1 <= d <= 1
    ensures s == DoublyLeftHeavy <==> d == -2
    ensures s == DoublyRightHeavy <==> d == 2
    ensures s == LeftHeavy <==> d == -1
    ensures s == RightHeavy <==> d == 1
  {
    if d == 0 then Balanced
    else if d == -1 then LeftHeavy
    else if d == 1 then RightHeavy
    else if d == -2 then DoublyLeftHeavy
    else if d == 2 then DoublyRightHeavy
    else Invalid
  }

  /**
   * A node over `l` and `r` whose cached fields are freshly computed, as the
   * first two statements of `rebalance` do (`newheight`, `newstatus`).
   */
  function Recomputed(l: Tree, k: int, r: Tree): Tree
  {
    Node(l, k, r, 1 + Larger(Height(l), Height(r)), NewStatus(Height(r) - Height(l)))
  }

  /**
   * The engine's invariant on every node: the cached height is one more than
   * the higher child's, the cached status is `newstatus` of the children, and
   * the children's heights differ by at most one.
   */
  predicate Avl(t: Tree)
    ensures Avl(t) ==> Height(t) >= -1
  {
    match t
    case Nil => true
    case Node(l, _, r, h, s) =>
      Avl(l) && Avl(r) &&
      h == 1 + Larger(Height(l), Height(r)) &&
      s == NewStatus(Height(r) - Height(l)) &&
      -1 <= Height(r) - Height(l) <= 1
  }

  function Keys(t: Tree): set<int>
  {
    match t
    case Nil => {}
    case Node(l, k, r, _, _) => Keys(l) + {k} + Keys(r)
  }

  /** Binary-search-tree order under `avl_keylt`/`avl_keygt`, i.e. `<` on int. */
  predicate Ordered(t: Tree)
  {
    match t
    case Nil => true
    case Node(l, k, r, _, _) =>
      Ordered(l) && Ordered(r) &&
      (forall x | x in Keys(l) :: x < k) &&
      (forall x | x in Keys(r) :: k < x)
  }

  /** The keys in the order `avl_traverse` visits them. */
  function InOrder(t: Tree): seq<int>
  {
    match t
    case Nil => []
    case Node(l, k, r, _, _) => InOrder(l) + [k] + InOrder(r)
  }

  function Size(t: Tree): nat
  {
    match t
    case Nil => 0
    case Node(l, _, r, _, _) => Size(l) + 1 + Size(r)
  }

  /**
   * The textbook AVL restructuring of a node over `l`, `k`, `r`, written
   * without recursion: a single rotation when the heavy child leans outward or
   * not at all, a double rotation when it leans inward. It is the reference
   * that `Rebalance` below is proved to agree with.
   */
  function Balance(l: Tree, k: int, r: Tree): Tree
  {
    var d := Height(r) - Height(l);
    if d == -2 && l.Node? then
      if Height(l.right) > Height(l.left) && l.right.Node? then
        Recomputed(Recomputed(l.left, l.key, l.right.left), l.right.key, Recomputed(l.right.right, k, r))
      else
        Recomputed(l.left, l.key, Recomputed(l.right, k, r))
    else if d == 2 && r.Node? then
      if Height(r.left) > Height(r.right) && r.left.Node? then
        Recomputed(Recomputed(l, k, r.left.left), r.left.key, Recomputed(r.left.right, r.key, r.right))
      else
        Recomputed(Recomputed(l, k, r.left), r.key, r.right)
    else
      Recomputed(l, k, r)
  }

  /**
   * How many more same-size steps the rebalance/rotate recursion takes from a
   * node over `l` and `r` (the second component of its termination measure):
   * 0 with no rotation, 2 for a single rotation, 4 for a double rotation, and
   * 10 for a double rotation whose first half avl.c undoes and redoes from the
   * other side (the grandchild leans outward).
   */
  function RebalanceRank(l: Tree, r: Tree): nat
  {
    var d := Height(r) - Height(l);
    if d == -2 && l.Node? then
      if Height(l.right) > Height(l.left) && l.right.Node? then
        if Height(l.right.left) > Height(l.right.right) then 10 else 4
      else 2
    else if d == 2 && r.Node? then
      if Height(r.left) > Height(r.right) && r.left.Node? then
        if Height(r.left.right) > Height(r.left.left) then 10 else 4
      else 2
    else 0
  }

  /**
   * `rebalance` on a node over `l`, `k`, `r`: recompute the cached fields and,
   * if the node is doubly heavy, rotate (first rotating the heavy child when its
   * stored status leans inward). The debug assertion that the status is below
   * AVL_INVALID is the requirement on the height difference.
   */
  function Rebalance(l: Tree, k: int, r: Tree): Tree
    requires Avl(l) && Avl(r)
    requires -2 <= Height(r) - Height(l) <= 2
    decreases Size(l) + Size(r) + 1, RebalanceRank(l, r), 0
  {
    match NewStatus(Height(r) - Height(l))
    case DoublyLeftHeavy =>
      InnerRotationLeft(l, k, r);
      var l' := if l.status == RightHeavy then RotateLeftMatchesBalance(l.left, l.key, l.right); RotateLeft(l.left, l.key, l.right) else l;
      RotateRight(l', k, r)
    case DoublyRightHeavy =>
      InnerRotationRight(l, k, r);
      var r' := if r.status == LeftHeavy then RotateRightMatchesBalance(r.left, r.key, r.right); RotateRight(r.left, r.key, r.right) else r;
      RotateLeft(l, k, r')
    case _ =>
      Recomputed(l, k, r)
  }

  /**
   * `rotateleft` on a node over `l`, `k`, `r`: the right child `r` becomes the
   * top, the node is lowered to its left and takes `r.left`; both are passed
   * through `rebalance`, the lowered node first. The requirements are what
   * every call from `rebalance` guarantees: the lowered node needs no rotation
   * and the new top is at most doubly heavy.
   */
  function RotateLeft(l: Tree, k: int, r: Tree): Tree
    requires r.Node? && Avl(l) && Avl(r)
    requires -1 <= Height(r.left) - Height(l) <= 1
    requires -2 <= Height(r.right) - (1 + Larger(Height(l), Height(r.left))) <= 2
    decreases Size(l) + Size(r) + 1, 2 * RebalanceRank(Recomputed(l, k, r.left), r.right) + 1, 0
  {
    RebalanceMatchesBalance(l, k, r.left);
    var lowered := Rebalance(l, k, r.left);
    Rebalance(lowered, r.key, r.right)
  }

  /** `rotateright`: the mirror image of `RotateLeft`. */
  function RotateRight(l: Tree, k: int, r: Tree): Tree
    requires l.Node? && Avl(l) && Avl(r)
    requires -1 <= Height(r) - Height(l.right) <= 1
    requires -2 <= 1 + Larger(Height(l.right), Height(r)) - Height(l.left) <= 2
    decreases Size(l) + Size(r) + 1, 2 * RebalanceRank(l.left, Recomputed(l.right, k, r)) + 1, 0
  {
    RebalanceMatchesBalance(l.right, k, r);
    var lowered := Rebalance(l.right, k, r);
    Rebalance(l.left, l.key, lowered)
  }

  /** `rebalance` agrees with the non-recursive reference restructuring `Balance`. */
  lemma {:induction false} RebalanceMatchesBalance(l: Tree, k: int, r: Tree)
    requires Avl(l) && Avl(r)
    requires -2 <= Height(r) - Height(l) <= 2
    ensures Rebalance(l, k, r) == Balance(l, k, r)
    decreases Size(l) + Size(r) + 1, RebalanceRank(l, r), 1
  {
    match NewStatus(Height(r) - Height(l))
    case DoublyLeftHeavy =>
      InnerRotationLeft(l, k, r);
      if l.status == RightHeavy {
        RotateLeftMatchesBalance(l.left, l.key, l.right);
      }
      var l' := if l.status == RightHeavy then RotateLeft(l.left, l.key, l.right) else l;
      RotateRightMatchesBalance(l', k, r);
    case DoublyRightHeavy =>
      InnerRotationRight(l, k, r);
      if r.status == LeftHeavy {
        RotateRightMatchesBalance(r.left, r.key, r.right);
      }
      var r' := if r.status == LeftHeavy then RotateRight(r.left, r.key, r.right) else r;
      RotateLeftMatchesBalance(l, k, r');
    case _ =>
  }

  /** `rotateleft` agrees with `Balance` applied over the lowered node. */
  lemma {:induction false} RotateLeftMatchesBalance(l: Tree, k: int, r: Tree)
    requires r.Node? && Avl(l) && Avl(r)
    requires -1 <= Height(r.left) - Height(l) <= 1
    requires -2 <= Height(r.right) - (1 + Larger(Height(l), Height(r.left))) <= 2
    ensures RotateLeft(l, k, r) == Balance(Recomputed(l, k, r.left), r.key, r.right)
    decreases Size(l) + Size(r) + 1, 2 * RebalanceRank(Recomputed(l, k, r.left), r.right) + 1, 1
  {
    RebalanceMatchesBalance(l, k, r.left);
    RebalanceMatchesBalance(Recomputed(l, k, r.left), r.key, r.right);
  }

  /** `rotateright` agrees with `Balance` applied over the lowered node. */
  lemma {:induction false} RotateRightMatchesBalance(l: Tree, k: int, r: Tree)
    requires l.Node? && Avl(l) && Avl(r)
    requires -1 <= Height(r) - Height(l.right) <= 1
    requires -2 <= 1 + Larger(Height(l.right), Height(r)) - Height(l.left) <= 2
    ensures RotateRight(l, k, r) == Balance(l.left, l.key, Recomputed(l.right, k, r))
    decreases Size(l) + Size(r) + 1, 2 * RebalanceRank(l.left, Recomputed(l.right, k, r)) + 1, 1
  {
    RebalanceMatchesBalance(l.right, k, r);
    RebalanceMatchesBalance(l.left, l.key, Recomputed(l.right, k, r));
  }

  /**
   * The DOUBLY_LEFT_HEAVY arm of `rebalance` as two calls: the left child,
   * rotated left first when it leans right, can be rotated right with `k`
   * and `r`, at a smaller rank, and that is the whole result.
   */
  lemma LeftHeavyArm(l: Tree, k: int, r: Tree)
    requires Avl(l) && Avl(r) && Height(l) == Height(r) + 2
    ensures l.Node?
    ensures l.status == RightHeavy ==>
              l.right.Node? &&
              -1 <= Height(l.right.left) - Height(l.left) <= 1 &&
              -2 <= Height(l.right.right) - (1 + Larger(Height(l.left), Height(l.right.left))) <= 2
    ensures var l' := if l.status == RightHeavy then RotateLeft(l.left, l.key, l.right) else l;
      l'.Node? && Avl(l') && Size(l') == Size(l) &&
      -1 <= Height(r) - Height(l'.right) <= 1 &&
      -2 <= 1 + Larger(Height(l'.right), Height(r)) - Height(l'.left) <= 2 &&
      2 * RebalanceRank(l'.left, Recomputed(l'.right, k, r)) + 1 < RebalanceRank(l, r) &&
      Rebalance(l, k, r) == RotateRight(l', k, r)
  {
    InnerRotationLeft(l, k, r);
    if l.status == RightHeavy {
      RotateLeftMatchesBalance(l.left, l.key, l.right);
    }
  }

  /** The DOUBLY_RIGHT_HEAVY arm of `rebalance`, mirroring `LeftHeavyArm`. */
  lemma RightHeavyArm(l: Tree, k: int, r: Tree)
    requires Avl(l) && Avl(r) && Height(r) == Height(l) + 2
    ensures r.Node?
    ensures r.status == LeftHeavy ==>
              r.left.Node? &&
              -1 <= Height(r.right) - Height(r.left.right) <= 1 &&
              -2 <= 1 + Larger(Height(r.left.right), Height(r.right)) - Height(r.left.left) <= 2
    ensures var r' := if r.status == LeftHeavy then RotateRight(r.left, r.key, r.right) else r;
      r'.Node? && Avl(r') && Size(r') == Size(r) &&
      -1 <= Height(r'.left) - Height(l) <= 1 &&
      -2 <= Height(r'.right) - (1 + Larger(Height(l), Height(r'.left))) <= 2 &&
      2 * RebalanceRank(Recomputed(l, k, r'.left), r'.right) + 1 < RebalanceRank(l, r) &&
      Rebalance(l, k, r) == RotateLeft(l, k, r')
  {
    InnerRotationRight(l, k, r);
    if r.status == LeftHeavy {
      RotateRightMatchesBalance(r.left, r.key, r.right);
    }
  }

  /**
   * What the first half of a left-right double rotation leaves behind: when
   * the left child leans right it is rotated left first, and either way the
   * right rotation that follows has the arguments it requires, runs at a
   * smaller rank, and yields the reference restructuring.
   */
  lemma InnerRotationLeft(l: Tree, k: int, r: Tree)
    requires Avl(l) && Avl(r) && Height(l) == Height(r) + 2
    ensures l.Node?
    ensures var l' := if l.status == RightHeavy then Balance(Recomputed(l.left, l.key, l.right.left), l.right.key, l.right.right) else l;
      l'.Node? && Avl(l') && Size(l') == Size(l) &&
      -1 <= Height(r) - Height(l'.right) <= 1 &&
      -2 <= 1 + Larger(Height(l'.right), Height(r)) - Height(l'.left) <= 2 &&
      2 * RebalanceRank(l'.left, Recomputed(l'.right, k, r)) + 1 < RebalanceRank(l, r) &&
      Balance(l'.left, l'.key, Recomputed(l'.right, k, r)) == Balance(l, k, r)
  {
    if l.status == RightHeavy {
      LeftChildLeansRight(l, k, r);
    } else {
      LeftChildLeansLeft(l, k, r);
    }
  }

  lemma LeftChildLeansRight(l: Tree, k: int, r: Tree)
    requires Avl(l) && Avl(r) && Height(l) == Height(r) + 2 && l.status == RightHeavy
    ensures l.Node? && l.right.Node?
    ensures var l' := Balance(Recomputed(l.left, l.key, l.right.left), l.right.key, l.right.right);
      l'.Node? && Avl(l') && Size(l') == Size(l) &&
      -1 <= Height(r) - Height(l'.right) <= 1 &&
      -2 <= 1 + Larger(Height(l'.right), Height(r)) - Height(l'.left) <= 2 &&
      2 * RebalanceRank(l'.left, Recomputed(l'.right, k, r)) + 1 < RebalanceRank(l, r) &&
      Balance(l'.left, l'.key, Recomputed(l'.right, k, r)) == Balance(l, k, r)
  {
    var n := l.right;
    var x := Recomputed(l.left, l.key, n.left);
    if Height(n.left) <= Height(n.right) {
      assert Balance(x, n.key, n.right) == Recomputed(x, n.key, n.right);
    } else {
      assert Balance(x, n.key, n.right) == Recomputed(l.left, l.key, Recomputed(n.left, n.key, n.right));
    }
  }

  lemma LeftChildLeansLeft(l: Tree, k: int, r: Tree)
    requires Avl(l) && Avl(r) && Height(l) == Height(r) + 2 && l.status != RightHeavy
    ensures l.Node?
    ensures -1 <= Height(r) - Height(l.right) <= 1 &&
      -2 <= 1 + Larger(Height(l.right), Height(r)) - Height(l.left) <= 2 &&
      2 * RebalanceRank(l.left, Recomputed(l.right, k, r)) + 1 < RebalanceRank(l, r) &&
      Balance(l.left, l.key, Recomputed(l.right, k, r)) == Balance(l, k, r)
  {
  }

  /** The mirror image of `InnerRotationLeft`. */
  lemma InnerRotationRight(l: Tree, k: int, r: Tree)
    requires Avl(l) && Avl(r) && Height(r) == Height(l) + 2
    ensures r.Node?
    ensures var r' := if r.status == LeftHeavy then Balance(r.left.left, r.left.key, Recomputed(r.left.right, r.key, r.right)) else r;
      r'.Node? && Avl(r') && Size(r') == Size(r) &&
      -1 <= Height(r'.left) - Height(l) <= 1 &&
      -2 <= Height(r'.right) - (1 + Larger(Height(l), Height(r'.left))) <= 2 &&
      2 * RebalanceRank(Recomputed(l, k, r'.left), r'.right) + 1 < RebalanceRank(l, r) &&
      Balance(Recomputed(l, k, r'.left), r'.key, r'.right) == Balance(l, k, r)
  {
    if r.status == LeftHeavy {
      RightChildLeansLeft(l, k, r);
    } else {
      RightChildLeansRight(l, k, r);
    }
  }

  lemma RightChildLeansLeft(l: Tree, k: int, r: Tree)
    requires Avl(l) && Avl(r) && Height(r) == Height(l) + 2 && r.status == LeftHeavy
    ensures r.Node? && r.left.Node?
    ensures var r' := Balance(r.left.left, r.left.key, Recomputed(r.left.right, r.key, r.right));
      r'.Node? && Avl(r') && Size(r') == Size(r) &&
      -1 <= Height(r'.left) - Height(l) <= 1 &&
      -2 <= Height(r'.right) - (1 + Larger(Height(l), Height(r'.left))) <= 2 &&
      2 * RebalanceRank(Recomputed(l, k, r'.left), r'.right) + 1 < RebalanceRank(l, r) &&
      Balance(Recomputed(l, k, r'.left), r'.key, r'.right) == Balance(l, k, r)
  {
    var n := r.left;
    var x := Recomputed(n.right, r.key, r.right);
    if Height(n.right) <= Height(n.left) {
      assert Balance(n.left, n.key, x) == Recomputed(n.left, n.key, x);
    } else {
      assert Balance(n.left, n.key, x) == Recomputed(Recomputed(n.left, n.key, n.right), r.key, r.right);
    }
  }

  lemma RightChildLeansRight(l: Tree, k: int, r: Tree)
    requires Avl(l) && Avl(r) && Height(r) == Height(l) + 2 && r.status != LeftHeavy
    ensures r.Node?
    ensures -1 <= Height(r.left) - Height(l) <= 1 &&
      -2 <= Height(r.right) - (1 + Larger(Height(l), Height(r.left))) <= 2 &&
      2 * RebalanceRank(Recomputed(l, k, r.left), r.right) + 1 < RebalanceRank(l, r) &&
      Balance(Recomputed(l, k, r.left), r.key, r.right) == Balance(l, k, r)
  {
  }

  predicate Increasing(s: seq<int>)
  {
    forall i, j | 0 <= i < j < |s| :: s[i] < s[j]
  }

  lemma IncreasingJoin(a: seq<int>, k: int, b: seq<int>)
    ensures Increasing(a + [k] + b) <==>
      Increasing(a) && Increasing(b) &&
      (forall x | x in a :: x < k) && (forall x | x in b :: k < x)
  {
    var s := a + [k] + b;
    if Increasing(a) && Increasing(b) && (forall x | x in a :: x < k) && (forall x | x in b :: k < x) {
      forall i, j | 0 <= i < j < |s| ensures s[i] < s[j] {
        if j < |a| {
          assert s[i] == a[i] && s[j] == a[j];
        } else if i < |a| {
          assert s[i] == a[i] && a[i] in a;
          assert j > |a| ==> s[j] == b[j - |a| - 1] && s[j] in b;
        } else if i == |a| {
          assert s[j] == b[j - |a| - 1] && s[j] in b;
        } else {
          assert s[i] == b[i - |a| - 1] && s[j] == b[j - |a| - 1];
        }
      }
    }
    if Increasing(s) {
      forall x | x in a ensures x < k { var i :| 0 <= i < |a| && a[i] == x; assert s[i] == a[i] && s[|a|] == k; }
      forall x | x in b ensures k < x { var j :| 0 <= j < |b| && b[j] == x; assert s[|a| + 1 + j] == b[j] && s[|a|] == k; }
      forall i, j | 0 <= i < j < |b| ensures b[i] < b[j] { assert s[|a| + 1 + i] == b[i] && s[|a| + 1 + j] == b[j]; }
      forall i, j | 0 <= i < j < |a| ensures a[i] < a[j] { assert s[i] == a[i] && s[j] == a[j]; }
    }
  }

  /** `avl_traverse` visits exactly the stored keys, and in ascending order when the tree is ordered. */
  lemma {:induction false} InOrderSound(t: Tree)
    ensures |InOrder(t)| == Size(t)
    ensures forall x :: x in InOrder(t) <==> x in Keys(t)
    ensures Ordered(t) <==> Increasing(InOrder(t))
  {
    match t
    case Nil =>
    case Node(l, k, r, _, _) =>
      InOrderSound(l);
      InOrderSound(r);
      IncreasingJoin(InOrder(l), k, InOrder(r));

  }

  /**
   * The reference restructuring yields a valid AVL node of the expected height.
   * This is the shape half of `BalanceSound`, kept as a lemma of its own so
   * that the in-order half can be proved without re-deriving it.
   */
  lemma BalanceAvl(l: Tree, k: int, r: Tree)
    requires Avl(l) && Avl(r) && -2 <= Height(r) - Height(l) <= 2
    ensures var t := Balance(l, k, r);
      Avl(t) &&
      Larger(Height(l), Height(r)) <= Height(t) <= 1 + Larger(Height(l), Height(r)) &&
      (-1 <= Height(r) - Height(l) <= 1 ==> Height(t) == 1 + Larger(Height(l), Height(r)))
  {
    var d := Height(r) - Height(l);
    if d == -2 {
      assert l.Node?;
      if Height(l.right) > Height(l.left) {
        AvlLeftRight(l, k, r);
      } else {
        AvlLeftLeft(l, k, r);
      }
    } else if d == 2 {
      assert r.Node?;
      if Height(r.left) > Height(r.right) {
        AvlRightLeft(l, k, r);
      } else {
        AvlRightRight(l, k, r);
      }
    }
  }

  /** A single right rotation repairs a node whose left child does not lean right. */
  lemma AvlLeftLeft(l: Tree, k: int, r: Tree)
    requires Avl(l) && Avl(r) && Height(r) - Height(l) == -2 && l.Node? && Height(l.right) <= Height(l.left)
    ensures var t := Recomputed(l.left, l.key, Recomputed(l.right, k, r));
      Avl(t) && Height(l) <= Height(t) <= Height(l) + 1
  {
  }

  /** A left-right double rotation repairs a node whose left child leans right. */
  lemma AvlLeftRight(l: Tree, k: int, r: Tree)
    requires Avl(l) && Avl(r) && Height(r) - Height(l) == -2 && l.Node? && Height(l.right) > Height(l.left)
    ensures l.right.Node?
    ensures var n := l.right;
      var t := Recomputed(Recomputed(l.left, l.key, n.left), n.key, Recomputed(n.right, k, r));
      Avl(t) && Height(t) == Height(l)
  {
  }

  lemma AvlRightRight(l: Tree, k: int, r: Tree)
    requires Avl(l) && Avl(r) && Height(r) - Height(l) == 2 && r.Node? && Height(r.left) <= Height(r.right)
    ensures var t := Recomputed(Recomputed(l, k, r.left), r.key, r.right);
      Avl(t) && Height(r) <= Height(t) <= Height(r) + 1
  {
  }

  lemma AvlRightLeft(l: Tree, k: int, r: Tree)
    requires Avl(l) && Avl(r) && Height(r) - Height(l) == 2 && r.Node? && Height(r.left) > Height(r.right)
    ensures r.left.Node?
    ensures var n := r.left;
      var t := Recomputed(Recomputed(l, k, n.left), n.key, Recomputed(n.right, r.key, r.right));
      Avl(t) && Height(t) == Height(r)
  {
  }

  lemma InOrderRecomputed(l: Tree, k: int, r: Tree)
    ensures InOrder(Recomputed(l, k, r)) == InOrder(l) + [k] + InOrder(r)
  {
  }

  lemma BalanceInOrder(l: Tree, k: int, r: Tree)
    ensures InOrder(Balance(l, k, r)) == InOrder(l) + [k] + InOrder(r)
  {
    var d := Height(r) - Height(l);
    if d == -2 && l.Node? {
      if Height(l.right) > Height(l.left) && l.right.Node? {
        InOrderLeftRight(l, k, r);
      } else {
        InOrderLeftLeft(l, k, r);
      }
    } else if d == 2 && r.Node? {
      if Height(r.left) > Height(r.right) && r.left.Node? {
        InOrderRightLeft(l, k, r);
      } else {
        InOrderRightRight(l, k, r);
      }
    } else {
      InOrderRecomputed(l, k, r);
    }
  }

  lemma Shift(a: seq<int>, x: int, b: seq<int>, y: int, c: seq<int>)
    ensures a + [x] + (b + [y] + c) == (a + [x] + b) + [y] + c
  {
  }

  lemma InOrderLeftLeft(l: Tree, k: int, r: Tree)
    requires l.Node?
    ensures InOrder(Recomputed(l.left, l.key, Recomputed(l.right, k, r))) == InOrder(l) + [k] + InOrder(r)
  {
    InOrderRecomputed(l.left, l.key, Recomputed(l.right, k, r));
    InOrderRecomputed(l.right, k, r);
    Shift(InOrder(l.left), l.key, InOrder(l.right), k, InOrder(r));
  }

  lemma InOrderRightRight(l: Tree, k: int, r: Tree)
    requires r.Node?
    ensures InOrder(Recomputed(Recomputed(l, k, r.left), r.key, r.right)) == InOrder(l) + [k] + InOrder(r)
  {
    InOrderRecomputed(Recomputed(l, k, r.left), r.key, r.right);
    InOrderRecomputed(l, k, r.left);
    Shift(InOrder(l), k, InOrder(r.left), r.key, InOrder(r.right));
  }

  lemma InOrderLeftRight(l: Tree, k: int, r: Tree)
    requires l.Node? && l.right.Node?
    ensures var n := l.right;
      InOrder(Recomputed(Recomputed(l.left, l.key, n.left), n.key, Recomputed(n.right, k, r))) ==
      InOrder(l) + [k] + InOrder(r)
  {
    var n := l.right;
    InOrderRecomputed(Recomputed(l.left, l.key, n.left), n.key, Recomputed(n.right, k, r));
    InOrderRecomputed(l.left, l.key, n.left);
    InOrderRecomputed(n.right, k, r);
    assert InOrder(l) == InOrder(l.left) + [l.key] + (InOrder(n.left) + [n.key] + InOrder(n.right));
  }

  lemma Regroup(a: seq<int>, x: int, b: seq<int>, y: int, c: seq<int>, z: int, e: seq<int>)
    ensures (a + [x] + b) + [y] + (c + [z] + e) == a + [x] + ((b + [y] + c) + [z] + e)
  {
  }

  lemma InOrderRightLeft(l: Tree, k: int, r: Tree)
    requires r.Node? && r.left.Node?
    ensures var n := r.left;
      InOrder(Recomputed(Recomputed(l, k, n.left), n.key, Recomputed(n.right, r.key, r.right))) ==
      InOrder(l) + [k] + InOrder(r)
  {
    var n := r.left;
    InOrderRecomputed(Recomputed(l, k, n.left), n.key, Recomputed(n.right, r.key, r.right));
    InOrderRecomputed(l, k, n.left);
    InOrderRecomputed(n.right, r.key, r.right);
    InOrderRecomputed(n.left, n.key, n.right);
    Regroup(InOrder(l), k, InOrder(n.left), n.key, InOrder(n.right), r.key, InOrder(r.right));
  }

  /**
   * The reference restructuring keeps what `rebalance` must keep: the result is
   * a valid AVL node, its height is that of the higher child or one more, and
   * the in-order key sequence (hence the key set and the search order) is
   * unchanged.
   */
  lemma BalanceSound(l: Tree, k: int, r: Tree)
    requires Avl(l) && Avl(r) && -2 <= Height(r) - Height(l) <= 2
    ensures var t := Balance(l, k, r);
      Avl(t) &&
      Larger(Height(l), Height(r)) <= Height(t) <= 1 + Larger(Height(l), Height(r)) &&
      (-1 <= Height(r) - Height(l) <= 1 ==> Height(t) == 1 + Larger(Height(l), Height(r))) &&
      InOrder(t) == InOrder(l) + [k] + InOrder(r) &&
      Size(t) == Size(l) + 1 + Size(r) &&
      Keys(t) == Keys(l) + {k} + Keys(r) &&
      (Ordered(Recomputed(l, k, r)) ==> Ordered(t))
  {
    var t := Balance(l, k, r);
    BalanceAvl(l, k, r);
    BalanceInOrder(l, k, r);
    InOrderRecomputed(l, k, r);
    SameInOrder(Recomputed(l, k, r), t);
  }

  /** Trees with the same in-order sequence hold the same keys, equally many, equally ordered. */
  lemma SameInOrder(s: Tree, t: Tree)
    requires InOrder(s) == InOrder(t)
    ensures Keys(s) == Keys(t) && Size(s) == Size(t) && (Ordered(s) <==> Ordered(t))
  {
    InOrderSound(s);
    InOrderSound(t);
    forall x ensures x in Keys(s) <==> x in Keys(t) {
      assert x in Keys(s) <==> x in InOrder(s);
      assert x in Keys(t) <==> x in InOrder(t);
    }
  }

  /**
   * `rebalance` keeps the engine's invariants: given valid AVL children whose
   * heights differ by at most two, it returns a valid AVL subtree (balanced, with
   * correct cached heights and statuses) holding the same keys in the same
   * in-order sequence, whose height is that of the higher child or one more
   * (exactly one more when no rotation was needed).
   */
  lemma RebalanceSound(l: Tree, k: int, r: Tree)
    requires Avl(l) && Avl(r) && -2 <= Height(r) - Height(l) <= 2
    ensures var t := Rebalance(l, k, r);
      Avl(t) &&
      Larger(Height(l), Height(r)) <= Height(t) <= 1 + Larger(Height(l), Height(r)) &&
      (-1 <= Height(r) - Height(l) <= 1 ==> t == Recomputed(l, k, r)) &&
      InOrder(t) == InOrder(l) + [k] + InOrder(r) &&
      Keys(t) == Keys(l) + {k} + Keys(r) &&
      (Ordered(Recomputed(l, k, r)) ==> Ordered(t))
  {
    RebalanceMatchesBalance(l, k, r);
    BalanceSound(l, k, r);
  }

  /**
   * The key-set half of `RebalanceSound`, for callers that need only this:
   * its smaller postcondition keeps their proofs cheaper for the solver.
   */
  lemma RebalanceKeys(l: Tree, k: int, r: Tree)
    requires Avl(l) && Avl(r) && -2 <= Height(r) - Height(l) <= 2
    ensures Keys(Rebalance(l, k, r)) == Keys(l) + {k} + Keys(r)
    ensures Ordered(Recomputed(l, k, r)) ==> Ordered(Rebalance(l, k, r))
  {
    RebalanceMatchesBalance(l, k, r);
    BalanceSound(l, k, r);
  }

  /** A node whose children differ in height by at most one is only recomputed. */
  lemma RebalanceIdle(l: Tree, k: int, r: Tree)
    requires Avl(l) && Avl(r) && -1 <= Height(r) - Height(l) <= 1
    ensures Rebalance(l, k, r) == Recomputed(l, k, r) && Avl(Recomputed(l, k, r))
  {
  }

  /**
   * The two steps of `rotateleft`: the lowered node is only recomputed, and
   * the new top is then rebalanced over the same number of keys.
   */
  lemma RotateLeftSteps(l: Tree, k: int, r: Tree)
    requires r.Node? && Avl(l) && Avl(r)
    requires -1 <= Height(r.left) - Height(l) <= 1
    requires -2 <= Height(r.right) - (1 + Larger(Height(l), Height(r.left))) <= 2
    ensures var x := Recomputed(l, k, r.left);
      Rebalance(l, k, r.left) == x && Avl(x) && Avl(r.right) &&
      -2 <= Height(r.right) - Height(x) <= 2 &&
      Size(x) + Size(r.right) == Size(l) + Size(r) &&
      RotateLeft(l, k, r) == Rebalance(x, r.key, r.right)
  {
    RebalanceIdle(l, k, r.left);
  }

  /** The two steps of `rotateright`, mirroring `RotateLeftSteps`. */
  lemma RotateRightSteps(l: Tree, k: int, r: Tree)
    requires l.Node? && Avl(l) && Avl(r)
    requires -1 <= Height(r) - Height(l.right) <= 1
    requires -2 <= 1 + Larger(Height(l.right), Height(r)) - Height(l.left) <= 2
    ensures var x := Recomputed(l.right, k, r);
      Rebalance(l.right, k, r) == x && Avl(x) && Avl(l.left) &&
      -2 <= Height(x) - Height(l.left) <= 2 &&
      Size(l.left) + Size(x) == Size(l) + Size(r) &&
      RotateRight(l, k, r) == Rebalance(l.left, l.key, x)
  {
    RebalanceIdle(l.right, k, r);
  }

  /** `rotateleft` keeps the in-order key sequence of the subtree it restructures. */
  lemma RotateLeftKeepsInOrder(l: Tree, k: int, r: Tree)
    requires r.Node? && Avl(l) && Avl(r)
    requires -1 <= Height(r.left) - Height(l) <= 1
    requires -2 <= Height(r.right) - (1 + Larger(Height(l), Height(r.left))) <= 2
    ensures InOrder(RotateLeft(l, k, r)) == InOrder(l) + [k] + InOrder(r)
  {
    RotateLeftMatchesBalance(l, k, r);
    BalanceInOrder(Recomputed(l, k, r.left), r.key, r.right);
    InOrderRecomputed(l, k, r.left);
  }

  /** `rotateright` keeps the in-order key sequence of the subtree it restructures. */
  lemma RotateRightKeepsInOrder(l: Tree, k: int, r: Tree)
    requires l.Node? && Avl(l) && Avl(r)
    requires -1 <= Height(r) - Height(l.right) <= 1
    requires -2 <= 1 + Larger(Height(l.right), Height(r)) - Height(l.left) <= 2
    ensures InOrder(RotateRight(l, k, r)) == InOrder(l) + [k] + InOrder(r)
  {
    RotateRightMatchesBalance(l, k, r);
    BalanceInOrder(l.left, l.key, Recomputed(l.right, k, r));
    InOrderRecomputed(l.right, k, r);
  }

  /** The key `avl_min` reaches by following left children from the top. */
  function LeftmostKey(t: Tree): (m: int)
    requires t.Node?
    ensures m in Keys(t)
    ensures Ordered(t) ==> forall x | x in Keys(t) :: m <= x
  {
    if t.left.Nil? then t.key else LeftmostKey(t.left)
  }

  /** The key `avl_max` reaches by following right children from the top. */
  function RightmostKey(t: Tree): (m: int)
    requires t.Node?
    ensures m in Keys(t)
    ensures Ordered(t) ==> forall x | x in Keys(t) :: x <= m
  {
    if t.right.Nil? then t.key else RightmostKey(t.right)
  }

  /**
   * `avl_insert`: descend by comparison, hang a new leaf (height 0, BALANCED)
   * where the descent falls off, and pass every node on the way back through
   * `rebalance`; an equal key returns the subtree as it is. The result is a
   * valid AVL tree whose height grew by at most one.
   */
  function Insert(t: Tree, k: int): (r: Tree)
    requires Avl(t)
    ensures Avl(r) && Height(t) <= Height(r) <= Height(t) + 1
  {
    match t
    case Nil => Node(Nil, k, Nil, 0, Balanced)
    case Node(l, key, rt, _, _) =>
      if k < key then
        var l' := Insert(l, k);
        RebalanceSound(l', key, rt);
        Rebalance(l', key, rt)
      else if k > key then
        var rt' := Insert(rt, k);
        RebalanceSound(l, key, rt');
        Rebalance(l, key, rt')
      else
        t
  }

  /**
   * `avl_delete`: descend by comparison; a matching node with at most one
   * child is replaced by that child, one with two children by a fresh node that
   * holds the least key of the right subtree over the left subtree and the right
   * subtree with that key deleted. Every node on the way back goes through
   * `rebalance`. The result is a valid AVL tree whose height shrank by at most one.
   */
  function Delete(t: Tree, k: int): (r: Tree)
    requires Avl(t)
    ensures Avl(r) && Height(t) - 1 <= Height(r) <= Height(t)
  {
    match t
    case Nil => Nil
    case Node(l, key, rt, _, _) =>
      if k < key then
        var l' := Delete(l, k);
        RebalanceSound(l', key, rt);
        Rebalance(l', key, rt)
      else if k > key then
        var rt' := Delete(rt, k);
        RebalanceSound(l, key, rt');
        Rebalance(l, key, rt')
      else if l.Nil? then
        rt
      else if rt.Nil? then
        l
      else
        var m := LeftmostKey(rt);
        var rt' := Delete(rt, m);
        RebalanceSound(l, m, rt');
        Rebalance(l, m, rt')
  }

  /**
   * `avl_insert` has set semantics: the result holds the old keys and `k`, and
   * stays ordered when the input was.
   */
  lemma {:induction false} InsertKeys(t: Tree, k: int)
    requires Avl(t)
    ensures Keys(Insert(t, k)) == Keys(t) + {k}
    ensures Ordered(t) ==> Ordered(Insert(t, k))
    decreases t, 1
  {
    match t
    case Nil =>
    case Node(_, key, _, _, _) =>
      if k < key {
        InsertLeftKeys(t, k);
      } else if k > key {
        InsertRightKeys(t, k);
      }
  }

  /** The case of `InsertKeys` that descends to the left. */
  lemma {:induction false} InsertLeftKeys(t: Tree, k: int)
    requires t.Node? && Avl(t) && k < t.key
    ensures Keys(Insert(t, k)) == Keys(t) + {k}
    ensures Ordered(t) ==> Ordered(Insert(t, k))
    decreases t, 0
  {
    var Node(l, key, rt, _, _) := t;
    var l' := Insert(l, k);
    InsertKeys(l, k);
    RebalanceKeys(l', key, rt);
    assert Insert(t, k) == Rebalance(l', key, rt);
    if Ordered(t) {
      assert Ordered(Recomputed(l', key, rt));
    }
  }

  /** The case of `InsertKeys` that descends to the right. */
  lemma {:induction false} InsertRightKeys(t: Tree, k: int)
    requires t.Node? && Avl(t) && k > t.key
    ensures Keys(Insert(t, k)) == Keys(t) + {k}
    ensures Ordered(t) ==> Ordered(Insert(t, k))
    decreases t, 0
  {
    var Node(l, key, rt, _, _) := t;
    var rt' := Insert(rt, k);
    InsertKeys(rt, k);
    RebalanceKeys(l, key, rt');
    assert Insert(t, k) == Rebalance(l, key, rt');
    if Ordered(t) {
      assert Ordered(Recomputed(l, key, rt'));
    }
  }

  /** Inserting a key that is already present returns the tree unchanged. */
  lemma {:induction false} InsertPresent(t: Tree, k: int)
    requires Avl(t) && Ordered(t) && k in Keys(t)
    ensures Insert(t, k) == t
  {
    match t
    case Node(l, key, rt, _, _) =>
      if k < key {
        InsertPresent(l, k);
        RebalanceKeys(l, key, rt);
      } else if k > key {
        InsertPresent(rt, k);
        RebalanceKeys(l, key, rt);
      }
  }

  /**
   * `avl_delete` has set semantics: the result holds the old keys without `k`,
   * and stays ordered when the input was.
   */
  lemma {:induction false} DeleteKeys(t: Tree, k: int)
    requires Avl(t) && Ordered(t)
    ensures Keys(Delete(t, k)) == Keys(t) - {k}
    ensures Ordered(Delete(t, k))
    decreases t, 1
  {
    match t
    case Nil =>
    case Node(_, key, _, _, _) =>
      if k < key {
        DeleteLeftKeys(t, k);
      } else if k > key {
        DeleteRightKeys(t, k);
      } else {
        DeleteTopKeys(t);
      }
  }

  /** The case of `DeleteKeys` that descends to the left. */
  lemma {:induction false} DeleteLeftKeys(t: Tree, k: int)
    requires t.Node? && Avl(t) && Ordered(t) && k < t.key
    ensures Keys(Delete(t, k)) == Keys(t) - {k}
    ensures Ordered(Delete(t, k))
    decreases t, 0
  {
    var Node(l, key, rt, _, _) := t;
    var l' := Delete(l, k);
    DeleteKeys(l, k);
    RebalanceKeys(l', key, rt);
    assert Delete(t, k) == Rebalance(l', key, rt);
    assert Ordered(Recomputed(l', key, rt));
  }

  /** The case of `DeleteKeys` that descends to the right. */
  lemma {:induction false} DeleteRightKeys(t: Tree, k: int)
    requires t.Node? && Avl(t) && Ordered(t) && k > t.key
    ensures Keys(Delete(t, k)) == Keys(t) - {k}
    ensures Ordered(Delete(t, k))
    decreases t, 0
  {
    var Node(l, key, rt, _, _) := t;
    var rt' := Delete(rt, k);
    DeleteKeys(rt, k);
    RebalanceKeys(l, key, rt');
    assert Delete(t, k) == Rebalance(l, key, rt');
    assert Ordered(Recomputed(l, key, rt'));
  }

  /** The matching-node case of `DeleteKeys`. */
  lemma {:induction false} DeleteTopKeys(t: Tree)
    requires t.Node? && Avl(t) && Ordered(t)
    ensures Keys(Delete(t, t.key)) == Keys(t) - {t.key}
    ensures Ordered(Delete(t, t.key))
    decreases t, 0
  {
    var Node(l, key, rt, _, _) := t;
    assert key !in Keys(l) && key !in Keys(rt);
    if l.Nil? {
      assert Delete(t, key) == rt;
    } else if rt.Nil? {
      assert Delete(t, key) == l;
    } else {
      var m := LeftmostKey(rt);
      var rt' := Delete(rt, m);
      DeleteKeys(rt, m);
      RebalanceKeys(l, m, rt');
      assert Delete(t, key) == Rebalance(l, m, rt');
      assert m !in Keys(l);
      assert Keys(l) + {m} + (Keys(rt) - {m}) == Keys(t) - {key};
      assert forall x | x in Keys(l) :: x < m by {
        assert key < m;
      }
      StrictlyAboveLeast(Keys(rt), m);
      assert Ordered(Recomputed(l, m, rt'));
    }
  }

  /** Removing the least element of a set leaves only elements above it. */
  lemma StrictlyAboveLeast(s: set<int>, m: int)
    requires forall x | x in s :: m <= x
    ensures forall x | x in s - {m} :: m < x
  {
  }

  /** Deleting a key that is not present returns the tree unchanged. */
  lemma {:induction false} DeleteAbsent(t: Tree, k: int)
    requires Avl(t) && k !in Keys(t)
    ensures Delete(t, k) == t
  {
    match t
    case Nil =>
    case Node(l, key, rt, _, _) =>
      assert t == Recomputed(l, key, rt);
      if k < key {
        DeleteAbsent(l, k);
        assert Delete(t, k) == Rebalance(l, key, rt);
      } else {
        DeleteAbsent(rt, k);
        assert Delete(t, k) == Rebalance(l, key, rt);
      }
  }

  /** Inserting a new key and deleting it again restores the key set. */
  lemma InsertThenDelete(t: Tree, k: int)
    requires Avl(t) && Ordered(t) && k !in Keys(t)
    ensures Keys(Delete(Insert(t, k), k)) == Keys(t)
  {
    InsertKeys(t, k);
    DeleteKeys(Insert(t, k), k);
  }

  /** No node's status is DOUBLY_*, AVL_VIOLATIVE or AVL_INVALID. */
  predicate Settled(t: Tree)
  {
    match t
    case Nil => true
    case Node(l, _, r, _, s) => Ordinal(s) < Ordinal(Violative) && Settled(l) && Settled(r)
  }

  /**
   * In a valid AVL tree every node's status is below AVL_VIOLATIVE, so the
   * debug assertions on entry to `avl_insert` and `avl_delete` hold at every
   * node those functions visit.
   */
  lemma {:induction false} AvlIsSettled(t: Tree)
    requires Avl(t)
    ensures Settled(t)
  {
    match t
    case Nil =>
    case Node(l, _, r, _, _) =>
      AvlIsSettled(l);
      AvlIsSettled(r);
  }

  /** The height of a tree computed from its shape (-1 when empty). */
  function Depth(t: Tree): int
  {
    match t
    case Nil => -1
    case Node(l, _, r, _, _) => 1 + Larger(Depth(l), Depth(r))
  }

  /** In a valid AVL tree the cached `height` is the real height. */
  lemma {:induction false} CachedHeightIsDepth(t: Tree)
    requires Avl(t)
    ensures Height(t) == Depth(t)
  {
    match t
    case Nil =>
    case Node(l, _, r, _, _) =>
      CachedHeightIsDepth(l);
      CachedHeightIsDepth(r);
  }

  /** The fewest nodes an AVL tree of height `h` can have. */
  function MinSize(h: int): nat
    decreases h
  {
    if h < 1 then (if h < 0 then 0 else 1) else 1 + MinSize(h - 1) + MinSize(h - 2)
  }

  lemma {:induction false} MinSizeMonotone(g: int, h: int)
    requires g <= h
    ensures MinSize(g) <= MinSize(h)
    decreases h - g
  {
    if g < h {
      MinSizeMonotone(g, h - 1);
    }
  }

  function Pow2(n: nat): nat
  {
    if n == 0 then 1 else 2 * Pow2(n - 1)
  }

  lemma {:induction false} MinSizeExponential(h: int)
    requires h >= -1
    ensures MinSize(h) + 1 >= Pow2((h + 1) / 2)
    decreases h
  {
    if h >= 1 {
      MinSizeExponential(h - 2);
      MinSizeMonotone(h - 2, h - 1);
      assert (h + 1) / 2 == (h - 1) / 2 + 1;
    }
  }

  lemma {:induction false} AvlSizeAtLeastMinSize(t: Tree)
    requires Avl(t)
    ensures Size(t) >= MinSize(Height(t))
  {
    match t
    case Nil =>
    case Node(l, _, r, h, _) =>
      AvlSizeAtLeastMinSize(l);
      AvlSizeAtLeastMinSize(r);
      if Height(l) >= Height(r) {
        MinSizeMonotone(h - 2, Height(r));
      } else {
        MinSizeMonotone(h - 2, Height(l));
      }
  }

  /**
   * Height is logarithmic in the number of keys: a valid AVL tree of height
   * `h` holds at least 2^((h+1)/2) - 1 keys, so h <= 2 log2(n + 1).
   */
  lemma LogarithmicHeight(t: Tree)
    requires Avl(t)
    ensures Size(t) + 1 >= Pow2((Height(t) + 1) / 2)
  {
    AvlSizeAtLeastMinSize(t);
    MinSizeExponential(Height(t));
  }

  /** The keys of `s` strictly less than `k`: the candidates for a predecessor of `k`. */
  function Below(s: set<int>, k: int): set<int>
  {
    set x | x in s && x < k
  }

  /** The keys of `s` strictly greater than `k`: the candidates for a successor of `k`. */
  function Above(s: set<int>, k: int): set<int>
  {
    set x | x in s && k < x
  }
}
