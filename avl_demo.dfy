/**
 * The run of main.c: seven insertions into an empty tree and one deletion,
 * then every query, with the answers main.c prints.
 */
module AvlDemo {
  import opened AvlTree
  import H = AvlHeap

  /** An ascending sequence is determined by the keys it holds. */
  lemma {:induction false} IncreasingUnique(a: seq<int>, b: seq<int>)
    requires Increasing(a) && Increasing(b)
    requires forall x :: x in a <==> x in b
    ensures a == b
    decreases |a|
  {
    assert a != [] ==> a[0] in a;
    assert b != [] ==> b[0] in b;
    if a != [] {
      assert a[0] == b[0];
      forall x
        ensures x in a[1..] <==> x in b[1..]
      {
        assert x in a[1..] <==> x in a && x != a[0];
        assert x in b[1..] <==> x in b && x != b[0];
      }
      IncreasingUnique(a[1..], b[1..]);
      assert a == [a[0]] + a[1..] && b == [b[0]] + b[1..];
    }
  }

  /** Inserts `k` into the tree `t` stands for, carrying the key set and the order along. */
  method Add(t: H.AvlNode?, k: int, ghost T: set<object>, ghost m: Tree) returns (r: H.AvlNode, ghost m': Tree)
    requires H.Sub(t, T, m) && Avl(m) && Ordered(m)
    modifies T
    ensures H.Sub(r, r.Repr, m') && Avl(m') && Ordered(m') && Keys(m') == Keys(m) + {k}
    ensures fresh(r.Repr - T)
  {
    r := H.Insert(t, k, T, m);
    m' := AvlTree.Insert(m, k);
    InsertKeys(m, k);
  }

  /** Inserts the keys of `ks` one after the other into an empty tree. */
  method InsertAll(ks: seq<int>) returns (t: H.AvlNode?, ghost m: Tree)
    ensures H.Sub(t, H.ReprOf(t), m) && Avl(m) && Ordered(m)
    ensures Keys(m) == set x | x in ks
    ensures fresh(H.ReprOf(t))
  {
    t, m := null, Nil;
    for i := 0 to |ks|
      invariant H.Sub(t, H.ReprOf(t), m) && Avl(m) && Ordered(m)
      invariant Keys(m) == set x | x in ks[..i]
      invariant fresh(H.ReprOf(t))
    {
      var r;
      ghost var m';
      r, m' := Add(t, ks[i], H.ReprOf(t), m);
      t, m := r, m';
      assert ks[..i + 1] == ks[..i] + [ks[i]];
    }
    assert ks[..|ks|] == ks;
  }

  /** main.c, lines 13-22: the tree after the seven insertions and the deletion of 22. */
  method Build() returns (t: H.AvlNode?, ghost m: Tree)
    ensures H.Sub(t, H.ReprOf(t), m) && Avl(m) && Ordered(m)
    ensures Keys(m) == Final
  {
    ghost var full;
    t, full := InsertAll([23, 22, 15, 16, 4, 42, 8]);
    t := H.Delete(t, 22, H.ReprOf(t), full);
    m := AvlTree.Delete(full, 22);
    DeleteKeys(full, 22);
    FinalKeys(Keys(full));
  }

  lemma FinalKeys(s: set<int>)
    requires s == set x | x in [23, 22, 15, 16, 4, 42, 8]
    ensures s - {22} == Final
  {
  }

  /** The only ascending arrangement of the final keys. */
  lemma SortedFinal(s: seq<int>)
    requires Increasing(s) && forall x :: x in s <==> x in Final
    ensures s == [4, 8, 15, 16, 23, 42]
  {
    IncreasingUnique(s, [4, 8, 15, 16, 23, 42]);
  }

  /** The keys left after main.c's updates. */
  const Final: set<int> := {4, 8, 15, 16, 23, 42}

  /** main.c, line 24: `avl_min` prints 4. */
  method MinOfFinal(t: H.AvlNode?, ghost m: Tree) returns (min: int)
    requires H.Sub(t, H.ReprOf(t), m) && Ordered(m) && Keys(m) == Final
    ensures min == 4
  {
    assert m.Node? by { assert 4 in Keys(m); }
    min := H.Min(t, H.ReprOf(t), m);
    assert 4 in Keys(m);
  }

  /** main.c, line 25: `avl_max` prints 42. */
  method MaxOfFinal(t: H.AvlNode?, ghost m: Tree) returns (max: int)
    requires H.Sub(t, H.ReprOf(t), m) && Ordered(m) && Keys(m) == Final
    ensures max == 42
  {
    assert m.Node? by { assert 42 in Keys(m); }
    max := H.Max(t, H.ReprOf(t), m);
    assert 42 in Keys(m);
  }

  /** main.c, line 27: `avl_traverse` hands the keys to the callback as 4 8 15 16 23 42. */
  method TraverseFinal(t: H.AvlNode?, ghost m: Tree) returns (keys: seq<int>)
    requires H.Sub(t, H.ReprOf(t), m) && Ordered(m) && Keys(m) == Final
    ensures keys == [4, 8, 15, 16, 23, 42]
  {
    keys := H.Traverse(t);
    SortedFinal(keys);
  }

  /** main.c, line 29: `avl_predecessor(t, 15)` prints 8. */
  method PredecessorInFinal(t: H.AvlNode?, ghost m: Tree) returns (pred: int)
    requires H.Sub(t, H.ReprOf(t), m) && Ordered(m) && Keys(m) == Final
    ensures pred == 8
  {
    pred := H.Predecessor(t, 15, H.ReprOf(t), m);
    assert 8 in Below(Keys(m), 15);
  }

  /** main.c, line 30: `avl_successor(t, 17)` prints 23. */
  method SuccessorInFinal(t: H.AvlNode?, ghost m: Tree) returns (succ: int)
    requires H.Sub(t, H.ReprOf(t), m) && Ordered(m) && Keys(m) == Final
    ensures succ == 23
  {
    succ := H.Successor(t, 17, H.ReprOf(t), m);
    assert 23 in Above(Keys(m), 17);
  }

  /** main.c, lines 13-30: the whole run, with the answers main.c prints. */
  method Scenario() returns (min: int, max: int, keys: seq<int>, pred: int, succ: int)
    ensures min == 4 && max == 42 && keys == [4, 8, 15, 16, 23, 42] && pred == 8 && succ == 23
  {
    var t, m := Build();
    min := MinOfFinal(t, m);
    max := MaxOfFinal(t, m);
    keys := TraverseFinal(t, m);
    pred := PredecessorInFinal(t, m);
    succ := SuccessorInFinal(t, m);
  }
}
