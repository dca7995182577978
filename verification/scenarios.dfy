/**
  Insertion sequences and the trees they build: the boundary heights, the
  two rotation cases that end in the same three-node tree, an already
  balanced order, and ascending keys, where the unbalanced map degenerates
  into a chain while the AVL map stays shallow. The keys are any keys in the
  stated order; the values stand for the records the keys index.
*/
module Scenarios {
  import opened KeyOrder
  import opened Entries
  import Bst
  import Avl

  /** Loading entries one after another into the unbalanced map: from an
      ordered tree, every sequence of insertions keeps the order, and the
      contents are the puts applied in turn. */
  ghost function BstInsertAll<V>(t: Bst.Tree<V>, es: seq<Entry<V>>): (r: Bst.Tree<V>)
    ensures Bst.Ordered(t) ==> Bst.Ordered(r)
    ensures Bst.Ordered(t) ==> Bst.InorderRecursive(r) == PutAll(Bst.InorderRecursive(t), es)
    decreases |es|
  {
    if es == [] then t
    else if Bst.Ordered(t) then
      Bst.InsertIsPut(t, es[0].0, es[0].1);
      BstInsertAll(Bst.InsertRecursive(t, es[0].0, es[0].1), es[1..])
    else
      BstInsertAll(Bst.InsertRecursive(t, es[0].0, es[0].1), es[1..])
  }

  /** Loading entries one after another into the AVL map. */
  function AvlInsertAll<V>(t: Avl.Tree<V>, es: seq<Entry<V>>): (r: Avl.Tree<V>)
    requires Avl.IsAvl(t)
    ensures Avl.IsAvl(r)
    ensures Avl.InorderRecursive(r) == PutAll(Avl.InorderRecursive(t), es)
    decreases |es|
  {
    if es == [] then t else AvlInsertAll(Avl.InsertRecursive(t, es[0].0, es[0].1), es[1..])
  }

  /** The entry list after a sequence of puts. */
  function PutAll<V>(s: seq<Entry<V>>, es: seq<Entry<V>>): seq<Entry<V>>
    decreases |es|
  {
    if es == [] then s else PutAll(Put(s, es[0].0, es[0].1), es[1..])
  }

  /** Putting keys that come after every present key appends them. */
  lemma {:induction false} PutAllAscending<V>(s: seq<Entry<V>>, es: seq<Entry<V>>)
    requires Ascending(s + es)
    ensures PutAll(s, es) == s + es
    decreases |es|
  {
    if es != [] {
      assert s + es == s + [es[0]] + es[1..];
      forall i | 0 <= i < |s| ensures Less(s[i].0, es[0].0) {
        assert (s + es)[i] == s[i] && (s + es)[|s|] == es[0];
      }
      PutAfter(s, [], es[0].0, es[0].1);
      assert s + [] == s;
      PutAllAscending(s + [es[0]], es[1..]);
    }
  }

  /** An empty map has height -1; one key makes it 0. */
  lemma BoundaryHeights<V>(k: Key, v: V)
    ensures Bst.HeightOf<V>(Bst.Nil) == -1
    ensures Bst.HeightOf(Bst.InsertRecursive(Bst.Nil, k, v)) == 0
    ensures Avl.HeightOf<V>(Avl.Nil) == -1
    ensures Avl.HeightOf(Avl.InsertRecursive(Avl.Nil, k, v)) == 0
  {
  }

  /** A valid AVL tree holding three entries is the middle entry over the
      other two, with height 1. */
  lemma ThreeEntryTree<V>(t: Avl.Tree<V>)
    requires Avl.IsAvl(t) && |Avl.InorderRecursive(t)| == 3
    ensures var s := Avl.InorderRecursive(t);
      t == Avl.Node(Avl.Node(Avl.Nil, s[0].0, s[0].1, Avl.Nil, 0), s[1].0, s[1].1,
                    Avl.Node(Avl.Nil, s[2].0, s[2].1, Avl.Nil, 0), 1)
  {
    Avl.SizeBounds(t);
    Avl.SizeIsLength(t);
    if Avl.HeightOf(t) >= 2 {
      Avl.SizesGrow(2, Avl.HeightOf(t));
    }
    var Node(l, _, _, r, _) := t;
    Avl.SizeBounds(l);
    Avl.SizeIsLength(l);
    Avl.SizeBounds(r);
    Avl.SizeIsLength(r);
    assert |Avl.InorderRecursive(l)| == 1 && |Avl.InorderRecursive(r)| == 1;
    assert Avl.InorderRecursive(l.left) == [] && Avl.InorderRecursive(l.right) == [];
    assert Avl.InorderRecursive(r.left) == [] && Avl.InorderRecursive(r.right) == [];
    assert l.left.Nil? && l.right.Nil? && r.left.Nil? && r.right.Nil?;
    assert Avl.HeightsOk(l) && Avl.HeightsOk(r);
    assert Avl.HeightOf(l) == 0 && Avl.HeightOf(r) == 0 && Avl.HeightOf(t) == 1;
    assert Avl.InorderRecursive(t) == [(l.key, l.value), (t.key, t.value), (r.key, r.value)];
  }

  /** Three insertions into the empty AVL map build the middle entry of the
      resulting list over the other two. */
  lemma ThreeInserts<V>(x: Entry<V>, y: Entry<V>, z: Entry<V>, s: seq<Entry<V>>)
    requires Put(Put(Put([], x.0, x.1), y.0, y.1), z.0, z.1) == s && |s| == 3
    ensures var t := Avl.InsertRecursive(Avl.InsertRecursive(Avl.InsertRecursive(Avl.Nil, x.0, x.1), y.0, y.1), z.0, z.1);
      t == Avl.Node(Avl.Node(Avl.Nil, s[0].0, s[0].1, Avl.Nil, 0), s[1].0, s[1].1,
                    Avl.Node(Avl.Nil, s[2].0, s[2].1, Avl.Nil, 0), 1)
  {
    ThreeEntryTree(Avl.InsertRecursive(Avl.InsertRecursive(Avl.InsertRecursive(Avl.Nil, x.0, x.1), y.0, y.1), z.0, z.1));
  }

  /** Inserting c, b, a with a < b < c into the AVL map: the left-left case,
      one right rotation, root b over a and c, height 1. */
  lemma LeftLeftCase<V>(a: Key, b: Key, c: Key, va: V, vb: V, vc: V)
    requires Less(a, b) && Less(b, c)
    ensures var t := Avl.InsertRecursive(Avl.InsertRecursive(Avl.InsertRecursive(Avl.Nil, c, vc), b, vb), a, va);
      t == Avl.Node(Avl.Node(Avl.Nil, a, va, Avl.Nil, 0), b, vb, Avl.Node(Avl.Nil, c, vc, Avl.Nil, 0), 1)
  {
    LessTransitive(a, b, c);
    assert Put([], c, vc) == [(c, vc)];
    assert Put([(c, vc)], b, vb) == [(b, vb)] + [(c, vc)];
    assert Put([(b, vb), (c, vc)], a, va) == [(a, va)] + [(b, vb), (c, vc)];
    assert Put([(b, vb), (c, vc)], a, va) == [(a, va), (b, vb), (c, vc)];
    ThreeInserts((c, vc), (b, vb), (a, va), [(a, va), (b, vb), (c, vc)]);
  }

  /** Inserting a, c, b with a < b < c into the AVL map: the right-left
      case, two rotations, and the same shape as the left-left case. */
  lemma RightLeftCase<V>(a: Key, b: Key, c: Key, va: V, vb: V, vc: V)
    requires Less(a, b) && Less(b, c)
    ensures var t := Avl.InsertRecursive(Avl.InsertRecursive(Avl.InsertRecursive(Avl.Nil, a, va), c, vc), b, vb);
      t == Avl.Node(Avl.Node(Avl.Nil, a, va, Avl.Nil, 0), b, vb, Avl.Node(Avl.Nil, c, vc, Avl.Nil, 0), 1)
  {
    LessTransitive(a, b, c);
    LessAsymmetric(a, b);
    LessAsymmetric(b, c);
    LessAsymmetric(a, c);
    assert Put([], a, va) == [(a, va)];
    assert Put([(a, va)], c, vc) == [(a, va)] + Put([], c, vc);
    assert Put([(a, va), (c, vc)], b, vb) == [(a, va)] + Put([(c, vc)], b, vb);
    assert Put([(c, vc)], b, vb) == [(b, vb)] + [(c, vc)];
    assert Put([(a, va), (c, vc)], b, vb) == [(a, va), (b, vb), (c, vc)];
    ThreeInserts((a, va), (c, vc), (b, vb), [(a, va), (b, vb), (c, vc)]);
  }

  /** The keys "C", "B", "A" in that order: root "B" over "A" and "C". */
  lemma LeftLeftExample()
    ensures var t := Avl.InsertRecursive(Avl.InsertRecursive(Avl.InsertRecursive(Avl.Nil, "C", 1), "B", 2), "A", 3);
      t == Avl.Node(Avl.Node(Avl.Nil, "A", 3, Avl.Nil, 0), "B", 2, Avl.Node(Avl.Nil, "C", 1, Avl.Nil, 0), 1)
      && Avl.HeightOf(t) == 1
  {
    assert Less("A", "B") && Less("B", "C");
    LeftLeftCase("A", "B", "C", 3, 2, 1);
  }

  /** The keys "A", "C", "B" in that order: the same tree. */
  lemma RightLeftExample()
    ensures var t := Avl.InsertRecursive(Avl.InsertRecursive(Avl.InsertRecursive(Avl.Nil, "A", 1), "C", 2), "B", 3);
      t == Avl.Node(Avl.Node(Avl.Nil, "A", 1, Avl.Nil, 0), "B", 3, Avl.Node(Avl.Nil, "C", 2, Avl.Nil, 0), 1)
      && Avl.HeightOf(t) == 1
  {
    assert Less("A", "B") && Less("B", "C");
    RightLeftCase("A", "B", "C", 1, 3, 2);
  }

  /** Inserting b, a, c with a < b < c into the unbalanced map: b over a
      and c, height 1, traversal a, b, c. */
  lemma BstBalancedOrder<V>(a: Key, b: Key, c: Key, va: V, vb: V, vc: V)
    requires Less(a, b) && Less(b, c)
    ensures var t := Bst.InsertRecursive(Bst.InsertRecursive(Bst.InsertRecursive(Bst.Nil, b, vb), a, va), c, vc);
      Bst.HeightOf(t) == 1 && Bst.InorderRecursive(t) == [(a, va), (b, vb), (c, vc)]
  {
    LessAsymmetric(a, b);
    LessAsymmetric(b, c);
    var u1 := Bst.InsertRecursive(Bst.Nil, b, vb);
    assert u1 == Bst.Node(Bst.Nil, b, vb, Bst.Nil);
    var u2 := Bst.InsertRecursive(u1, a, va);
    assert u2.left == Bst.InsertRecursive(Bst.Nil, a, va);
    assert u2 == Bst.Node(Bst.Node(Bst.Nil, a, va, Bst.Nil), b, vb, Bst.Nil);
    var u := Bst.InsertRecursive(u2, c, vc);
    assert u.right == Bst.InsertRecursive(Bst.Nil, c, vc);
    assert u == Bst.Node(Bst.Node(Bst.Nil, a, va, Bst.Nil), b, vb, Bst.Node(Bst.Nil, c, vc, Bst.Nil));
    assert Bst.InorderRecursive(u.left) == [(a, va)];
    assert Bst.InorderRecursive<V>(Bst.Nil) == [];
    assert Bst.InorderRecursive(u.right) == [] + [(c, vc)] + [];
  }

  /** Inserting b, a, c with a < b < c (an order that is already balanced):
      both maps report height 1 and traverse a, b, c. */
  lemma BalancedOrder<V>(a: Key, b: Key, c: Key, va: V, vb: V, vc: V)
    requires Less(a, b) && Less(b, c)
    ensures var t := Bst.InsertRecursive(Bst.InsertRecursive(Bst.InsertRecursive(Bst.Nil, b, vb), a, va), c, vc);
      Bst.HeightOf(t) == 1 && Bst.InorderRecursive(t) == [(a, va), (b, vb), (c, vc)]
    ensures var t := Avl.InsertRecursive(Avl.InsertRecursive(Avl.InsertRecursive(Avl.Nil, b, vb), a, va), c, vc);
      Avl.HeightOf(t) == 1 && Avl.InorderRecursive(t) == [(a, va), (b, vb), (c, vc)]
  {
    BstBalancedOrder(a, b, c, va, vb, vc);
    BalancedPuts(a, b, c, va, vb, vc);
    ThreeInserts((b, vb), (a, va), (c, vc), [(a, va), (b, vb), (c, vc)]);
  }

  /** Putting b, a, c with a < b < c lists a, b, c. */
  lemma BalancedPuts<V>(a: Key, b: Key, c: Key, va: V, vb: V, vc: V)
    requires Less(a, b) && Less(b, c)
    ensures Put(Put(Put([], b, vb), a, va), c, vc) == [(a, va), (b, vb), (c, vc)]
  {
    LessTransitive(a, b, c);
    LessAsymmetric(a, b);
    LessAsymmetric(b, c);
    assert Put([], b, vb) == [(b, vb)];
    assert Put([(b, vb)], a, va) == [(a, va)] + [(b, vb)];
    assert Put([(a, va), (b, vb)], c, vc) == [(a, va)] + Put([(b, vb)], c, vc);
    assert Put([(b, vb)], c, vc) == [(b, vb)] + Put([], c, vc);
  }

  /** The keys "B", "A", "C" in that order: height 1 and traversal
      "A", "B", "C" in both maps. */
  lemma BalancedOrderExample()
    ensures var t := Bst.InsertRecursive(Bst.InsertRecursive(Bst.InsertRecursive(Bst.Nil, "B", 1), "A", 2), "C", 3);
      Bst.HeightOf(t) == 1 && Bst.InorderRecursive(t) == [("A", 2), ("B", 1), ("C", 3)]
    ensures var t := Avl.InsertRecursive(Avl.InsertRecursive(Avl.InsertRecursive(Avl.Nil, "B", 1), "A", 2), "C", 3);
      Avl.HeightOf(t) == 1 && Avl.InorderRecursive(t) == [("A", 2), ("B", 1), ("C", 3)]
  {
    assert Less("A", "B") && Less("B", "C");
    BalancedOrder("A", "B", "C", 2, 1, 3);
  }

  /** A tree whose every node has an empty left subtree. */
  ghost predicate RightChain<V>(t: Bst.Tree<V>)
  {
    t.Nil? || (t.left.Nil? && RightChain(t.right))
  }

  /** A key above every key of a chain extends the chain by one level. */
  lemma {:induction false} ChainGrows<V>(t: Bst.Tree<V>, k: Key, v: V)
    requires RightChain(t) && forall j :: j in Bst.Keys(t) ==> Less(j, k)
    ensures RightChain(Bst.InsertRecursive(t, k, v))
    ensures Bst.HeightOf(Bst.InsertRecursive(t, k, v)) == Bst.HeightOf(t) + 1
  {
    if t.Node? {
      assert Less(t.key, k);
      LessAsymmetric(t.key, k);
      ChainGrows(t.right, k, v);
    }
  }

  /** Loading entries in ascending key order into the unbalanced map builds
      a chain one level per entry. */
  lemma {:induction false} AscendingChain<V>(t: Bst.Tree<V>, es: seq<Entry<V>>)
    requires RightChain(t) && Ascending(es)
    requires forall j, i :: j in Bst.Keys(t) && 0 <= i < |es| ==> Less(j, es[i].0)
    ensures RightChain(BstInsertAll(t, es))
    ensures Bst.HeightOf(BstInsertAll(t, es)) == Bst.HeightOf(t) + |es|
    decreases |es|
  {
    if es != [] {
      var k := es[0].0;
      ChainGrows(t, k, es[0].1);
      var t' := Bst.InsertRecursive(t, k, es[0].1);
      forall j, i | j in Bst.Keys(t') && 0 <= i < |es[1..]| ensures Less(j, es[1..][i].0) {
        assert es[1..][i] == es[i + 1];
        if j != k {
          assert j in Bst.Keys(t);
        }
      }
      AscendingChain(t', es[1..]);
    }
  }

  /** Loading five entries in ascending key order: the unbalanced map
      becomes a chain of height 4, the AVL map rebalances to height 2. */
  lemma AscendingKeys<V>(es: seq<Entry<V>>)
    requires Ascending(es) && |es| == 5
    ensures Bst.HeightOf(BstInsertAll(Bst.Nil, es)) == 4
    ensures Avl.HeightOf(AvlInsertAll(Avl.Nil, es)) == 2
    ensures Avl.InorderRecursive(AvlInsertAll(Avl.Nil, es)) == es
  {
    AscendingChain(Bst.Nil, es);
    AvlAscendingKeys(es);
  }

  /** The AVL half of `AscendingKeys`. */
  lemma AvlAscendingKeys<V>(es: seq<Entry<V>>)
    requires Ascending(es) && |es| == 5
    ensures Avl.HeightOf(AvlInsertAll(Avl.Nil, es)) == 2
    ensures Avl.InorderRecursive(AvlInsertAll(Avl.Nil, es)) == es
  {
    var t := AvlInsertAll(Avl.Nil, es);
    assert [] + es == es;
    PutAllAscending([], es);
    Avl.SizeBounds(t);
    Avl.SizeIsLength(t);
    FiveNodesHeight(Avl.HeightOf(t));
  }

  /** Five nodes fit a balanced tree of height 2 only. */
  lemma FiveNodesHeight(h: int)
    requires Avl.MinSize(h) <= 5 <= Avl.MaxSize(h)
    ensures h == 2
  {
    if h >= 3 {
      Avl.SizesGrow(3, h);
    } else if h <= 1 {
      Avl.SizesGrow(h, 1);
    }
  }

  /** The keys "A" to "E" in ascending order: the unbalanced map reaches
      height 4, the AVL map height 2. */
  lemma AscendingKeysExample()
    ensures var es := [("A", 1), ("B", 2), ("C", 3), ("D", 4), ("E", 5)];
      Bst.HeightOf(BstInsertAll(Bst.Nil, es)) == 4 && Avl.HeightOf(AvlInsertAll(Avl.Nil, es)) == 2
  {
    var es := [("A", 1), ("B", 2), ("C", 3), ("D", 4), ("E", 5)];
    assert Less("A", "B") && Less("B", "C") && Less("C", "D") && Less("D", "E");
    LessTransitive("A", "B", "C");
    LessTransitive("A", "C", "D");
    LessTransitive("A", "D", "E");
    LessTransitive("B", "C", "D");
    LessTransitive("B", "D", "E");
    LessTransitive("C", "D", "E");
    assert Ascending(es);
    AscendingKeys(es);
  }
}
