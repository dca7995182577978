/**
  `AVLTreeMap` of search_trees.py: a height-balanced search tree map whose
  nodes cache their height. As for the unbalanced map, the in-place node
  updates are modelled by building the updated nodes (no node is shared),
  and the map object is the class `AvlTreeMap`.

  The read-only operations are the same code as in the unbalanced map; they
  are defined again here over the AVL node type, and `EraseAgrees` shows
  they compute what the unbalanced map's do on the same shape, so the
  search-tree order and key set are taken from there.
*/
module Avl {
  import opened Wrappers
  import opened KeyOrder
  import opened Entries
  import Bst

  datatype Tree<V> = Nil | Node(left: Tree<V>, key: Key, value: V, right: Tree<V>, height: int)

  /** The tree without its cached heights. */
  function Erase<V>(t: Tree<V>): Bst.Tree<V>
  {
    match t
    case Nil => Bst.Nil
    case Node(l, k, v, r, _) => Bst.Node(Erase(l), k, v, Erase(r))
  }

  function Keys<V>(t: Tree<V>): set<Key>
  {
    Bst.Keys(Erase(t))
  }

  ghost predicate Ordered<V>(t: Tree<V>)
  {
    Bst.Ordered(Erase(t))
  }

  /** `_search_recursive`: a value is found only under a stored key. */
  function SearchRecursive<V>(t: Tree<V>, k: Key): (r: Option<V>)
    ensures r.Some? ==> k in Keys(t)
  {
    match t
    case Nil => None
    case Node(l, nk, nv, rt, _) =>
      if Less(k, nk) then SearchRecursive(l, k)
      else if Less(nk, k) then SearchRecursive(rt, k)
      else
        LessTrichotomous(k, nk);
        Some(nv)
  }

  /** `_inorder_recursive`: it yields exactly the keys stored in the tree. */
  function InorderRecursive<V>(t: Tree<V>): (s: seq<Entry<V>>)
    ensures KeysOf(s) == Keys(t)
  {
    match t
    case Nil => []
    case Node(l, k, v, r, _) =>
      KeysOfSplit(InorderRecursive(l), (k, v), InorderRecursive(r));
      InorderRecursive(l) + [(k, v)] + InorderRecursive(r)
  }

  /** The nested `_height` of `height()`: computed from the structure, never
      from the cached field. */
  function HeightOf<V>(t: Tree<V>): (h: int)
    ensures h >= -1
    ensures h == -1 <==> t.Nil?
  {
    match t
    case Nil => -1
    case Node(l, _, _, r, _) => 1 + Bst.Max(HeightOf(l), HeightOf(r))
  }

  /** Search, traversal and height of an AVL tree are those of the
      unbalanced map on the same shape. */
  lemma {:induction false} EraseAgrees<V>(t: Tree<V>, j: Key)
    ensures SearchRecursive(t, j) == Bst.SearchRecursive(Erase(t), j)
    ensures InorderRecursive(t) == Bst.InorderRecursive(Erase(t))
    ensures HeightOf(t) == Bst.HeightOf(Erase(t))
  {
    if t.Node? {
      EraseAgrees(t.left, j);
      EraseAgrees(t.right, j);
    }
  }

  /** `_get_height`: the cached height, -1 for an absent node; when every
      cache is correct, the structural height. */
  function GetHeight<V>(t: Tree<V>): (h: int)
    ensures HeightsOk(t) ==> h == HeightOf(t)
  {
    if t.Node? then t.height else -1
  }

  /** `_get_balance`: when the caches are correct, the difference of the
      subtrees' structural heights, which the AVL bound keeps in [-1, 1]. */
  function GetBalance<V>(t: Tree<V>): (b: int)
    requires t.Node?
    ensures HeightsOk(t) ==> b == HeightOf(t.left) - HeightOf(t.right)
    ensures HeightsOk(t) && Balanced(t) ==> -1 <= b <= 1
  {
    GetHeight(t.left) - GetHeight(t.right)
  }

  /** Every node's cached height is its structural height. */
  ghost predicate HeightsOk<V>(t: Tree<V>)
  {
    match t
    case Nil => true
    case Node(l, _, _, r, h) => HeightsOk(l) && HeightsOk(r) && h == HeightOf(t)
  }

  /** The AVL balance bound at every node. */
  ghost predicate Balanced<V>(t: Tree<V>)
  {
    match t
    case Nil => true
    case Node(l, _, _, r, _) =>
      Balanced(l) && Balanced(r) && -1 <= HeightOf(l) - HeightOf(r) <= 1
  }

  /** The invariant `AVLTreeMap` keeps between calls. */
  ghost predicate IsAvl<V>(t: Tree<V>)
  {
    Ordered(t) && HeightsOk(t) && Balanced(t)
  }

  /** `_rotate_left`: the right child `y` becomes the root, `z` its left
      child, and `y`'s old left subtree `T2` moves under `z`; the heights of
      `z` and then `y` are recomputed from their children's cached heights. */
  function RotateLeft<V>(z: Tree<V>): (r: Tree<V>)
    requires z.Node? && z.right.Node?
    ensures InorderRecursive(r) == InorderRecursive(z)
    ensures HeightsOk(z.left) && HeightsOk(z.right.left) && HeightsOk(z.right.right) ==> HeightsOk(r)
  {
    var y := z.right;
    var t2 := y.left;
    var z' := Node(z.left, z.key, z.value, t2, 1 + Bst.Max(GetHeight(z.left), GetHeight(t2)));
    var a, b, c := InorderRecursive(z.left), InorderRecursive(t2), InorderRecursive(y.right);
    assert (a + [(z.key, z.value)] + b) + [(y.key, y.value)] + c
        == a + [(z.key, z.value)] + (b + [(y.key, y.value)] + c);
    Node(z', y.key, y.value, y.right, 1 + Bst.Max(GetHeight(z'), GetHeight(y.right)))
  }

  /** `_rotate_right`: the mirror image of `RotateLeft`. */
  function RotateRight<V>(z: Tree<V>): (r: Tree<V>)
    requires z.Node? && z.left.Node?
    ensures InorderRecursive(r) == InorderRecursive(z)
    ensures HeightsOk(z.left.left) && HeightsOk(z.left.right) && HeightsOk(z.right) ==> HeightsOk(r)
  {
    var y := z.left;
    var t3 := y.right;
    var z' := Node(t3, z.key, z.value, z.right, 1 + Bst.Max(GetHeight(t3), GetHeight(z.right)));
    var a, b, c := InorderRecursive(y.left), InorderRecursive(t3), InorderRecursive(z.right);
    assert a + [(y.key, y.value)] + (b + [(z.key, z.value)] + c)
        == (a + [(y.key, y.value)] + b) + [(z.key, z.value)] + c;
    Node(y.left, y.key, y.value, z', 1 + Bst.Max(GetHeight(y.left), GetHeight(z')))
  }

  /** The nodes each rotation case dereferences exist. */
  predicate Rotatable<V>(n: Tree<V>, k: Key)
    requires n.Node?
  {
    && (GetBalance(n) > 1 ==> n.left.Node? && (Less(n.left.key, k) ==> n.left.right.Node?))
    && (GetBalance(n) < -1 ==> n.right.Node? && (Less(k, n.right.key) ==> n.right.left.Node?))
  }

  /** The tail of `_insert_recursive` once the child has been reassigned:
      recompute the node's height, then apply the rotation case the balance
      factor and the inserted key select (LL, RR, LR, RL), or none. */
  function Rebalance<V>(n: Tree<V>, k: Key): (r: Tree<V>)
    requires n.Node? && Rotatable(n, k)
    ensures InorderRecursive(r) == InorderRecursive(n)
  {
    var node := n.(height := 1 + Bst.Max(GetHeight(n.left), GetHeight(n.right)));
    var balance := GetBalance(node);
    if balance > 1 && Less(k, node.left.key) then
      RotateRight(node)
    else if balance < -1 && Less(node.right.key, k) then
      RotateLeft(node)
    else if balance > 1 && Less(node.left.key, k) then
      RotateRight(node.(left := RotateLeft(node.left)))
    else if balance < -1 && Less(k, node.right.key) then
      RotateLeft(node.(right := RotateRight(node.right)))
    else
      node
  }

  /** `t` has just grown by one level from an insertion of `k`, and leans
      towards the side `k` went: the shape that a single rotation (key on
      the outer side) or a double rotation (inner side) repairs. */
  ghost predicate Grown<V>(t: Tree<V>, k: Key)
  {
    t.Node? &&
    ((Less(k, t.key) && HeightOf(t.left) == HeightOf(t.right) + 1) ||
     (Less(t.key, k) && HeightOf(t.right) == HeightOf(t.left) + 1))
  }

  /** `_insert_recursive`. The precondition is the map's invariant: on a
      tree that breaks it the rotation cases can dereference a missing
      child. */
  function InsertRecursive<V>(t: Tree<V>, k: Key, v: V): (r: Tree<V>)
    requires IsAvl(t)
    ensures IsAvl(r)
    ensures InorderRecursive(r) == Put(InorderRecursive(t), k, v)
    ensures HeightOf(t) <= HeightOf(r) <= HeightOf(t) + 1
    ensures t.Node? && HeightOf(r) == HeightOf(t) + 1 ==> Grown(r, k)
  {
    match t
    case Nil => Node(Nil, k, v, Nil, 0)
    case Node(l, nk, nv, rt, h) =>
      if Less(k, nk) then
        var n := Node(InsertRecursive(l, k, v), nk, nv, rt, h);
        InsertStep(t, n, k, v);
        Rebalance(n, k)
      else if Less(nk, k) then
        var n := Node(l, nk, nv, InsertRecursive(rt, k, v), h);
        InsertStep(t, n, k, v);
        Rebalance(n, k)
      else
        ReplaceValue(t, k, v);
        Node(l, nk, v, rt, h)
  }

  /** What an insertion of `k` into `t` returning `r` guarantees. */
  ghost predicate Inserted<V>(t: Tree<V>, r: Tree<V>, k: Key, v: V)
  {
    && IsAvl(r)
    && InorderRecursive(r) == Put(InorderRecursive(t), k, v)
    && HeightOf(t) <= HeightOf(r) <= HeightOf(t) + 1
    && (t.Node? && HeightOf(r) == HeightOf(t) + 1 ==> Grown(r, k))
  }

  lemma ReplaceValue<V>(t: Tree<V>, k: Key, v: V)
    requires IsAvl(t) && t.Node? && !Less(k, t.key) && !Less(t.key, k)
    ensures Inserted(t, Node(t.left, t.key, v, t.right, t.height), k, v)
  {
    LessTrichotomous(k, t.key);
    var r := Node(t.left, t.key, v, t.right, t.height);
    Bst.OrderedIffAscending(Erase(t));
    EraseAgrees(t, k);
    EraseAgrees(r, k);
    PutSplit(InorderRecursive(t.left), (t.key, t.value), InorderRecursive(t.right), k, v);
    Bst.OrderedIffAscending(Erase(r));
    KeysOfSplit(InorderRecursive(t.left), (t.key, t.value), InorderRecursive(t.right));
    KeysOfSplit(InorderRecursive(t.left), (t.key, v), InorderRecursive(t.right));
  }

  /** The induction step of `InsertRecursive`: `n` is `t` with one child
      replaced by the result of inserting `k` into it. */
  lemma InsertStep<V>(t: Tree<V>, n: Tree<V>, k: Key, v: V)
    requires IsAvl(t) && t.Node? && n.Node?
    requires n.key == t.key && n.value == t.value && n.height == t.height
    requires || (Less(k, t.key) && n.right == t.right && Inserted(t.left, n.left, k, v))
             || (Less(t.key, k) && n.left == t.left && Inserted(t.right, n.right, k, v))
    ensures Rotatable(n, k)
    ensures Inserted(t, Rebalance(n, k), k, v)
    ensures HeightOf(n.left) == HeightOf(t.left) && HeightOf(n.right) == HeightOf(t.right) ==>
      Rebalance(n, k) == n
  {
    var a, x, b := InorderRecursive(t.left), (t.key, t.value), InorderRecursive(t.right);
    Bst.OrderedIffAscending(Erase(t));
    EraseAgrees(t, k);
    EraseAgrees(n, k);
    PutSplit(a, x, b, k, v);
    if Less(k, t.key) {
      LessAsymmetric(k, t.key);
    }
    assert InorderRecursive(n) == Put(InorderRecursive(t), k, v);
    PutAscending(InorderRecursive(t), k, v);
    Bst.OrderedIffAscending(Erase(n));
    RebalanceRestores(n, k);
  }

  /** Rebalancing a node whose children are valid AVL trees, at most two
      levels apart, the taller having grown towards the inserted key,
      yields a valid AVL tree with the same entries: unchanged but for the
      recomputed height when the node was within the bound, one level lower
      when a rotation fired. */
  lemma RebalanceRestores<V>(n: Tree<V>, k: Key)
    requires n.Node? && Ordered(n) && IsAvl(n.left) && IsAvl(n.right)
    requires -2 <= HeightOf(n.left) - HeightOf(n.right) <= 2
    requires HeightOf(n.left) - HeightOf(n.right) == 2 ==> Grown(n.left, k)
    requires HeightOf(n.left) - HeightOf(n.right) == -2 ==> Grown(n.right, k)
    ensures Rotatable(n, k)
    ensures IsAvl(Rebalance(n, k))
    ensures -1 <= HeightOf(n.left) - HeightOf(n.right) <= 1 ==>
      Rebalance(n, k) == n.(height := HeightOf(n))
    ensures HeightOf(n.left) - HeightOf(n.right) in {-2, 2} ==>
      HeightOf(Rebalance(n, k)) == HeightOf(n) - 1
  {
    RebalanceBalances(n, k);
    RebalanceOrdered(n, k);
  }

  /** The height half of `RebalanceRestores`: the caches come out correct
      and the balance bound holds, whatever the keys. */
  lemma RebalanceBalances<V>(n: Tree<V>, k: Key)
    requires n.Node?
    requires HeightsOk(n.left) && Balanced(n.left) && HeightsOk(n.right) && Balanced(n.right)
    requires -2 <= HeightOf(n.left) - HeightOf(n.right) <= 2
    requires HeightOf(n.left) - HeightOf(n.right) == 2 ==> Grown(n.left, k)
    requires HeightOf(n.left) - HeightOf(n.right) == -2 ==> Grown(n.right, k)
    ensures Rotatable(n, k)
    ensures HeightsOk(Rebalance(n, k)) && Balanced(Rebalance(n, k))
    ensures -1 <= HeightOf(n.left) - HeightOf(n.right) <= 1 ==>
      Rebalance(n, k) == n.(height := HeightOf(n))
    ensures HeightOf(n.left) - HeightOf(n.right) in {-2, 2} ==>
      HeightOf(Rebalance(n, k)) == HeightOf(n) - 1
  {
    assert GetHeight(n.left) == HeightOf(n.left) && GetHeight(n.right) == HeightOf(n.right);
    var node := n.(height := HeightOf(n));
    var bal := HeightOf(n.left) - HeightOf(n.right);
    assert GetBalance(node) == bal;
    if bal == 2 {
      if Less(k, n.left.key) {
        LessAsymmetric(k, n.left.key);
        assert Rebalance(n, k) == RotateRight(node);
        RotateRightRestores(node);
      } else {
        LessAsymmetric(n.left.key, k);
        assert Rebalance(n, k) == RotateRight(node.(left := RotateLeft(node.left)));
        RotateLeftRightRestores(node);
      }
    } else if bal == -2 {
      if Less(n.right.key, k) {
        LessAsymmetric(n.right.key, k);
        assert Rebalance(n, k) == RotateLeft(node);
        RotateLeftRestores(node);
      } else {
        LessAsymmetric(k, n.right.key);
        assert Rebalance(n, k) == RotateLeft(node.(right := RotateRight(node.right)));
        RotateRightLeftRestores(node);
      }
    } else {
      assert Rebalance(n, k) == node;
    }
  }

  /** Rebalancing keeps the entries, so it keeps the search-tree order. */
  lemma RebalanceOrdered<V>(n: Tree<V>, k: Key)
    requires n.Node? && Rotatable(n, k) && Ordered(n)
    ensures Ordered(Rebalance(n, k))
  {
    var r := Rebalance(n, k);
    EraseAgrees(n, k);
    EraseAgrees(r, k);
    Bst.OrderedIffAscending(Erase(n));
    Bst.OrderedIffAscending(Erase(r));
  }

  /** Case LL: a single right rotation repairs a left child two levels too
      tall that leans left. */
  lemma RotateRightRestores<V>(z: Tree<V>)
    requires z.Node? && z.left.Node?
    requires HeightsOk(z.left) && Balanced(z.left) && HeightsOk(z.right) && Balanced(z.right)
    requires HeightOf(z.left) == HeightOf(z.right) + 2
    requires HeightOf(z.left.left) == HeightOf(z.left.right) + 1
    ensures HeightsOk(RotateRight(z)) && Balanced(RotateRight(z))
    ensures HeightOf(RotateRight(z)) == HeightOf(z.right) + 2
  {
  }

  /** Case RR: the mirror image of LL. */
  lemma RotateLeftRestores<V>(z: Tree<V>)
    requires z.Node? && z.right.Node?
    requires HeightsOk(z.left) && Balanced(z.left) && HeightsOk(z.right) && Balanced(z.right)
    requires HeightOf(z.right) == HeightOf(z.left) + 2
    requires HeightOf(z.right.right) == HeightOf(z.right.left) + 1
    ensures HeightsOk(RotateLeft(z)) && Balanced(RotateLeft(z))
    ensures HeightOf(RotateLeft(z)) == HeightOf(z.left) + 2
  {
  }

  /** Case LR: rotating the left child left and then the node right repairs
      a left child two levels too tall that leans right. */
  lemma RotateLeftRightRestores<V>(z: Tree<V>)
    requires z.Node? && z.left.Node? && z.left.right.Node?
    requires HeightsOk(z.left) && Balanced(z.left) && HeightsOk(z.right) && Balanced(z.right)
    requires HeightOf(z.left) == HeightOf(z.right) + 2
    requires HeightOf(z.left.right) == HeightOf(z.left.left) + 1
    ensures HeightsOk(RotateRight(z.(left := RotateLeft(z.left))))
    ensures Balanced(RotateRight(z.(left := RotateLeft(z.left))))
    ensures HeightOf(RotateRight(z.(left := RotateLeft(z.left)))) == HeightOf(z.right) + 2
  {
    var x, a, m, c := z.left, z.left.left, z.left.right, z.right;
    assert HeightsOk(m) && Balanced(m) && HeightsOk(a) && Balanced(a);
    RotateLeftShape(x);
    var yl := Node(a, x.key, x.value, m.left, 1 + Bst.Max(HeightOf(a), HeightOf(m.left)));
    JoinOk(a, x.key, x.value, m.left);
    var y := RotateLeft(x);
    JoinOk(m.right, z.key, z.value, c);
    RotateRightShape(z.(left := y));
    JoinOk(yl, m.key, m.value, Node(m.right, z.key, z.value, c, 1 + Bst.Max(HeightOf(m.right), HeightOf(c))));
  }

  /** Case RL: the mirror image of LR. */
  lemma RotateRightLeftRestores<V>(z: Tree<V>)
    requires z.Node? && z.right.Node? && z.right.left.Node?
    requires HeightsOk(z.left) && Balanced(z.left) && HeightsOk(z.right) && Balanced(z.right)
    requires HeightOf(z.right) == HeightOf(z.left) + 2
    requires HeightOf(z.right.left) == HeightOf(z.right.right) + 1
    ensures HeightsOk(RotateLeft(z.(right := RotateRight(z.right))))
    ensures Balanced(RotateLeft(z.(right := RotateRight(z.right))))
    ensures HeightOf(RotateLeft(z.(right := RotateRight(z.right)))) == HeightOf(z.left) + 2
  {
    var x, a, m, c := z.right, z.right.right, z.right.left, z.left;
    assert HeightsOk(m) && Balanced(m) && HeightsOk(a) && Balanced(a);
    RotateRightShape(x);
    var yr := Node(m.right, x.key, x.value, a, 1 + Bst.Max(HeightOf(m.right), HeightOf(a)));
    JoinOk(m.right, x.key, x.value, a);
    var y := RotateRight(x);
    JoinOk(c, z.key, z.value, m.left);
    RotateLeftShape(z.(right := y));
    JoinOk(Node(c, z.key, z.value, m.left, 1 + Bst.Max(HeightOf(c), HeightOf(m.left))), m.key, m.value, yr);
  }

  /** A node over two valid subtrees at most one level apart, caching the
      height computed from theirs, is valid. */
  lemma JoinOk<V>(l: Tree<V>, k: Key, v: V, r: Tree<V>)
    requires HeightsOk(l) && Balanced(l) && HeightsOk(r) && Balanced(r)
    requires -1 <= HeightOf(l) - HeightOf(r) <= 1
    ensures HeightsOk(Node(l, k, v, r, 1 + Bst.Max(HeightOf(l), HeightOf(r))))
    ensures Balanced(Node(l, k, v, r, 1 + Bst.Max(HeightOf(l), HeightOf(r))))
  {
  }

  /** The tree a left rotation builds, over subtrees with correct caches. */
  lemma RotateLeftShape<V>(z: Tree<V>)
    requires z.Node? && z.right.Node?
    requires HeightsOk(z.left) && HeightsOk(z.right.left) && HeightsOk(z.right.right)
    ensures var l := Node(z.left, z.key, z.value, z.right.left,
                          1 + Bst.Max(HeightOf(z.left), HeightOf(z.right.left)));
      RotateLeft(z) == Node(l, z.right.key, z.right.value, z.right.right,
                            1 + Bst.Max(HeightOf(l), HeightOf(z.right.right)))
  {
  }

  /** The tree a right rotation builds, over subtrees with correct caches. */
  lemma RotateRightShape<V>(z: Tree<V>)
    requires z.Node? && z.left.Node?
    requires HeightsOk(z.left.left) && HeightsOk(z.left.right) && HeightsOk(z.right)
    ensures var r := Node(z.left.right, z.key, z.value, z.right,
                          1 + Bst.Max(HeightOf(z.left.right), HeightOf(z.right)));
      RotateRight(z) == Node(z.left.left, z.left.key, z.left.value, r,
                             1 + Bst.Max(HeightOf(z.left.left), HeightOf(r)))
  {
  }

  /** The search-tree order holds exactly when the in-order traversal
      strictly ascends. */
  lemma OrderedIffAscending<V>(t: Tree<V>)
    ensures Ordered(t) <==> Ascending(InorderRecursive(t))
  {
    EraseAgrees(t, "");
    Bst.OrderedIffAscending(Erase(t));
  }

  /** On an ordered tree `search` is lookup in the in-order list. */
  lemma SearchIsLookup<V>(t: Tree<V>, j: Key)
    requires Ordered(t)
    ensures SearchRecursive(t, j) == Lookup(InorderRecursive(t), j)
  {
    EraseAgrees(t, j);
    Bst.SearchIsLookup(Erase(t), j);
  }

  /** Insertion adds exactly the inserted key and keeps the in-order
      traversal strictly ascending. */
  lemma InsertKeys<V>(t: Tree<V>, k: Key, v: V)
    requires IsAvl(t)
    ensures Keys(InsertRecursive(t, k, v)) == Keys(t) + {k}
    ensures Ascending(InorderRecursive(InsertRecursive(t, k, v)))
  {
    var r := InsertRecursive(t, k, v);
    OrderedIffAscending(r);
    PutKeys(InorderRecursive(t), k, v);
  }

  /** After `insert(k, v)`, `search(k)` finds `v` and every other key finds
      what it found before. */
  lemma SearchAfterInsert<V>(t: Tree<V>, k: Key, v: V, j: Key)
    requires IsAvl(t)
    ensures SearchRecursive(InsertRecursive(t, k, v), j) ==
      if j == k then Some(v) else SearchRecursive(t, j)
  {
    SearchIsLookup(t, j);
    SearchIsLookup(InsertRecursive(t, k, v), j);
    LookupPut(InorderRecursive(t), k, v, j);
  }

  /** The tree with its values erased: shape, keys and cached heights. */
  function Skeleton<V>(t: Tree<V>): (s: Tree<()>)
    ensures HeightOf(s) == HeightOf(t)
    ensures Keys(s) == Keys(t)
  {
    match t
    case Nil => Nil
    case Node(l, k, _, r, h) => Node(Skeleton(l), k, (), Skeleton(r), h)
  }

  /** Re-inserting a key already present only replaces that node's value:
      no height is recomputed differently and no rotation fires, so shape,
      keys, cached heights and height stay. */
  lemma {:induction false} ReinsertKeepsShape<V>(t: Tree<V>, k: Key, v: V)
    requires IsAvl(t) && k in Keys(t)
    ensures Skeleton(InsertRecursive(t, k, v)) == Skeleton(t)
    ensures HeightOf(InsertRecursive(t, k, v)) == HeightOf(t)
  {
    var Node(l, nk, nv, rt, h) := t;
    assert Keys(t) == Keys(l) + {nk} + Keys(rt);
    if Less(k, nk) {
      if k in Keys(rt) { LessAsymmetric(k, nk); }
      assert !Less(k, k);
      ReinsertKeepsShape(l, k, v);
      var n := Node(InsertRecursive(l, k, v), nk, nv, rt, h);
      InsertStep(t, n, k, v);
    } else if Less(nk, k) {
      if k in Keys(l) { LessAsymmetric(nk, k); }
      assert !Less(k, k);
      ReinsertKeepsShape(rt, k, v);
      var n := Node(l, nk, nv, InsertRecursive(rt, k, v), h);
      InsertStep(t, n, k, v);
    }
    assert HeightOf(Skeleton(InsertRecursive(t, k, v))) == HeightOf(Skeleton(t));
  }

  /** The fewest nodes a balanced tree of height `h` can have. */
  function MinSize(h: int): nat
    decreases h
  {
    if h < 0 then 0 else if h == 0 then 1 else MinSize(h - 1) + MinSize(h - 2) + 1
  }

  /** The most nodes any binary tree of height `h` can have. */
  function MaxSize(h: int): nat
    decreases h
  {
    if h < 0 then 0 else 2 * MaxSize(h - 1) + 1
  }

  lemma {:induction false} SizesGrow(a: int, b: int)
    requires a <= b
    ensures MinSize(a) <= MinSize(b) && MaxSize(a) <= MaxSize(b)
    decreases b - a
  {
    if a < b {
      SizesGrow(a, b - 1);
    }
  }

  /** Re-inserting a key with the value it already has leaves the
      traversal and the height as they were. */
  lemma ReinsertSameValue<V>(t: Tree<V>, k: Key, v: V)
    requires IsAvl(t) && SearchRecursive(t, k) == Some(v)
    ensures InorderRecursive(InsertRecursive(t, k, v)) == InorderRecursive(t)
    ensures HeightOf(InsertRecursive(t, k, v)) == HeightOf(t)
  {
    SearchIsLookup(t, k);
    OrderedIffAscending(t);
    PutSame(InorderRecursive(t), k, v);
    ReinsertKeepsShape(t, k, v);
  }

  /** The number of nodes, which is the length of the traversal. */
  function Size<V>(t: Tree<V>): nat
  {
    match t
    case Nil => 0
    case Node(l, _, _, r, _) => Size(l) + 1 + Size(r)
  }

  lemma {:induction false} SizeIsLength<V>(t: Tree<V>)
    ensures Size(t) == |InorderRecursive(t)|
  {
    if t.Node? {
      SizeIsLength(t.left);
      SizeIsLength(t.right);
    }
  }

  /** Size against height: no tree exceeds `MaxSize`, and a balanced one
      has at least `MinSize` nodes. */
  lemma SizeBounds<V>(t: Tree<V>)
    ensures Size(t) <= MaxSize(HeightOf(t))
    ensures Balanced(t) ==> MinSize(HeightOf(t)) <= Size(t)
  {
    SizeAtMostMax(t);
    if Balanced(t) {
      SizeAtLeastMin(t);
    }
  }

  lemma {:induction false} SizeAtMostMax<V>(t: Tree<V>)
    ensures Size(t) <= MaxSize(HeightOf(t))
  {
    if t.Node? {
      SizeAtMostMax(t.left);
      SizeAtMostMax(t.right);
      MaxSizeStep(HeightOf(t.left), HeightOf(t.right), Size(t.left), Size(t.right));
    }
  }

  lemma {:induction false} SizeAtLeastMin<V>(t: Tree<V>)
    requires Balanced(t)
    ensures MinSize(HeightOf(t)) <= Size(t)
  {
    if t.Node? {
      SizeAtLeastMin(t.left);
      SizeAtLeastMin(t.right);
      MinSizeStep(HeightOf(t.left), HeightOf(t.right), Size(t.left), Size(t.right));
    }
  }

  /** A node over children of heights `hl`, `hr` and sizes `sl`, `sr`
      within `MaxSize` is within `MaxSize` itself. */
  lemma MaxSizeStep(hl: int, hr: int, sl: nat, sr: nat)
    requires hl >= -1 && hr >= -1
    requires sl <= MaxSize(hl) && sr <= MaxSize(hr)
    ensures sl + 1 + sr <= MaxSize(1 + Bst.Max(hl, hr))
  {
    var h := 1 + Bst.Max(hl, hr);
    SizesGrow(hl, h - 1);
    SizesGrow(hr, h - 1);
    assert MaxSize(h) == 2 * MaxSize(h - 1) + 1;
  }

  /** The same for `MinSize`, when the children's heights differ by at
      most one. */
  lemma MinSizeStep(hl: int, hr: int, sl: nat, sr: nat)
    requires hl >= -1 && hr >= -1
    requires -1 <= hl - hr <= 1
    requires MinSize(hl) <= sl && MinSize(hr) <= sr
    ensures MinSize(1 + Bst.Max(hl, hr)) <= sl + 1 + sr
  {
    var h := 1 + Bst.Max(hl, hr);
    if hl >= hr {
      SizesGrow(h - 2, hr);
    } else {
      SizesGrow(h - 2, hl);
    }
  }

  /** 2 to the power n. */
  function Pow2(n: nat): nat
  {
    if n == 0 then 1 else 2 * Pow2(n - 1)
  }

  /** `MinSize` at least doubles every two levels. */
  lemma {:induction false} MinSizeExp(h: nat)
    ensures MinSize(h) + 1 >= Pow2((h + 1) / 2)
  {
    if h >= 2 {
      MinSizeExp(h - 2);
      SizesGrow(h - 2, h - 1);
      assert (h + 1) / 2 == (h - 1) / 2 + 1;
    }
  }

  /** `MaxSize` is one less than a power of two. */
  lemma {:induction false} MaxSizePow2(h: nat)
    ensures MaxSize(h) + 1 == Pow2(h + 1)
  {
    if h > 0 {
      MaxSizePow2(h - 1);
    }
  }

  /** The height of a valid AVL tree is logarithmic in its number of
      entries: a tree of height h holds at least 2^((h+1)/2) - 1 entries
      (and any binary tree at most 2^(h+1) - 1). */
  lemma AvlHeightLogarithmic<V>(t: Tree<V>)
    requires IsAvl(t) && t.Node?
    ensures Pow2((HeightOf(t) + 1) / 2) <= Size(t) + 1
    ensures Size(t) + 1 <= Pow2(HeightOf(t) + 1)
  {
    assert Balanced(t);
    SizeBounds(t);
    PowerBounds(HeightOf(t), Size(t));
  }

  /** A size between `MinSize(h)` and `MaxSize(h)` lies between the two
      powers of two. */
  lemma PowerBounds(h: nat, n: nat)
    requires MinSize(h) <= n <= MaxSize(h)
    ensures Pow2((h + 1) / 2) <= n + 1 <= Pow2(h + 1)
  {
    MinSizeExp(h);
    MaxSizePow2(h);
  }

  /** The map object: `_root` and the public operations. */
  class AvlTreeMap<V> {
    var root: Tree<V>

    ghost predicate Valid()
      reads this
    {
      IsAvl(root)
    }

    /** The map's contents, in ascending key order. */
    ghost function Entries(): seq<Entry<V>>
      reads this
    {
      InorderRecursive(root)
    }

    constructor ()
      ensures Valid() && root == Nil && Entries() == []
    {
      root := Nil;
    }

    method Insert(key: Key, value: V)
      requires Valid()
      modifies this
      ensures Valid()
      ensures root == InsertRecursive(old(root), key, value)
      ensures Entries() == Put(old(Entries()), key, value)
    {
      root := InsertRecursive(root, key, value);
    }

    method Search(key: Key) returns (r: Option<V>)
      requires Valid()
      ensures r == Lookup(Entries(), key)
    {
      SearchIsLookup(root, key);
      r := SearchRecursive(root, key);
    }

    /** `inorder_items`, as the whole list it yields. */
    function InorderItems(): (items: seq<Entry<V>>)
      reads this
      requires Valid()
      ensures Ascending(items)
      ensures KeysOf(items) == Keys(root)
    {
      OrderedIffAscending(root);
      InorderRecursive(root)
    }

    /** `height()`: recomputed from the structure; on a valid tree it
        agrees with the root's cached height. */
    function Height(): (h: int)
      reads this
      requires Valid()
      ensures h >= -1
      ensures h == -1 <==> Keys(root) == {}
      ensures h == GetHeight(root)
    {
      HeightOf(root)
    }
  }
}
