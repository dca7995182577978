/**
  `BSTMap` of search_trees.py: an unbalanced binary search tree map.

  The Python nodes are mutable objects that `_insert_recursive` updates in
  place; since no node is ever shared, each update is modelled here as
  building the updated node, and the map object itself is the class
  `BstMap` whose `root` field `Insert` reassigns.
*/
module Bst {
  import opened Wrappers
  import opened KeyOrder
  import opened Entries

  datatype Tree<V> = Nil | Node(left: Tree<V>, key: Key, value: V, right: Tree<V>)

  function Max(a: int, b: int): int
  {
    if a >= b then a else b
  }

  function Keys<V>(t: Tree<V>): set<Key>
  {
    match t
    case Nil => {}
    case Node(l, k, _, r) => Keys(l) + {k} + Keys(r)
  }

  /** The search-tree order: at every node, the keys of the left subtree are
      smaller than the node's key and those of the right subtree greater. */
  ghost predicate Ordered<V>(t: Tree<V>)
  {
    match t
    case Nil => true
    case Node(l, k, _, r) =>
      && Ordered(l) && Ordered(r)
      && (forall x :: x in Keys(l) ==> Less(x, k))
      && (forall x :: x in Keys(r) ==> Less(k, x))
  }

  /** `_insert_recursive`: descend by comparison, overwrite the value of an
      equal key, or hang a new node where the descent falls off the tree. */
  function InsertRecursive<V>(t: Tree<V>, k: Key, v: V): (r: Tree<V>)
    ensures Keys(r) == Keys(t) + {k}
    ensures Ordered(t) ==> Ordered(r)
  {
    match t
    case Nil => Node(Nil, k, v, Nil)
    case Node(l, nk, nv, rt) =>
      if Less(k, nk) then Node(InsertRecursive(l, k, v), nk, nv, rt)
      else if Less(nk, k) then Node(l, nk, nv, InsertRecursive(rt, k, v))
      else
        LessTrichotomous(k, nk);
        Node(l, nk, v, rt)
  }

  /** `_search_recursive`: a value is found only under a stored key. */
  function SearchRecursive<V>(t: Tree<V>, k: Key): (r: Option<V>)
    ensures r.Some? ==> k in Keys(t)
  {
    match t
    case Nil => None
    case Node(l, nk, nv, rt) =>
      if Less(k, nk) then SearchRecursive(l, k)
      else if Less(nk, k) then SearchRecursive(rt, k)
      else
        LessTrichotomous(k, nk);
        Some(nv)
  }

  /** `_inorder_recursive`: left subtree, the node, right subtree; it
      yields exactly the keys stored in the tree. */
  function InorderRecursive<V>(t: Tree<V>): (s: seq<Entry<V>>)
    ensures KeysOf(s) == Keys(t)
  {
    match t
    case Nil => []
    case Node(l, k, v, r) =>
      KeysOfSplit(InorderRecursive(l), (k, v), InorderRecursive(r));
      InorderRecursive(l) + [(k, v)] + InorderRecursive(r)
  }

  /** The nested `_height` of `height()`: edges on the longest downward path,
      -1 for the empty tree. */
  function HeightOf<V>(t: Tree<V>): (h: int)
    ensures h >= -1
    ensures h == -1 <==> t.Nil?
  {
    match t
    case Nil => -1
    case Node(l, _, _, r) => 1 + Max(HeightOf(l), HeightOf(r))
  }

  /** `p` spells a downward path from the root to a node of `t`
      (`false` = go left, `true` = go right); `|p|` is its number of edges. */
  ghost predicate IsPath<V>(t: Tree<V>, p: seq<bool>)
    decreases t
  {
    match t
    case Nil => false
    case Node(l, _, _, r) =>
      p == [] || (if p[0] then IsPath(r, p[1..]) else IsPath(l, p[1..]))
  }

  /** `p` is a path from the root that ends at a leaf. */
  ghost predicate IsLeafPath<V>(t: Tree<V>, p: seq<bool>)
    decreases t
  {
    match t
    case Nil => false
    case Node(l, _, _, r) =>
      if p == [] then l.Nil? && r.Nil?
      else if p[0] then IsLeafPath(r, p[1..]) else IsLeafPath(l, p[1..])
  }

  /** A path down the taller side at every node, ending at a leaf. */
  ghost function LongestPath<V>(t: Tree<V>): (p: seq<bool>)
    requires t.Node?
    ensures IsLeafPath(t, p) && |p| == HeightOf(t)
  {
    var Node(l, _, _, r) := t;
    if l.Nil? && r.Nil? then []
    else if HeightOf(l) >= HeightOf(r) then [false] + LongestPath(l)
    else [true] + LongestPath(r)
  }

  /** `height()` is the number of edges on the longest root-to-leaf path:
      no downward path is longer, and a root-to-leaf path is that long. */
  lemma {:induction false} HeightIsLongestPath<V>(t: Tree<V>, p: seq<bool>)
    ensures IsPath(t, p) ==> |p| <= HeightOf(t)
    ensures IsLeafPath(t, p) ==> IsPath(t, p)
    ensures t.Node? ==> exists q :: IsLeafPath(t, q) && |q| == HeightOf(t)
  {
    if t.Node? {
      var q := LongestPath(t);
      assert IsLeafPath(t, q) && |q| == HeightOf(t);
      if p != [] {
        HeightIsLongestPath(if p[0] then t.right else t.left, p[1..]);
      }
    }
  }

  /** The search-tree order holds exactly when the in-order traversal
      strictly ascends. */
  lemma {:induction false} OrderedIffAscending<V>(t: Tree<V>)
    ensures Ordered(t) <==> Ascending(InorderRecursive(t))
  {
    if t.Node? {
      OrderedIffAscending(t.left);
      OrderedIffAscending(t.right);
      AscendingSplit(InorderRecursive(t.left), (t.key, t.value), InorderRecursive(t.right));
    }
  }

  /** On an ordered tree `search` is lookup in the in-order list. */
  lemma {:induction false} SearchIsLookup<V>(t: Tree<V>, j: Key)
    requires Ordered(t)
    ensures SearchRecursive(t, j) == Lookup(InorderRecursive(t), j)
  {
    if t.Node? {
      OrderedIffAscending(t);
      LookupSplit(InorderRecursive(t.left), (t.key, t.value), InorderRecursive(t.right), j);
      SearchIsLookup(t.left, j);
      SearchIsLookup(t.right, j);
    }
  }

  /** On an ordered tree `insert` is sorted insertion into the in-order list. */
  lemma {:induction false} InsertIsPut<V>(t: Tree<V>, k: Key, v: V)
    requires Ordered(t)
    ensures InorderRecursive(InsertRecursive(t, k, v)) == Put(InorderRecursive(t), k, v)
  {
    if t.Node? {
      OrderedIffAscending(t);
      PutSplit(InorderRecursive(t.left), (t.key, t.value), InorderRecursive(t.right), k, v);
      InsertIsPut(t.left, k, v);
      InsertIsPut(t.right, k, v);
    }
  }

  /** After `insert(k, v)`, `search(k)` finds `v` and every other key finds
      what it found before; this holds of any tree, since insertion follows
      the same descent as search. */
  lemma {:induction false} SearchAfterInsert<V>(t: Tree<V>, k: Key, v: V, j: Key)
    ensures SearchRecursive(InsertRecursive(t, k, v), j) ==
      if j == k then Some(v) else SearchRecursive(t, j)
  {
    LessTrichotomous(j, k);
    assert !Less(j, j);
    match t
    case Nil =>
    case Node(l, nk, nv, rt) =>
      if Less(k, nk) {
        if j == k { LessAsymmetric(k, nk); }
        SearchAfterInsert(l, k, v, j);
      } else if Less(nk, k) {
        if j == k { LessAsymmetric(nk, k); }
        SearchAfterInsert(rt, k, v, j);
      } else {
        LessTrichotomous(k, nk);
      }
  }

  /** The tree with its values erased: its shape and keys. */
  function Skeleton<V>(t: Tree<V>): (s: Tree<()>)
    ensures HeightOf(s) == HeightOf(t)
    ensures Keys(s) == Keys(t)
  {
    match t
    case Nil => Nil
    case Node(l, k, _, r) => Node(Skeleton(l), k, (), Skeleton(r))
  }

  /** Re-inserting a key already in an ordered tree only replaces that
      node's value: shape, keys and height stay. */
  lemma {:induction false} ReinsertKeepsShape<V>(t: Tree<V>, k: Key, v: V)
    requires Ordered(t) && k in Keys(t)
    ensures Skeleton(InsertRecursive(t, k, v)) == Skeleton(t)
    ensures HeightOf(InsertRecursive(t, k, v)) == HeightOf(t)
  {
    var Node(l, nk, nv, rt) := t;
    if Less(k, nk) {
      if k in Keys(rt) { LessAsymmetric(k, nk); }
      assert !Less(k, k);
      ReinsertKeepsShape(l, k, v);
    } else if Less(nk, k) {
      if k in Keys(l) { LessAsymmetric(nk, k); }
      assert !Less(k, k);
      ReinsertKeepsShape(rt, k, v);
    }
    assert HeightOf(Skeleton(InsertRecursive(t, k, v))) == HeightOf(Skeleton(t));
  }

  /** Re-inserting a key with the value it already has leaves the
      traversal and the height as they were. */
  lemma ReinsertSameValue<V>(t: Tree<V>, k: Key, v: V)
    requires Ordered(t) && SearchRecursive(t, k) == Some(v)
    ensures InorderRecursive(InsertRecursive(t, k, v)) == InorderRecursive(t)
    ensures HeightOf(InsertRecursive(t, k, v)) == HeightOf(t)
  {
    SearchIsLookup(t, k);
    OrderedIffAscending(t);
    InsertIsPut(t, k, v);
    PutSame(InorderRecursive(t), k, v);
    ReinsertKeepsShape(t, k, v);
  }

  /** The map object: `_root` and the public operations. */
  class BstMap<V> {
    var root: Tree<V>

    ghost predicate Valid()
      reads this
    {
      Ordered(root)
    }

    /** The map's contents, in ascending key order. */
    ghost function Entries(): seq<Entry<V>>
      reads this
    {
      InorderRecursive(root)
    }

    constructor ()
      ensures Valid() && root == Nil && Entries() == []
    {
      root := Nil;
    }

    method Insert(key: Key, value: V)
      requires Valid()
      modifies this
      ensures Valid()
      ensures root == InsertRecursive(old(root), key, value)
      ensures Entries() == Put(old(Entries()), key, value)
    {
      InsertIsPut(root, key, value);
      root := InsertRecursive(root, key, value);
    }

    method Search(key: Key) returns (r: Option<V>)
      requires Valid()
      ensures r == Lookup(Entries(), key)
    {
      SearchIsLookup(root, key);
      r := SearchRecursive(root, key);
    }

    /** `inorder_items`, as the whole list it yields. */
    function InorderItems(): (items: seq<Entry<V>>)
      reads this
      requires Valid()
      ensures Ascending(items)
      ensures KeysOf(items) == Keys(root)
    {
      OrderedIffAscending(root);
      InorderRecursive(root)
    }

    function Height(): (h: int)
      reads this
      ensures h >= -1
      ensures h == -1 <==> Keys(root) == {}
    {
      HeightOf(root)
    }
  }
}
