/** The AVL tree that backs the dictionary: nodes carrying `(key, value, height)`,
    the height convention (empty = -1, leaf = 0), height bookkeeping, the
    four-case rotation, insertion, extraction of the extreme node, and the
    cut/graft primitives the structural join uses. Parent links are not stored
    in a node; the join's upward walk keeps them as an explicit path (module Spine). */
module AvlTree {
  import opened EntryLists

  /** Height of the empty subtree. */
  const EmptyHeight: int := -1

  /** `h` is the cached height the source keeps in `info[2]`. */
  datatype Tree = Nil | Node(left: Tree, key: int, value: int, h: nat, right: Tree)

  /** `height(n)`: the cached height, or the sentinel for an absent node. */
  function Height(t: Tree): int {
    if t.Nil? then EmptyHeight else t.h
  }

  function Max(a: int, b: int): int {
    if a >= b then a else b
  }

  /** Left height minus right height. */
  function Balance(t: Tree): int {
    if t.Nil? then 0 else Height(t.left) - Height(t.right)
  }

  /** `DFS`: the in-order sequence of entries. */
  function InOrder(t: Tree): (r: seq<Entry>)
    ensures |r| == 0 <==> t.Nil?
  {
    match t
    case Nil => []
    case Node(l, k, v, _, r) => InOrder(l) + [(k, v)] + InOrder(r)
  }

  /** The dictionary the tree holds. */
  function Entries(t: Tree): map<int, int> {
    ToMap(InOrder(t))
  }

  function Size(t: Tree): nat {
    match t
    case Nil => 0
    case Node(l, _, _, _, r) => Size(l) + 1 + Size(r)
  }

  /** The height computed from the structure, ignoring the cache. */
  function RealHeight(t: Tree): int {
    match t
    case Nil => EmptyHeight
    case Node(l, _, _, _, r) => 1 + Max(RealHeight(l), RealHeight(r))
  }

  /** BST invariant: every key of a left subtree is below its node's key and
      every key of a right subtree above it, i.e. the in-order keys increase. */
  predicate Bst(t: Tree) {
    Sorted(InOrder(t))
  }

  /** Height-cache and AVL-balance invariants at every node. */
  predicate Shape(t: Tree) {
    match t
    case Nil => true
    case Node(l, _, _, h, r) =>
      Shape(l) && Shape(r) && h == 1 + Max(Height(l), Height(r)) && -1 <= Height(l) - Height(r) <= 1
  }

  predicate Avl(t: Tree) {
    Bst(t) && Shape(t)
  }

  lemma {:induction false} InOrderSize(t: Tree)
    ensures |InOrder(t)| == Size(t)
  {
    if t.Node? {
      InOrderSize(t.left);
      InOrderSize(t.right);
    }
  }

  /** The cached heights of a well-shaped tree are its real heights. */
  lemma {:induction false} CachedHeightCorrect(t: Tree)
    requires Shape(t)
    ensures Height(t) == RealHeight(t)
  {
    if t.Node? {
      CachedHeightCorrect(t.left);
      CachedHeightCorrect(t.right);
    }
  }

  /** Fewest nodes an AVL tree of height `h` can have. */
  function MinNodes(h: int): nat
    decreases h
  {
    if h < 0 then 0 else if h == 0 then 1 else 1 + MinNodes(h - 1) + MinNodes(h - 2)
  }

  lemma {:induction false} MinNodesMonotone(a: int, b: int)
    requires a <= b
    ensures MinNodes(a) <= MinNodes(b)
    decreases b - a
  {
    if a < b {
      MinNodesMonotone(a, b - 1);
    }
  }

  /** A well-shaped tree of height `h` has at least MinNodes(h) nodes. */
  lemma {:induction false} SizeBound(t: Tree)
    requires Shape(t)
    ensures Size(t) >= MinNodes(Height(t))
  {
    if t.Node? {
      SizeBound(t.left);
      SizeBound(t.right);
      var hl, hr := Height(t.left), Height(t.right);
      if hl >= hr {
        MinNodesMonotone(t.h - 2, hr);
      } else {
        MinNodesMonotone(t.h - 2, hl);
      }
    }
  }

  function Pow2(n: nat): nat {
    if n == 0 then 1 else 2 * Pow2(n - 1)
  }

  lemma {:induction false} Pow2Monotone(a: nat, b: nat)
    requires a <= b
    ensures Pow2(a) <= Pow2(b)
    decreases b - a
  {
    if a < b {
      Pow2Monotone(a, b - 1);
    }
  }

  /** The minimal node count at least doubles every two levels. */
  lemma {:induction false} MinNodesExp(h: int)
    requires h >= 0
    ensures MinNodes(h) >= Pow2(h / 2)
    decreases h
  {
    if h >= 2 {
      MinNodesExp(h - 2);
      MinNodesMonotone(h - 2, h - 1);
      assert (h - 2) / 2 == h / 2 - 1;
    }
  }

  /** The logarithmic height of an AVL tree: a well-shaped tree of height `h`
      holds at least `2^(h / 2)` nodes, so `h <= 2 log2(size)`. */
  lemma HeightLogarithmic(t: Tree)
    requires Shape(t) && t.Node?
    ensures Pow2(Height(t) / 2) <= Size(t)
  {
    SizeBound(t);
    MinNodesExp(Height(t));
  }

  /** Height 0 (the guard of the trivial case) means exactly one node. */
  lemma SingleNodeIffLeaf(t: Tree)
    requires Shape(t) && t.Node?
    ensures t.h == 0 <==> Size(t) == 1
  {
    if t.left.Node? || t.right.Node? {
      assert t.h >= 1;
    }
  }

  /** `updateHeight(n)`: recompute the cached height from the children's. */
  function UpdateHeight(t: Tree): (r: Tree)
    ensures t.Node? ==> r.Node? && r.h == 1 + Max(Height(t.left), Height(t.right))
  {
    match t
    case Nil => Nil
    case Node(l, k, v, _, r) => Node(l, k, v, 1 + Max(Height(l), Height(r)), r)
  }

  /** Right rotation: the left child becomes the root of the subtree. */
  function RotateRight(t: Tree): (r: Tree)
    requires t.Node? && t.left.Node?
    ensures r.Node? && r.key == t.left.key && r.left == t.left.left
    ensures r.right.Node? && r.right.key == t.key && r.right.left == t.left.right && r.right.right == t.right
  {
    var l := t.left;
    UpdateHeight(Node(l.left, l.key, l.value, 0, UpdateHeight(Node(l.right, t.key, t.value, 0, t.right))))
  }

  /** Left rotation: the right child becomes the root of the subtree. */
  function RotateLeft(t: Tree): (r: Tree)
    requires t.Node? && t.right.Node?
    ensures r.Node? && r.key == t.right.key && r.right == t.right.right
    ensures r.left.Node? && r.left.key == t.key && r.left.left == t.left && r.left.right == t.right.left
  {
    var r := t.right;
    UpdateHeight(Node(UpdateHeight(Node(t.left, t.key, t.value, 0, r.left)), r.key, r.value, 0, r.right))
  }

  /** `rotate(n)`: when the balance factor exceeds 1 in magnitude, the
      standard single or double rotation; otherwise nothing. */
  function Rotate(t: Tree): (r: Tree)
    ensures t.Node? ==> r.Node?
    ensures -1 <= Balance(t) <= 1 ==> r == t
  {
    if t.Nil? then t
    else if Balance(t) > 1 then
      if Balance(t.left) >= 0 then RotateRight(t) else RotateRight(t.(left := RotateLeft(t.left)))
    else if Balance(t) < -1 then
      if Balance(t.right) <= 0 then RotateLeft(t) else RotateLeft(t.(right := RotateRight(t.right)))
    else t
  }

  /** One step of every upward walk: `updateHeight(n)` then `rotate(n)`. */
  function Rebalance(t: Tree): (r: Tree)
    ensures t.Node? ==> r.Node?
  {
    Rotate(UpdateHeight(t))
  }

  /** Refreshing the cached height changes no entry. */
  lemma UpdateHeightInOrder(t: Tree)
    ensures InOrder(UpdateHeight(t)) == InOrder(t)
  {
  }

  /** Both rotations keep the in-order sequence. */
  lemma RotateRightInOrder(t: Tree)
    requires t.Node? && t.left.Node?
    ensures InOrder(RotateRight(t)) == InOrder(t)
  {
    var l := t.left;
    var inner := Node(l.right, t.key, t.value, 0, t.right);
    var top := Node(l.left, l.key, l.value, 0, UpdateHeight(inner));
    assert RotateRight(t) == UpdateHeight(top);
    UpdateHeightInOrder(top);
    UpdateHeightInOrder(inner);
    var a, e, b, f, c := InOrder(l.left), [(l.key, l.value)], InOrder(l.right), [(t.key, t.value)], InOrder(t.right);
    assert InOrder(top) == a + e + (b + f + c);
    assert InOrder(t) == (a + e + b) + f + c;
    ConcatRegroup(a, e, b, f, c);
  }

  lemma RotateLeftInOrder(t: Tree)
    requires t.Node? && t.right.Node?
    ensures InOrder(RotateLeft(t)) == InOrder(t)
  {
    var r := t.right;
    var inner := Node(t.left, t.key, t.value, 0, r.left);
    var top := Node(UpdateHeight(inner), r.key, r.value, 0, r.right);
    assert RotateLeft(t) == UpdateHeight(top);
    UpdateHeightInOrder(top);
    UpdateHeightInOrder(inner);
    var a, f, b, e, c := InOrder(t.left), [(t.key, t.value)], InOrder(r.left), [(r.key, r.value)], InOrder(r.right);
    assert InOrder(top) == (a + f + b) + e + c;
    assert InOrder(t) == a + f + (b + e + c);
    ConcatRegroup(a, f, b, e, c);
  }

  /** Rebalancing never changes the in-order sequence, so it keeps the keys
      ordered and the entries the same. */
  lemma RebalanceInOrder(t: Tree)
    ensures InOrder(Rebalance(t)) == InOrder(t)
  {
    var u := UpdateHeight(t);
    UpdateHeightInOrder(t);
    if u.Node? {
      if Balance(u) > 1 {
        if Balance(u.left) >= 0 {
          RotateRightInOrder(u);
        } else {
          RotateLeftInOrder(u.left);
          RotateRightInOrder(u.(left := RotateLeft(u.left)));
        }
      } else if Balance(u) < -1 {
        if Balance(u.right) <= 0 {
          RotateLeftInOrder(u);
        } else {
          RotateRightInOrder(u.right);
          RotateLeftInOrder(u.(right := RotateRight(u.right)));
        }
      }
    }
  }

  /** Rebalancing an already balanced node with a correct cache changes nothing. */
  lemma RebalanceIdle(t: Tree)
    requires Shape(t)
    ensures Rebalance(t) == t
  {
  }

  /** A node whose subtrees are well shaped and within one of each other in
      height needs only its cache recomputed. */
  lemma RebalanceEven(t: Tree)
    requires t.Node? && Shape(t.left) && Shape(t.right) && -1 <= Balance(t) <= 1
    ensures Rebalance(t) == UpdateHeight(t) && Shape(Rebalance(t))
    ensures Height(Rebalance(t)) == 1 + Max(Height(t.left), Height(t.right))
  {
  }

  /** Left subtree two taller: the single (left child not right-heavy) or
      double rotation yields a well-shaped subtree, of the left subtree's height
      or one more; the one-more case happens only after a single rotation of a
      left child with equal subtrees, and leaves the new root right-heavy. */
  lemma RebalanceLeftHeavy(t: Tree)
    requires t.Node? && Shape(t.left) && Shape(t.right) && Balance(t) == 2
    ensures Shape(Rebalance(t))
    ensures Height(t.left) <= Height(Rebalance(t)) <= Height(t.left) + 1
    ensures Balance(t.left) != 0 ==> Height(Rebalance(t)) == Height(t.left)
    ensures Height(Rebalance(t)) == Height(t.left) + 1 ==> Balance(Rebalance(t)) == -1
  {
    if Balance(t.left) >= 0 { LeftHeavySingle(t); } else { LeftHeavyDouble(t); }
  }

  /** RebalanceLeftHeavy when the left child is not right-heavy: one right rotation. */
  lemma LeftHeavySingle(t: Tree)
    requires t.Node? && Shape(t.left) && Shape(t.right) && Balance(t) == 2 && Balance(t.left) >= 0
    ensures Shape(Rebalance(t))
    ensures Height(t.left) <= Height(Rebalance(t)) <= Height(t.left) + 1
    ensures Balance(t.left) != 0 ==> Height(Rebalance(t)) == Height(t.left)
    ensures Height(Rebalance(t)) == Height(t.left) + 1 ==> Balance(Rebalance(t)) == -1
  {
    var u := UpdateHeight(t);
    var l := t.left;
    assert Balance(u) == 2 && l.Node?;
    assert Rebalance(t) == RotateRight(u);
    var inner := UpdateHeight(Node(l.right, t.key, t.value, 0, t.right));
    assert Shape(inner);
    assert Rebalance(t) == UpdateHeight(Node(l.left, l.key, l.value, 0, inner));
  }

  /** RebalanceLeftHeavy when the left child is right-heavy: left then right rotation. */
  lemma LeftHeavyDouble(t: Tree)
    requires t.Node? && Shape(t.left) && Shape(t.right) && Balance(t) == 2 && Balance(t.left) < 0
    ensures Shape(Rebalance(t))
    ensures Height(Rebalance(t)) == Height(t.left)
  {
    var u := UpdateHeight(t);
    var l := t.left;
    assert Balance(u) == 2 && l.Node?;
    var lr := l.right;
    assert lr.Node?;
    var a := UpdateHeight(Node(l.left, l.key, l.value, 0, lr.left));
    var b := UpdateHeight(Node(lr.right, t.key, t.value, 0, t.right));
    assert RotateLeft(l) == UpdateHeight(Node(a, lr.key, lr.value, 0, lr.right));
    assert Rebalance(t) == RotateRight(u.(left := RotateLeft(l)));
    assert Shape(a) && Shape(b);
    assert Rebalance(t) == UpdateHeight(Node(a, lr.key, lr.value, 0, b));
  }

  /** Mirror of RebalanceLeftHeavy. */
  lemma RebalanceRightHeavy(t: Tree)
    requires t.Node? && Shape(t.left) && Shape(t.right) && Balance(t) == -2
    ensures Shape(Rebalance(t))
    ensures Height(t.right) <= Height(Rebalance(t)) <= Height(t.right) + 1
    ensures Balance(t.right) != 0 ==> Height(Rebalance(t)) == Height(t.right)
    ensures Height(Rebalance(t)) == Height(t.right) + 1 ==> Balance(Rebalance(t)) == 1
  {
    if Balance(t.right) <= 0 { RightHeavySingle(t); } else { RightHeavyDouble(t); }
  }

  /** Mirror of LeftHeavySingle. */
  lemma RightHeavySingle(t: Tree)
    requires t.Node? && Shape(t.left) && Shape(t.right) && Balance(t) == -2 && Balance(t.right) <= 0
    ensures Shape(Rebalance(t))
    ensures Height(t.right) <= Height(Rebalance(t)) <= Height(t.right) + 1
    ensures Balance(t.right) != 0 ==> Height(Rebalance(t)) == Height(t.right)
    ensures Height(Rebalance(t)) == Height(t.right) + 1 ==> Balance(Rebalance(t)) == 1
  {
    var u := UpdateHeight(t);
    var r := t.right;
    assert Balance(u) == -2 && r.Node?;
    assert Rebalance(t) == RotateLeft(u);
    var inner := UpdateHeight(Node(t.left, t.key, t.value, 0, r.left));
    assert Shape(inner);
    assert Rebalance(t) == UpdateHeight(Node(inner, r.key, r.value, 0, r.right));
  }

  /** Mirror of LeftHeavyDouble. */
  lemma RightHeavyDouble(t: Tree)
    requires t.Node? && Shape(t.left) && Shape(t.right) && Balance(t) == -2 && Balance(t.right) > 0
    ensures Shape(Rebalance(t))
    ensures Height(Rebalance(t)) == Height(t.right)
  {
    var u := UpdateHeight(t);
    var r := t.right;
    assert Balance(u) == -2 && r.Node?;
    var rl := r.left;
    assert rl.Node?;
    var a := UpdateHeight(Node(t.left, t.key, t.value, 0, rl.left));
    var b := UpdateHeight(Node(rl.right, r.key, r.value, 0, r.right));
    assert RotateRight(r) == UpdateHeight(Node(rl.left, rl.key, rl.value, 0, b));
    assert Rebalance(t) == RotateLeft(u.(right := RotateRight(r)));
    assert Shape(a) && Shape(b);
    assert Rebalance(t) == UpdateHeight(Node(a, rl.key, rl.value, 0, b));
  }

  /** The rebalancing step every upward walk relies on: subtrees well shaped
      and at most two apart in height give a well-shaped subtree whose height
      is the taller subtree's height or one more. */
  lemma RebalanceShape(t: Tree)
    requires t.Node? && Shape(t.left) && Shape(t.right) && -2 <= Balance(t) <= 2
    ensures Shape(Rebalance(t))
    ensures var m := Max(Height(t.left), Height(t.right));
            m <= Height(Rebalance(t)) <= m + 1
  {
    if Balance(t) == 2 {
      RebalanceLeftHeavy(t);
    } else if Balance(t) == -2 {
      RebalanceRightHeavy(t);
    } else {
      RebalanceEven(t);
    }
  }

  lemma BstParts(t: Tree)
    requires t.Node? && Bst(t)
    ensures Bst(t.left) && Bst(t.right)
    ensures forall i :: 0 <= i < |InOrder(t.left)| ==> InOrder(t.left)[i].0 < t.key
    ensures forall i :: 0 <= i < |InOrder(t.right)| ==> t.key < InOrder(t.right)[i].0
  {
    var mid := [(t.key, t.value)] + InOrder(t.right);
    SortedConcat(InOrder(t.left), mid);
    SortedConcat([(t.key, t.value)], InOrder(t.right));
    assert InOrder(t) == InOrder(t.left) + mid;
    assert mid[0].0 == t.key;
    forall i | 0 <= i < |InOrder(t.right)| ensures t.key < InOrder(t.right)[i].0 {
      assert mid[i + 1] == InOrder(t.right)[i];
    }
  }

  /** `insert(key, value)`: BST descent to the free position, a new leaf, then
      `updateHeight` and `rotate` on each ancestor on the way back up; a key
      already present has its value replaced. */
  function Insert(t: Tree, k: int, v: int): (r: Tree)
    ensures r.Node? && (k, v) in InOrder(r)
  {
    match t
    case Nil => Node(Nil, k, v, 0, Nil)
    case Node(l, key, val, h, rt) =>
      if k == key then Node(l, key, v, h, rt)
      else if k < key then
        var n := Node(Insert(l, k, v), key, val, h, rt);
        RebalanceInOrder(n);
        Rebalance(n)
      else
        var n := Node(l, key, val, h, Insert(rt, k, v));
        RebalanceInOrder(n);
        Rebalance(n)
  }

  /** Insertion keeps the cache and balance invariants and grows the height
      by at most one. */
  lemma {:induction false} InsertShape(t: Tree, k: int, v: int)
    requires Shape(t)
    ensures Shape(Insert(t, k, v))
    ensures Height(t) <= Height(Insert(t, k, v)) <= Height(t) + 1
  {
    if t.Node? && k != t.key {
      var n: Tree;
      if k < t.key {
        InsertShape(t.left, k, v);
        n := Node(Insert(t.left, k, v), t.key, t.value, t.h, t.right);
      } else {
        InsertShape(t.right, k, v);
        n := Node(t.left, t.key, t.value, t.h, Insert(t.right, k, v));
      }
      assert Insert(t, k, v) == Rebalance(n);
      RebalanceShape(n);
    }
  }

  /** Insertion puts `(k, v)` where sorted insertion into the in-order
      sequence would. */
  lemma {:induction false} InsertOrder(t: Tree, k: int, v: int)
    requires Bst(t)
    ensures InOrder(Insert(t, k, v)) == SortedInsert(InOrder(t), k, v)
  {
    if t.Node? {
      BstParts(t);
      if k == t.key {
        InsertHereOrder(t, k, v);
      } else if k < t.key {
        InsertOrder(t.left, k, v);
        InsertLeftOrder(t, k, v);
      } else {
        InsertOrder(t.right, k, v);
        InsertRightOrder(t, k, v);
      }
    }
  }

  /** The three steps of InsertOrder: the key is at the root, ... */
  lemma InsertHereOrder(t: Tree, k: int, v: int)
    requires t.Node? && k == t.key
    requires forall i :: 0 <= i < |InOrder(t.left)| ==> InOrder(t.left)[i].0 < t.key
    ensures InOrder(Insert(t, k, v)) == SortedInsert(InOrder(t), k, v)
  {
    var mid := [(t.key, t.value)] + InOrder(t.right);
    assert InOrder(t) == InOrder(t.left) + mid;
    SortedInsertAfter(InOrder(t.left), mid, k, v);
    assert SortedInsert(mid, k, v) == [(k, v)] + InOrder(t.right) by {
      assert mid[1..] == InOrder(t.right);
    }
    assert InOrder(Insert(t, k, v)) == InOrder(t.left) + ([(k, v)] + InOrder(t.right));
  }

  /** ... it goes into the left subtree, ... */
  lemma InsertLeftOrder(t: Tree, k: int, v: int)
    requires t.Node? && k < t.key
    requires InOrder(Insert(t.left, k, v)) == SortedInsert(InOrder(t.left), k, v)
    ensures InOrder(Insert(t, k, v)) == SortedInsert(InOrder(t), k, v)
  {
    var mid := [(t.key, t.value)] + InOrder(t.right);
    var n := Node(Insert(t.left, k, v), t.key, t.value, t.h, t.right);
    assert InOrder(n) == SortedInsert(InOrder(t), k, v) by {
      assert InOrder(t) == InOrder(t.left) + mid;
      SortedInsertBefore(InOrder(t.left), mid, k, v);
    }
    RebalanceInOrder(n);
  }

  /** ... or it goes into the right subtree. */
  lemma InsertRightOrder(t: Tree, k: int, v: int)
    requires t.Node? && t.key < k
    requires forall i :: 0 <= i < |InOrder(t.left)| ==> InOrder(t.left)[i].0 < t.key
    requires InOrder(Insert(t.right, k, v)) == SortedInsert(InOrder(t.right), k, v)
    ensures InOrder(Insert(t, k, v)) == SortedInsert(InOrder(t), k, v)
  {
    var front := InOrder(t.left) + [(t.key, t.value)];
    var n := Node(t.left, t.key, t.value, t.h, Insert(t.right, k, v));
    assert InOrder(n) == SortedInsert(InOrder(t), k, v) by {
      assert InOrder(t) == front + InOrder(t.right);
      forall i | 0 <= i < |front| ensures front[i].0 < k {
        if i < |InOrder(t.left)| {
          assert front[i] == InOrder(t.left)[i];
        }
      }
      SortedInsertAfter(front, InOrder(t.right), k, v);
    }
    RebalanceInOrder(n);
  }

  /** Insertion keeps the AVL invariants and updates the dictionary at `k`. */
  lemma InsertCorrect(t: Tree, k: int, v: int)
    requires Avl(t)
    ensures Avl(Insert(t, k, v))
    ensures InOrder(Insert(t, k, v)) == SortedInsert(InOrder(t), k, v)
    ensures Entries(Insert(t, k, v)) == Entries(t)[k := v]
    ensures Height(t) <= Height(Insert(t, k, v)) <= Height(t) + 1
  {
    InsertShape(t, k, v);
    InsertOrder(t, k, v);
    SortedInsertCorrect(InOrder(t), k, v);
  }

  /** `maxKeySon(n)`: the right-most entry of the subtree. */
  function MaxKeySon(t: Tree): (e: Entry)
    requires t.Node?
    ensures InOrder(t) != [] && e == InOrder(t)[|InOrder(t)| - 1]
  {
    if t.right.Nil? then (t.key, t.value) else MaxKeySon(t.right)
  }

  /** `minKeySon(n)`: the left-most entry of the subtree. */
  function MinKeySon(t: Tree): (e: Entry)
    requires t.Node?
    ensures InOrder(t) != [] && e == InOrder(t)[0]
  {
    if t.left.Nil? then (t.key, t.value) else MinKeySon(t.left)
  }

  /** `deleteNode(maxKeySon(n))`: the right-most node has no right child, so
      its left subtree takes its place; every ancestor is then rebalanced. */
  function DeleteMax(t: Tree): (r: Tree)
    requires t.Node?
    ensures InOrder(r) + [MaxKeySon(t)] == InOrder(t)
  {
    if t.right.Nil? then t.left
    else
      var n := Node(t.left, t.key, t.value, t.h, DeleteMax(t.right));
      RebalanceInOrder(n);
      Rebalance(n)
  }

  /** `deleteNode(minKeySon(n))`: mirror of DeleteMax. */
  function DeleteMin(t: Tree): (r: Tree)
    requires t.Node?
    ensures [MinKeySon(t)] + InOrder(r) == InOrder(t)
  {
    if t.left.Nil? then t.right
    else
      var n := Node(DeleteMin(t.left), t.key, t.value, t.h, t.right);
      RebalanceInOrder(n);
      Rebalance(n)
  }

  /** Removing the maximum keeps the AVL invariants and lowers the height by at most one. */
  lemma {:induction false} DeleteMaxCorrect(t: Tree)
    requires t.Node? && Avl(t)
    ensures Avl(DeleteMax(t))
    ensures Height(t) - 1 <= Height(DeleteMax(t)) <= Height(t)
  {
    SortedConcat(InOrder(DeleteMax(t)), [MaxKeySon(t)]);
    if t.right.Node? {
      BstParts(t);
      DeleteMaxCorrect(t.right);
      var n := Node(t.left, t.key, t.value, t.h, DeleteMax(t.right));
      if Balance(n) == 2 { RebalanceLeftHeavy(n); } else { RebalanceEven(n); }
    }
  }

  /** Removing the minimum keeps the AVL invariants and lowers the height by at most one. */
  lemma {:induction false} DeleteMinCorrect(t: Tree)
    requires t.Node? && Avl(t)
    ensures Avl(DeleteMin(t))
    ensures Height(t) - 1 <= Height(DeleteMin(t)) <= Height(t)
  {
    SortedConcat([MinKeySon(t)], InOrder(DeleteMin(t)));
    if t.left.Node? {
      BstParts(t);
      DeleteMinCorrect(t.left);
      var n := Node(DeleteMin(t.left), t.key, t.value, t.h, t.right);
      if Balance(n) == -2 { RebalanceRightHeavy(n); } else { RebalanceEven(n); }
    }
  }

  /** `cutLeft(n)`: detach the left subtree; returns it and `n` without it.
      An absent left child is returned as the empty subtree. */
  function CutLeft(n: Tree): (p: (Tree, Tree))
    requires n.Node?
    ensures p.1.Node? && p.1.left.Nil? && p.1.key == n.key
    ensures p.0.Nil? <==> n.left.Nil?
    ensures InOrder(p.0) + InOrder(p.1) == InOrder(n)
  {
    (n.left, n.(left := Nil))
  }

  /** `cutRight(n)`: detach the right subtree; returns it and `n` without it.
      An absent right child is returned as the empty subtree. */
  function CutRight(n: Tree): (p: (Tree, Tree))
    requires n.Node?
    ensures p.1.Node? && p.1.right.Nil? && p.1.key == n.key
    ensures p.0.Nil? <==> n.right.Nil?
    ensures InOrder(p.1) + InOrder(p.0) == InOrder(n)
  {
    (n.right, n.(right := Nil))
  }

  /** `insertAsLeftSubTree(n, s)`: `s` becomes the left child of `n`,
      overwriting the link; no height is recomputed. */
  function GraftLeft(n: Tree, s: Tree): (r: Tree)
    requires n.Node?
    ensures r.Node? && r.key == n.key && r.h == n.h
    ensures n.left.Nil? ==> InOrder(r) == InOrder(s) + InOrder(n)
  {
    n.(left := s)
  }

  /** `insertAsRightSubTree(n, s)`: mirror of GraftLeft. */
  function GraftRight(n: Tree, s: Tree): (r: Tree)
    requires n.Node?
    ensures r.Node? && r.key == n.key && r.h == n.h
    ensures n.right.Nil? ==> InOrder(r) == InOrder(n) + InOrder(s)
  {
    n.(right := s)
  }

  /** Grafting back what was cut restores the node. */
  lemma CutGraftRoundTrip(n: Tree)
    requires n.Node?
    ensures GraftLeft(CutLeft(n).1, CutLeft(n).0) == n
    ensures GraftRight(CutRight(n).1, CutRight(n).0) == n
  {
  }
}
