/** The cursor `rad` of the join routines and the `father` links it climbs,
    as a zipper: the subtree rooted at the cursor plus the ancestors between
    it and the root, nearest first. Following `father` is stepping to the next
    frame; the upward walk (`updateHeight` then `rotate` at each node, then
    `rad = rad.father`) is Walk / RebalanceUp. */
module Spine {
  import opened EntryLists
  import opened AvlTree

  /** An ancestor of the cursor: its entry, its cached height, and the child
      the cursor does not lie under. */
  datatype Frame =
    | LeftOf(key: int, value: int, h: nat, right: Tree)   // the cursor is under its left child
    | RightOf(left: Tree, key: int, value: int, h: nat)   // the cursor is under its right child

  /** The ancestor with `t` reattached as the child the cursor came from. */
  function Plug(f: Frame, t: Tree): (r: Tree)
    ensures r.Node? && r.h == f.h
  {
    match f
    case LeftOf(k, v, h, right) => Node(t, k, v, h, right)
    case RightOf(left, k, v, h) => Node(left, k, v, h, t)
  }

  function Sibling(f: Frame): Tree {
    match f
    case LeftOf(_, _, _, right) => right
    case RightOf(left, _, _, _) => left
  }

  /** The whole tree: `t` plugged back under every ancestor up to the root. */
  function PlugAll(path: seq<Frame>, t: Tree): Tree
    decreases |path|
  {
    if path == [] then t else PlugAll(path[1..], Plug(path[0], t))
  }

  /** Entries the ancestors contribute before / after the cursor's subtree. */
  function Before(path: seq<Frame>): seq<Entry>
    decreases |path|
  {
    if path == [] then []
    else match path[0]
      case LeftOf(_, _, _, _) => Before(path[1..])
      case RightOf(left, k, v, _) => Before(path[1..]) + InOrder(left) + [(k, v)]
  }

  function After(path: seq<Frame>): seq<Entry>
    decreases |path|
  {
    if path == [] then []
    else match path[0]
      case LeftOf(k, v, _, right) => [(k, v)] + InOrder(right) + After(path[1..])
      case RightOf(_, _, _, _) => After(path[1..])
  }

  /** The whole tree's in-order sequence is the cursor subtree's, framed by
      what the ancestors contribute; so it depends on the subtree only
      through the subtree's own in-order sequence. */
  lemma {:induction false} PlugAllInOrder(path: seq<Frame>, t: Tree)
    ensures InOrder(PlugAll(path, t)) == Before(path) + InOrder(t) + After(path)
    decreases |path|
  {
    if path != [] {
      var f, rest := path[0], path[1..];
      PlugAllInOrder(rest, Plug(f, t));
      if f.LeftOf? {
        ConcatRegroup(Before(rest), InOrder(t), [(f.key, f.value)], InOrder(f.right), After(rest));
      } else {
        ConcatRegroup(Before(rest), InOrder(f.left), [(f.key, f.value)], InOrder(t), After(rest));
      }
    }
  }

  /** Every ancestor on the path was left by its left child: a descent along
      left children only. */
  predicate LeftSpine(path: seq<Frame>)
    decreases |path|
  {
    path == [] || (path[0].LeftOf? && LeftSpine(path[1..]))
  }

  /** A descent along right children only. */
  predicate RightSpine(path: seq<Frame>)
    decreases |path|
  {
    path == [] || (path[0].RightOf? && RightSpine(path[1..]))
  }

  /** A descent that only went left has nothing before the cursor. */
  lemma {:induction false} LeftSpineBefore(path: seq<Frame>)
    requires LeftSpine(path)
    ensures Before(path) == []
    decreases |path|
  {
    if path != [] {
      LeftSpineBefore(path[1..]);
    }
  }

  /** A descent that only went right has nothing after the cursor. */
  lemma {:induction false} RightSpineAfter(path: seq<Frame>)
    requires RightSpine(path)
    ensures After(path) == []
    decreases |path|
  {
    if path != [] {
      RightSpineAfter(path[1..]);
    }
  }

  /** Height of the root once the cursor's subtree, of height `hOld`, is plugged back. */
  function TopHeight(path: seq<Frame>, hOld: int): int
    decreases |path|
  {
    if path == [] then hOld else TopHeight(path[1..], path[0].h)
  }

  lemma {:induction false} PlugAllHeight(path: seq<Frame>, t: Tree)
    ensures Height(PlugAll(path, t)) == TopHeight(path, Height(t))
    decreases |path|
  {
    if path != [] {
      PlugAllHeight(path[1..], Plug(path[0], t));
    }
  }

  /** The ancestor was a balanced node with a correct cache when its child on
      the cursor's side had height `hOld`. */
  predicate FrameFits(f: Frame, hOld: int) {
    Shape(Sibling(f)) && -1 <= hOld - Height(Sibling(f)) <= 1 && f.h == 1 + Max(hOld, Height(Sibling(f)))
  }

  /** Every ancestor fits the height its cursor-side child had. */
  predicate ValidPath(path: seq<Frame>, hOld: int)
    decreases |path|
  {
    path == [] || (FrameFits(path[0], hOld) && ValidPath(path[1..], path[0].h))
  }

  /** The upward walk from the cursor: rebalance the node, step to the father,
      until the root has been rebalanced. (`rotate` belongs to the dictionary
      module, which is not part of this model, and is reconstructed here as a
      value-level rotation. If the real one relinks nodes, the next
      `rad.father` may be the new local root, whose visit is idle by
      RebalanceIdle; if it swaps node contents, there is no extra visit. The
      walk is the same either way.) */
  function Walk(focus: Tree, path: seq<Frame>): (r: Tree)
    ensures r.Node? <==> focus.Node? || path != []
    decreases |path|
  {
    if path == [] then Rebalance(focus) else Walk(Plug(path[0], Rebalance(focus)), path[1..])
  }

  /** The walk does not change the in-order sequence of the whole tree. */
  lemma {:induction false} WalkInOrder(focus: Tree, path: seq<Frame>)
    ensures InOrder(Walk(focus, path)) == InOrder(PlugAll(path, focus))
    decreases |path|
  {
    RebalanceInOrder(focus);
    if path != [] {
      var f := path[0];
      WalkInOrder(Plug(f, Rebalance(focus)), path[1..]);
      PlugAllInOrder(path[1..], Plug(f, Rebalance(focus)));
      PlugAllInOrder(path[1..], Plug(f, focus));
      assert InOrder(Plug(f, Rebalance(focus))) == InOrder(Plug(f, focus));
    }
  }

  /** One step up after a subtree grew by at most one: the ancestor, rebalanced,
      is well shaped and grew by at most one. */
  lemma GrowStep(f: Frame, t: Tree, hOld: int)
    requires Shape(t) && hOld <= Height(t) <= hOld + 1 && FrameFits(f, hOld)
    ensures Shape(Rebalance(Plug(f, t)))
    ensures f.h <= Height(Rebalance(Plug(f, t))) <= f.h + 1
  {
    var n := Plug(f, t);
    if f.LeftOf? {
      if Balance(n) == 2 { RebalanceLeftHeavy(n); } else { RebalanceEven(n); }
    } else {
      if Balance(n) == -2 { RebalanceRightHeavy(n); } else { RebalanceEven(n); }
    }
  }

  /** Once the cursor's rebalanced subtree is well shaped and at most one
      taller than before, the rest of the walk leaves a well-shaped tree whose
      height is the old root height or one more. */
  lemma {:induction false} WalkShape(focus: Tree, path: seq<Frame>, hOld: int)
    requires Shape(Rebalance(focus)) && hOld <= Height(Rebalance(focus)) <= hOld + 1
    requires ValidPath(path, hOld)
    ensures Shape(Walk(focus, path))
    ensures TopHeight(path, hOld) <= Height(Walk(focus, path)) <= TopHeight(path, hOld) + 1
    decreases |path|
  {
    if path != [] {
      GrowStep(path[0], Rebalance(focus), hOld);
      WalkShape(Plug(path[0], Rebalance(focus)), path[1..], path[0].h);
    }
  }

  /** The loop `while rad != None: updateHeight(rad); rotate(rad); rad = rad.father`. */
  method RebalanceUp(focus: Tree, path: seq<Frame>) returns (root: Tree)
    ensures root == Walk(focus, path)
  {
    var rad, up := focus, path;
    while up != []
      invariant Walk(rad, up) == Walk(focus, path)
      decreases |up|
    {
      rad := Plug(up[0], Rebalance(rad));
      up := up[1..];
    }
    root := Rebalance(rad);
  }

  /** The bottom of less_more_height: the pivot takes `lit` as left child and
      `rad`'s old left subtree as right child, and becomes `rad`'s left child.
      After rebalancing the pivot and then `rad`, the subtree at `rad` is well
      shaped and at most one taller than `rad` was; this includes the case
      where `rad` is three out of balance, which the single rotation fixes. */
  lemma SpliceLeftShape(lit: Tree, pk: int, pv: int, rad: Tree)
    requires Shape(lit) && Shape(rad) && rad.Node?
    requires 0 <= Height(lit) <= Height(rad) <= Height(lit) + 1
    ensures var n := Plug(LeftOf(rad.key, rad.value, rad.h, rad.right), Rebalance(Node(lit, pk, pv, 0, rad.left)));
            Shape(Rebalance(n)) && Height(rad) <= Height(Rebalance(n)) <= Height(rad) + 1
  {
    var c, rr := rad.left, rad.right;
    var pn := Node(lit, pk, pv, 0, c);
    if Balance(pn) == 2 { RebalanceLeftHeavy(pn); } else { RebalanceEven(pn); }
    var p := Rebalance(pn);
    var n := Node(p, rad.key, rad.value, rad.h, rr);
    assert n == Plug(LeftOf(rad.key, rad.value, rad.h, rr), p);
    if Balance(n) == 3 {
      assert Balance(pn) == 1 && p == UpdateHeight(pn);
      var inner := UpdateHeight(Node(c, rad.key, rad.value, 0, rr));
      assert Rebalance(n) == UpdateHeight(Node(lit, pk, pv, 0, inner));
    } else if Balance(n) == 2 {
      RebalanceLeftHeavy(n);
    } else {
      RebalanceEven(n);
    }
  }

  /** Mirror of SpliceLeftShape for more_less_height: the pivot takes `rad`'s
      old right subtree as left child and `big` as right child. */
  lemma SpliceRightShape(big: Tree, pk: int, pv: int, rad: Tree)
    requires Shape(big) && Shape(rad) && rad.Node?
    requires 0 <= Height(big) <= Height(rad) <= Height(big) + 1
    ensures var n := Plug(RightOf(rad.left, rad.key, rad.value, rad.h), Rebalance(Node(rad.right, pk, pv, 0, big)));
            Shape(Rebalance(n)) && Height(rad) <= Height(Rebalance(n)) <= Height(rad) + 1
  {
    var c, rl := rad.right, rad.left;
    var pn := Node(c, pk, pv, 0, big);
    if Balance(pn) == -2 { RebalanceRightHeavy(pn); } else { RebalanceEven(pn); }
    var p := Rebalance(pn);
    var n := Node(rl, rad.key, rad.value, rad.h, p);
    assert n == Plug(RightOf(rl, rad.key, rad.value, rad.h), p);
    if Balance(n) == -3 {
      assert Balance(pn) == -1 && p == UpdateHeight(pn);
      var inner := UpdateHeight(Node(rl, rad.key, rad.value, 0, c));
      assert Rebalance(n) == UpdateHeight(Node(inner, pk, pv, 0, big));
    } else if Balance(n) == -2 {
      RebalanceRightHeavy(n);
    } else {
      RebalanceEven(n);
    }
  }
}
