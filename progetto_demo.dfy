/** The two ways of joining a lesser and a greater AVL dictionary (every key
    of the lesser below every key of the greater): re-inserting the entries of
    the lower tree into the other, or splicing the trees together around a
    pivot node and rebalancing along one spine. Also the key-list builders and
    the driver's choice between the two. */
module ProgettoDemo {
  import opened EntryLists
  import opened AvlTree
  import opened Spine
  import opened Dictionary

  datatype Option<T> = None | Some(value: T)

  /** What one run of the program's main block ends with: a failure when the
      test at line 196 reads the height of a missing root, only the
      re-insertion join when that test holds, or both joins
      on separate copies of the trees. Each join is given by the in-order
      sequence of the tree it produced. */
  datatype Outcome =
    | NoRoot
    | DummyOnly(dummy: seq<Entry>)
    | Both(dummy: seq<Entry>, structural: seq<Entry>)

  /** The keys `0 .. n - 1`, each mapped to itself. */
  predicate IsIdentityRun(s: seq<Entry>, n: int) {
    |s| == n && forall i :: 0 <= i < |s| ==> s[i] == (i, i)
  }

  /** `seqList(dim, dim_prevAVL)`: entries `(i + dim_prevAVL, i + dim_prevAVL)`
      for `i` in `range(0, dim)` (empty when `dim` is not positive). */
  method SeqList(dim: int, dimPrevAvl: int) returns (lis: seq<Entry>)
    ensures |lis| == if dim < 0 then 0 else dim
    ensures forall i :: 0 <= i < |lis| ==> lis[i] == (i + dimPrevAvl, i + dimPrevAvl)
    ensures Sorted(lis)
  {
    var n := if dim < 0 then 0 else dim;
    lis := [];
    for i := 0 to n
      invariant |lis| == i
      invariant forall j :: 0 <= j < i ==> lis[j] == (j + dimPrevAvl, j + dimPrevAvl)
    {
      lis := lis + [(i + dimPrevAvl, i + dimPrevAvl)];
    }
  }

  /** `randAVL(lis)`: a new dictionary filled by inserting the entries of
      `lis` in order; for a sorted list its in-order sequence is the list. */
  method RandAvl(lis: seq<Entry>) returns (d: DictAVL)
    ensures fresh(d) && d.Valid()
    ensures Entries(d.root) == ToMap(lis)
    ensures Sorted(lis) ==> InOrder(d.root) == lis
  {
    d := new DictAVL();
    for i := 0 to |lis|
      invariant d.Valid()
      invariant Entries(d.root) == ToMap(lis[..i])
    {
      ToMapSnoc(lis, i);
      d.Insert(lis[i].0, lis[i].1);
    }
    assert lis[..|lis|] == lis;
    if Sorted(lis) {
      SortedUnique(InOrder(d.root), lis);
    }
  }

  /** `concatenation_dummy(avl_1, avl_2)`: the dictionary of greater or equal
      root height (avl_2 on a tie) receives every entry of the other, in
      in-order order; the other is left as it was. Returns the receiver. */
  method ConcatenationDummy(avl1: DictAVL, avl2: DictAVL) returns (avlMax: DictAVL)
    requires avl1 != avl2 && avl1.Valid() && avl2.Valid()
    modifies avl1, avl2
    ensures avlMax == if old(Height(avl2.root)) >= old(Height(avl1.root)) then avl2 else avl1
    ensures avlMax.Valid()
    ensures avlMax == avl2 ==> avl1.root == old(avl1.root) && Entries(avl2.root) == old(Entries(avl2.root)) + old(Entries(avl1.root))
    ensures avlMax == avl1 ==> avl2.root == old(avl2.root) && Entries(avl1.root) == old(Entries(avl1.root)) + old(Entries(avl2.root))
    ensures Separated(old(InOrder(avl1.root)), old(InOrder(avl2.root))) ==>
              InOrder(avlMax.root) == old(InOrder(avl1.root)) + old(InOrder(avl2.root))
  {
    var avlMin: DictAVL;
    if Height(avl2.root) >= Height(avl1.root) {
      avlMax, avlMin := avl2, avl1;
    } else {
      avlMax, avlMin := avl1, avl2;
    }
    ghost var target := avlMax.root;
    var lis := InOrder(avlMin.root);
    assert Entries(target) + ToMap(lis[..0]) == Entries(target);
    for i := 0 to |lis|
      invariant avlMax.Valid() && avlMin.root == old(avlMin.root)
      invariant Entries(avlMax.root) == Entries(target) + ToMap(lis[..i])
    {
      ToMapSnoc(lis, i);
      UnionUpdate(Entries(target), ToMap(lis[..i]), lis[i].0, lis[i].1);
      avlMax.Insert(lis[i].0, lis[i].1);
    }
    assert lis[..|lis|] == lis;
    if Separated(old(InOrder(avl1.root)), old(InOrder(avl2.root))) {
      SeparatedJoin(old(InOrder(avl1.root)), old(InOrder(avl2.root)), InOrder(avlMax.root));
    }
  }

  /** `concatenation(avl_lit, avl_big)`: exactly one structural join, chosen
      by comparing the root heights; the caller guarantees both roots have
      height at least 1 and the key ranges are separated. Returns the
      dictionary that holds the joined tree. */
  method Concatenation(avlLit: DictAVL, avlBig: DictAVL) returns (joined: DictAVL)
    requires avlLit != avlBig && avlLit.Valid() && avlBig.Valid()
    requires Height(avlLit.root) >= 1 && Height(avlBig.root) >= 1
    requires Separated(InOrder(avlLit.root), InOrder(avlBig.root))
    modifies avlLit, avlBig
    ensures joined.Valid()
    ensures InOrder(joined.root) == old(InOrder(avlLit.root)) + old(InOrder(avlBig.root))
    ensures old(Height(avlBig.root)) > old(Height(avlLit.root)) ==> joined == avlBig
    ensures old(Height(avlBig.root)) == old(Height(avlLit.root)) ==> fresh(joined)
    ensures old(Height(avlBig.root)) < old(Height(avlLit.root)) ==> joined == avlLit
    ensures var m := Max(old(Height(avlLit.root)), old(Height(avlBig.root)));
            m <= Height(joined.root) <= m + 1
  {
    if Height(avlBig.root) > Height(avlLit.root) {
      LessMoreHeight(avlLit, avlBig);
      joined := avlBig;
    } else if Height(avlBig.root) == Height(avlLit.root) {
      joined := EqualHeight(avlLit, avlBig);
    } else {
      MoreLessHeight(avlLit, avlBig);
      joined := avlLit;
    }
  }

  /** `less_more_height`: the greater tree is taller. The maximum of the lesser
      tree becomes the pivot; the walk down the greater tree's left spine stops
      at the first node `rad` at most one taller than the lesser tree; the
      pivot, with the lesser tree on its left and `rad`'s old left subtree on
      its right, becomes `rad`'s left child; the walk back up rebalances. */
  method LessMoreHeight(avlLit: DictAVL, avlBig: DictAVL)
    requires avlLit != avlBig && avlLit.Valid() && avlBig.Valid()
    requires 1 <= Height(avlLit.root) < Height(avlBig.root)
    requires Separated(InOrder(avlLit.root), InOrder(avlBig.root))
    modifies avlLit, avlBig
    ensures avlLit.Valid() && avlBig.Valid()
    ensures avlLit.root == DeleteMax(old(avlLit.root))
    ensures InOrder(avlBig.root) == InOrder(avlLit.root) + [MaxKeySon(old(avlLit.root))] + old(InOrder(avlBig.root))
    ensures InOrder(avlBig.root) == old(InOrder(avlLit.root)) + old(InOrder(avlBig.root))
    ensures old(Height(avlBig.root)) <= Height(avlBig.root) <= old(Height(avlBig.root)) + 1
  {
    ghost var litBefore, bigBefore := avlLit.root, avlBig.root;
    var maxSon := MaxKeySon(avlLit.root);
    avlLit.DeleteNode(maxSon);
    var tmpNodeTree := new DictAVL();
    tmpNodeTree.Insert(maxSon.0, maxSon.1);

    var rad, path := DescendLeft(avlBig.root, Height(avlLit.root));
    ghost var stop := rad;
    var cut := CutLeft(rad);
    var pivot := GraftRight(GraftLeft(tmpNodeTree.root, avlLit.root), cut.0);
    rad := GraftLeft(cut.1, pivot);
    var root := RebalanceUp(rad.left, [LeftOf(rad.key, rad.value, rad.h, rad.right)] + path);

    assert pivot == Node(avlLit.root, maxSon.0, maxSon.1, 0, stop.left);
    assert rad.left == pivot && LeftOf(rad.key, rad.value, rad.h, rad.right) == LeftOf(stop.key, stop.value, stop.h, stop.right);
    assert Sorted(InOrder(avlLit.root) + [maxSon] + InOrder(bigBefore)) by {
      SortedConcat(InOrder(litBefore), InOrder(bigBefore));
    }
    LeftJoin(pivot, avlLit.root, maxSon, stop, path, bigBefore);
    avlBig.root := root;
  }

  /** `equal_height`: the maximum of the lesser tree becomes the root, with the
      lesser tree on its left and the greater tree on its right; the walk up
      from the lesser tree's root rebalances. The source builds this tree in
      a temporary dictionary and drops it; here it is returned. */
  method EqualHeight(avlLit: DictAVL, avlBig: DictAVL) returns (joined: DictAVL)
    requires avlLit != avlBig && avlLit.Valid() && avlBig.Valid()
    requires 1 <= Height(avlLit.root) == Height(avlBig.root)
    requires Separated(InOrder(avlLit.root), InOrder(avlBig.root))
    modifies avlLit
    ensures fresh(joined) && joined.Valid() && avlLit.Valid()
    ensures avlLit.root == DeleteMax(old(avlLit.root))
    ensures joined.root.Node? && (joined.root.key, joined.root.value) == MaxKeySon(old(avlLit.root))
    ensures joined.root.left == avlLit.root && joined.root.right == avlBig.root
    ensures InOrder(joined.root) == old(InOrder(avlLit.root)) + InOrder(avlBig.root)
    ensures Height(joined.root) == Height(avlBig.root) + 1
  {
    ghost var litBefore := avlLit.root;
    var maxSon := MaxKeySon(avlLit.root);
    avlLit.DeleteNode(maxSon);
    var tmpNodeTree := new DictAVL();
    tmpNodeTree.Insert(maxSon.0, maxSon.1);

    var pivot := GraftRight(GraftLeft(tmpNodeTree.root, avlLit.root), avlBig.root);
    var root := RebalanceUp(pivot.left, [LeftOf(pivot.key, pivot.value, pivot.h, pivot.right)]);

    RebalanceIdle(avlLit.root);
    assert pivot == Node(avlLit.root, maxSon.0, maxSon.1, 0, avlBig.root);
    assert root == Rebalance(pivot);
    RebalanceEven(pivot);
    SortedConcat(InOrder(litBefore), InOrder(avlBig.root));
    tmpNodeTree.root := root;
    joined := tmpNodeTree;
  }

  /** `more_less_height`: the lesser tree is taller; the mirror of
      less_more_height. The minimum of the greater tree becomes the pivot;
      the walk goes down the lesser tree's right spine; the pivot, with
      `rad`'s old right subtree on its left and the greater tree on its right,
      becomes `rad`'s right child. (Line 158 grafts the old right subtree
      elsewhere; see SpliceAsWritten.) */
  method MoreLessHeight(avlLit: DictAVL, avlBig: DictAVL)
    requires avlLit != avlBig && avlLit.Valid() && avlBig.Valid()
    requires 1 <= Height(avlBig.root) < Height(avlLit.root)
    requires Separated(InOrder(avlLit.root), InOrder(avlBig.root))
    modifies avlLit, avlBig
    ensures avlLit.Valid() && avlBig.Valid()
    ensures avlBig.root == DeleteMin(old(avlBig.root))
    ensures InOrder(avlLit.root) == old(InOrder(avlLit.root)) + [MinKeySon(old(avlBig.root))] + InOrder(avlBig.root)
    ensures InOrder(avlLit.root) == old(InOrder(avlLit.root)) + old(InOrder(avlBig.root))
    ensures old(Height(avlLit.root)) <= Height(avlLit.root) <= old(Height(avlLit.root)) + 1
  {
    ghost var litBefore, bigBefore := avlLit.root, avlBig.root;
    var minSon := MinKeySon(avlBig.root);
    avlBig.DeleteNode(minSon);
    var tmpNodeTree := new DictAVL();
    tmpNodeTree.Insert(minSon.0, minSon.1);

    var rad, path := DescendRight(avlLit.root, Height(avlBig.root));
    ghost var stop := rad;
    var cut := CutRight(rad);
    var pivot := GraftLeft(GraftRight(tmpNodeTree.root, avlBig.root), cut.0);
    rad := GraftRight(cut.1, pivot);
    var root := RebalanceUp(rad.right, [RightOf(rad.left, rad.key, rad.value, rad.h)] + path);

    assert pivot == Node(stop.right, minSon.0, minSon.1, 0, avlBig.root);
    assert rad.right == pivot && RightOf(rad.left, rad.key, rad.value, rad.h) == RightOf(stop.left, stop.key, stop.value, stop.h);
    assert Sorted(InOrder(litBefore) + [minSon] + InOrder(avlBig.root)) by {
      SortedConcat(InOrder(litBefore), InOrder(bigBefore));
      ConcatAssoc(InOrder(litBefore), [minSon], InOrder(avlBig.root));
    }
    RightJoin(pivot, avlBig.root, minSon, stop, path, litBefore);
    ConcatAssoc(InOrder(litBefore), [minSon], InOrder(avlBig.root));
    avlLit.root := root;
  }

  /** The descent of less_more_height: down the left spine of `t` from its
      root, remembering each node left behind, until the first node at most
      one taller than `h`. It stops at a node of height `h` or `h + 1`, after
      a number of steps logarithmic in the size of `t`. */
  method DescendLeft(t: Tree, h: int) returns (rad: Tree, path: seq<Frame>)
    requires Shape(t) && 0 <= h < Height(t)
    ensures Shape(rad) && ValidPath(path, Height(rad)) && PlugAll(path, rad) == t && LeftSpine(path)
    ensures h <= Height(rad) <= h + 1
    ensures forall i :: 0 <= i < |path| ==> path[i].h > h + 1
    ensures |path| + Height(rad) <= Height(t)
    ensures Pow2(|path| / 2) <= Size(t)
  {
    rad, path := t, [];
    while Height(rad) > h + 1
      invariant Shape(rad) && ValidPath(path, Height(rad))
      invariant PlugAll(path, rad) == t
      invariant LeftSpine(path)
      invariant forall i :: 0 <= i < |path| ==> path[i].h > h + 1
      invariant h <= Height(rad)
      invariant |path| + Height(rad) <= Height(t)
      decreases Height(rad)
    {
      path := [LeftOf(rad.key, rad.value, rad.h, rad.right)] + path;
      rad := rad.left;
    }
    HeightLogarithmic(t);
    Pow2Monotone(|path| / 2, Height(t) / 2);
  }

  /** The descent of more_less_height, down the right spine. */
  method DescendRight(t: Tree, h: int) returns (rad: Tree, path: seq<Frame>)
    requires Shape(t) && 0 <= h < Height(t)
    ensures Shape(rad) && ValidPath(path, Height(rad)) && PlugAll(path, rad) == t && RightSpine(path)
    ensures h <= Height(rad) <= h + 1
    ensures forall i :: 0 <= i < |path| ==> path[i].h > h + 1
    ensures |path| + Height(rad) <= Height(t)
    ensures Pow2(|path| / 2) <= Size(t)
  {
    rad, path := t, [];
    while Height(rad) > h + 1
      invariant Shape(rad) && ValidPath(path, Height(rad))
      invariant PlugAll(path, rad) == t
      invariant RightSpine(path)
      invariant forall i :: 0 <= i < |path| ==> path[i].h > h + 1
      invariant h <= Height(rad)
      invariant |path| + Height(rad) <= Height(t)
      decreases Height(rad)
    {
      path := [RightOf(rad.left, rad.key, rad.value, rad.h)] + path;
      rad := rad.right;
    }
    HeightLogarithmic(t);
    Pow2Monotone(|path| / 2, Height(t) / 2);
  }

  /** The whole of less_more_height after the descent: the pivot `m` with
      `lit` on its left and the old left subtree of `stop` on its right, hung
      under `stop` on the left spine of `big`, and the walk up from it, give
      an AVL tree holding `lit`, `m`, then `big`, of `big`'s height or one
      more. */
  lemma LeftJoin(pivot: Tree, lit: Tree, m: Entry, stop: Tree, path: seq<Frame>, big: Tree)
    requires Avl(lit) && Shape(stop) && stop.Node?
    requires pivot == Node(lit, m.0, m.1, 0, stop.left)
    requires LeftSpine(path) && ValidPath(path, Height(stop)) && PlugAll(path, stop) == big
    requires 0 <= Height(lit) <= Height(stop) <= Height(lit) + 1
    requires Sorted(InOrder(lit) + [m] + InOrder(big))
    ensures var root := Walk(pivot, [LeftOf(stop.key, stop.value, stop.h, stop.right)] + path);
            Avl(root) && InOrder(root) == InOrder(lit) + [m] + InOrder(big) &&
            Height(big) <= Height(root) <= Height(big) + 1
  {
    LeftJoinShape(lit, m, stop, path, big);
    LeftJoinOrder(pivot, lit, m, stop, path, big);
  }

  /** LeftJoin for shape and height alone. */
  lemma LeftJoinShape(lit: Tree, m: Entry, stop: Tree, path: seq<Frame>, big: Tree)
    requires Shape(lit) && Shape(stop) && stop.Node?
    requires ValidPath(path, Height(stop)) && PlugAll(path, stop) == big
    requires 0 <= Height(lit) <= Height(stop) <= Height(lit) + 1
    ensures var root := Walk(Node(lit, m.0, m.1, 0, stop.left), [LeftOf(stop.key, stop.value, stop.h, stop.right)] + path);
            Shape(root) && Height(big) <= Height(root) <= Height(big) + 1
  {
    LeftSpliceShape(lit, m.0, m.1, stop, path);
    PlugAllHeight(path, stop);
  }

  /** LeftJoin for order alone, whatever the heights. */
  lemma LeftJoinOrder(pivot: Tree, lit: Tree, m: Entry, stop: Tree, path: seq<Frame>, big: Tree)
    requires stop.Node? && LeftSpine(path) && PlugAll(path, stop) == big
    requires pivot == Node(lit, m.0, m.1, 0, stop.left)
    ensures InOrder(Walk(pivot, [LeftOf(stop.key, stop.value, stop.h, stop.right)] + path)) == InOrder(lit) + [m] + InOrder(big)
  {
    assert InOrder(pivot) == (InOrder(lit) + [m]) + InOrder(stop.left);
    LeftSpliceOrder(pivot, InOrder(lit) + [m], stop, path);
  }

  /** The whole of more_less_height after the descent, the mirror of LeftJoin:
      an AVL tree holding `lit`, `m`, then `big`, of `lit`'s height or one
      more. */
  lemma RightJoin(pivot: Tree, big: Tree, m: Entry, stop: Tree, path: seq<Frame>, lit: Tree)
    requires Avl(big) && Shape(stop) && stop.Node?
    requires pivot == Node(stop.right, m.0, m.1, 0, big)
    requires RightSpine(path) && ValidPath(path, Height(stop)) && PlugAll(path, stop) == lit
    requires 0 <= Height(big) <= Height(stop) <= Height(big) + 1
    requires Sorted(InOrder(lit) + [m] + InOrder(big))
    ensures var root := Walk(pivot, [RightOf(stop.left, stop.key, stop.value, stop.h)] + path);
            Avl(root) && InOrder(root) == InOrder(lit) + [m] + InOrder(big) &&
            Height(lit) <= Height(root) <= Height(lit) + 1
  {
    RightJoinShape(big, m, stop, path, lit);
    RightJoinOrder(pivot, big, m, stop, path, lit);
  }

  /** RightJoin for shape and height alone. */
  lemma RightJoinShape(big: Tree, m: Entry, stop: Tree, path: seq<Frame>, lit: Tree)
    requires Shape(big) && Shape(stop) && stop.Node?
    requires ValidPath(path, Height(stop)) && PlugAll(path, stop) == lit
    requires 0 <= Height(big) <= Height(stop) <= Height(big) + 1
    ensures var root := Walk(Node(stop.right, m.0, m.1, 0, big), [RightOf(stop.left, stop.key, stop.value, stop.h)] + path);
            Shape(root) && Height(lit) <= Height(root) <= Height(lit) + 1
  {
    RightSpliceShape(big, m.0, m.1, stop, path);
    PlugAllHeight(path, stop);
  }

  /** RightJoin for order alone, whatever the heights. */
  lemma RightJoinOrder(pivot: Tree, big: Tree, m: Entry, stop: Tree, path: seq<Frame>, lit: Tree)
    requires stop.Node? && RightSpine(path) && PlugAll(path, stop) == lit
    requires pivot == Node(stop.right, m.0, m.1, 0, big)
    ensures InOrder(Walk(pivot, [RightOf(stop.left, stop.key, stop.value, stop.h)] + path)) == InOrder(lit) + [m] + InOrder(big)
  {
    var x, y := InOrder(lit), InOrder(big);
    assert InOrder(pivot) == InOrder(stop.right) + ([m] + y);
    RightSpliceOrder(pivot, [m] + y, stop, path);
    ConcatAssoc(x, [m], y);
  }

  /** The splice of less_more_height and the walk above it, for shape: with
      the pivot `(k, v)` joining `lit` and the old left subtree of `stop`,
      found on the greater tree's left spine at height `Height(lit)` or one
      more, the walk up yields an AVL shape of the greater tree's height or
      one more. */
  lemma LeftSpliceShape(lit: Tree, k: int, v: int, stop: Tree, path: seq<Frame>)
    requires Shape(lit) && Shape(stop) && stop.Node?
    requires 0 <= Height(lit) <= Height(stop) <= Height(lit) + 1
    requires ValidPath(path, Height(stop))
    ensures var w := Walk(Node(lit, k, v, 0, stop.left), [LeftOf(stop.key, stop.value, stop.h, stop.right)] + path);
            var top := TopHeight(path, Height(stop));
            Shape(w) && top <= Height(w) <= top + 1
  {
    var pivot := Node(lit, k, v, 0, stop.left);
    var f := LeftOf(stop.key, stop.value, stop.h, stop.right);
    SpliceLeftShape(lit, k, v, stop);
    assert ([f] + path)[1..] == path;
    WalkShape(Plug(f, Rebalance(pivot)), path, Height(stop));
  }

  /** The splice of less_more_height, for order: when the pivot subtree
      holds some entries `extra` followed by those of `stop.left`, the walk up
      from it yields `extra` followed by the whole greater tree, whatever the
      heights. */
  lemma LeftSpliceOrder(pivot: Tree, extra: seq<Entry>, stop: Tree, path: seq<Frame>)
    requires stop.Node? && InOrder(pivot) == extra + InOrder(stop.left)
    requires LeftSpine(path)
    ensures InOrder(Walk(pivot, [LeftOf(stop.key, stop.value, stop.h, stop.right)] + path))
            == extra + InOrder(PlugAll(path, stop))
  {
    var up := [LeftOf(stop.key, stop.value, stop.h, stop.right)] + path;
    var e, l, r, a := [(stop.key, stop.value)], InOrder(stop.left), InOrder(stop.right), After(path);
    assert InOrder(Walk(pivot, up)) == (extra + l) + (e + r + a) by {
      LeftWalkOrder(pivot, up);
      assert up[1..] == path;
    }
    assert InOrder(PlugAll(path, stop)) == l + e + r + a by {
      LeftPlugAllOrder(path, stop);
    }
    ConcatRegroup(extra, l, e, r, a);
  }

  /** The mirror of LeftSpliceShape for more_less_height, with the pivot
      joining the old right subtree of `stop` and `big`. */
  lemma RightSpliceShape(big: Tree, k: int, v: int, stop: Tree, path: seq<Frame>)
    requires Shape(big) && Shape(stop) && stop.Node?
    requires 0 <= Height(big) <= Height(stop) <= Height(big) + 1
    requires ValidPath(path, Height(stop))
    ensures var w := Walk(Node(stop.right, k, v, 0, big), [RightOf(stop.left, stop.key, stop.value, stop.h)] + path);
            var top := TopHeight(path, Height(stop));
            Shape(w) && top <= Height(w) <= top + 1
  {
    var pivot := Node(stop.right, k, v, 0, big);
    var f := RightOf(stop.left, stop.key, stop.value, stop.h);
    SpliceRightShape(big, k, v, stop);
    assert ([f] + path)[1..] == path;
    WalkShape(Plug(f, Rebalance(pivot)), path, Height(stop));
  }

  /** The mirror of LeftSpliceOrder: the pivot subtree holds the entries of
      `stop.right` followed by some entries `extra`. */
  lemma RightSpliceOrder(pivot: Tree, extra: seq<Entry>, stop: Tree, path: seq<Frame>)
    requires stop.Node? && InOrder(pivot) == InOrder(stop.right) + extra
    requires RightSpine(path)
    ensures InOrder(Walk(pivot, [RightOf(stop.left, stop.key, stop.value, stop.h)] + path))
            == InOrder(PlugAll(path, stop)) + extra
  {
    var up := [RightOf(stop.left, stop.key, stop.value, stop.h)] + path;
    var b, l, e, r := Before(path), InOrder(stop.left), [(stop.key, stop.value)], InOrder(stop.right);
    assert InOrder(Walk(pivot, up)) == (b + l + e) + (r + extra) by {
      RightWalkOrder(pivot, up);
      assert up[1..] == path;
    }
    assert InOrder(PlugAll(path, stop)) == b + (l + e + r) by {
      RightPlugAllOrder(path, stop);
    }
    ConcatRegroup(b, l, e, r, extra);
  }

  /** A walk up a left spine only appends the ancestors' keys and right
      subtrees to the cursor subtree's entries. */
  lemma LeftWalkOrder(focus: Tree, path: seq<Frame>)
    requires LeftSpine(path)
    ensures InOrder(Walk(focus, path)) == InOrder(focus) + After(path)
  {
    WalkInOrder(focus, path);
    LeftPlugAllOrder(path, focus);
  }

  /** Plugging a subtree back under a left spine appends the same entries. */
  lemma LeftPlugAllOrder(path: seq<Frame>, t: Tree)
    requires LeftSpine(path)
    ensures InOrder(PlugAll(path, t)) == InOrder(t) + After(path)
  {
    PlugAllInOrder(path, t);
    LeftSpineBefore(path);
    assert Before(path) + InOrder(t) == InOrder(t);
  }

  /** A walk up a right spine only prepends the ancestors' left subtrees and
      keys to the cursor subtree's entries. */
  lemma RightWalkOrder(focus: Tree, path: seq<Frame>)
    requires RightSpine(path)
    ensures InOrder(Walk(focus, path)) == Before(path) + InOrder(focus)
  {
    WalkInOrder(focus, path);
    RightPlugAllOrder(path, focus);
  }

  /** Plugging a subtree back under a right spine prepends the same entries. */
  lemma RightPlugAllOrder(path: seq<Frame>, t: Tree)
    requires RightSpine(path)
    ensures InOrder(PlugAll(path, t)) == Before(path) + InOrder(t)
  {
    PlugAllInOrder(path, t);
    RightSpineAfter(path);
    assert Before(path) + InOrder(t) + After(path) == Before(path) + InOrder(t);
  }

  /** Lines 155-158 as written: `rad`'s right subtree is cut, the pivot leaf
      becomes `rad`'s right child with the greater tree on its right, and the
      cut subtree is attached as the left child of `rad.leftSon`, replacing
      whatever hung there. `None` stands for the failed attribute access when
      `rad` has no left child. */
  function SpliceAsWritten(rad: Tree, k: int, v: int, big: Tree): (r: Option<Tree>)
    requires rad.Node?
    ensures r.Some? <==> rad.left.Node?
    ensures r.Some? ==> r.value.Node? && r.value.key == rad.key && r.value.right == Node(Nil, k, v, 0, big)
    ensures r.Some? ==> r.value.left.Node? && r.value.left.key == rad.left.key && r.value.left.left == rad.right
  {
    if rad.left.Nil? then None
    else Some(Node(rad.left.(left := rad.right), rad.key, rad.value, rad.h, Node(Nil, k, v, 0, big)))
  }

  /** Whenever `rad` has both children, the splice as written puts the keys of
      `rad`'s right subtree before the key of `rad.leftSon`, which is smaller
      than all of them: the spliced subtree is not ordered. */
  lemma SpliceAsWrittenUnordered(rad: Tree, k: int, v: int, big: Tree)
    requires rad.Node? && rad.left.Node? && rad.right.Node? && Bst(rad)
    ensures SpliceAsWritten(rad, k, v, big).Some?
    ensures !Bst(SpliceAsWritten(rad, k, v, big).value)
  {
    var s := SpliceAsWritten(rad, k, v, big).value;
    BstParts(rad);
    var l := rad.left;
    var a := InOrder(rad.right);
    assert InOrder(l)[|InOrder(l.left)|] == (l.key, l.value);
    assert l.key < rad.key < a[0].0;
    var wrong := a + [(l.key, l.value)];
    assert !Sorted(wrong) by {
      assert wrong[0].0 == a[0].0 && wrong[|a|].0 == l.key;
    }
    var rest := InOrder(l.right) + [(rad.key, rad.value)] + InOrder(s.right);
    assert InOrder(s) == wrong + rest;
    SortedConcat(wrong, rest);
  }

  /** An upward walk never repairs a disordered subtree: rotations keep the
      in-order sequence, so a tree with a disordered infix stays disordered. */
  lemma DisorderSurvivesWalk(focus: Tree, path: seq<Frame>)
    requires path != [] && !Bst(Plug(path[0], focus))
    ensures !Bst(Walk(focus, path))
  {
    var t := Plug(path[0], focus);
    WalkInOrder(focus, path);
    assert PlugAll(path, focus) == PlugAll(path[1..], t);
    PlugAllInOrder(path[1..], t);
    if Bst(Walk(focus, path)) {
      SortedInfix(Before(path[1..]), InOrder(t), After(path[1..]));
    }
  }

  /** The reachable instance: the lesser tree holds keys 0 to 6 (a perfect
      tree of height 2), the greater keys 7 and 8; after the minimum 7 is
      removed, the descent stops at the node of key 5, whose children are
      4 and 6. As written, key 6 ends up before keys 4 and 5, and the lost
      order survives the walk up, whatever the ancestors `up` above key 5
      (in that instance, the root of key 3). LesserInstance and
      GreaterInstance give the trees randAVL builds for that instance;
      AsWrittenRun runs the rest of the main block from trees of that shape. */
  lemma SpliceAsWrittenExample(up: seq<Frame>)
    ensures var rad := Node(Node(Nil, 4, 4, 0, Nil), 5, 5, 1, Node(Nil, 6, 6, 0, Nil));
            var s := SpliceAsWritten(rad, 7, 7, Node(Nil, 8, 8, 0, Nil));
            s.Some? && InOrder(s.value) == [(6, 6), (4, 4), (5, 5), (7, 7), (8, 8)] &&
            !Bst(Walk(s.value.right, [RightOf(s.value.left, 5, 5, 1)] + up))
  {
    var rad := Node(Node(Nil, 4, 4, 0, Nil), 5, 5, 1, Node(Nil, 6, 6, 0, Nil));
    var s := SpliceAsWritten(rad, 7, 7, Node(Nil, 8, 8, 0, Nil)).value;
    assert s == Node(Node(Node(Nil, 6, 6, 0, Nil), 4, 4, 0, Nil), 5, 5, 1, Node(Nil, 7, 7, 0, Node(Nil, 8, 8, 0, Nil)));
    assert InOrder(s.left) == [(6, 6), (4, 4)];
    assert InOrder(s.right) == [(7, 7), (8, 8)];
    SpliceAsWrittenUnordered(rad, 7, 7, Node(Nil, 8, 8, 0, Nil));
    assert Plug(RightOf(s.left, 5, 5, 1), s.right) == s;
    DisorderSurvivesWalk(s.right, [RightOf(s.left, 5, 5, 1)] + up);
  }

  /** The lesser tree of the instance below: randAVL on `seqList(7, 0)`
      inserts the keys 0 to 6 in order, which gives the perfect tree of
      height 2 rooted at key 3. */
  lemma LesserInstance()
    ensures Insert(Insert(Insert(Insert(Insert(Insert(Insert(Nil, 0, 0), 1, 1), 2, 2), 3, 3), 4, 4), 5, 5), 6, 6)
         == Node(Node(Node(Nil, 0, 0, 0, Nil), 1, 1, 1, Node(Nil, 2, 2, 0, Nil)), 3, 3, 2,
                 Node(Node(Nil, 4, 4, 0, Nil), 5, 5, 1, Node(Nil, 6, 6, 0, Nil)))
  {
    InsertFirstKeys();
    InsertKeyFour();
    InsertKeyFive();
    InsertKeySix();
  }

  /** Inserting 0, 1, 2, 3 into the empty tree; 2 triggers a left rotation. */
  lemma InsertFirstKeys()
    ensures Insert(Insert(Insert(Insert(Nil, 0, 0), 1, 1), 2, 2), 3, 3)
         == Node(Node(Nil, 0, 0, 0, Nil), 1, 1, 2, Node(Nil, 2, 2, 1, Node(Nil, 3, 3, 0, Nil)))
  {
    var n0 := Node(Nil, 0, 0, 0, Nil);
    var t2 := Node(Nil, 0, 0, 1, Node(Nil, 1, 1, 0, Nil));
    assert Insert(n0, 1, 1) == t2;
    assert Insert(Node(Nil, 1, 1, 0, Nil), 2, 2) == Node(Nil, 1, 1, 1, Node(Nil, 2, 2, 0, Nil));
    assert Insert(t2, 2, 2) == Node(n0, 1, 1, 1, Node(Nil, 2, 2, 0, Nil));
  }

  /** Inserting 4 rotates the subtree of key 2 to the left. */
  lemma InsertKeyFour()
    ensures Insert(Node(Node(Nil, 0, 0, 0, Nil), 1, 1, 2, Node(Nil, 2, 2, 1, Node(Nil, 3, 3, 0, Nil))), 4, 4)
         == Node(Node(Nil, 0, 0, 0, Nil), 1, 1, 2, Node(Node(Nil, 2, 2, 0, Nil), 3, 3, 1, Node(Nil, 4, 4, 0, Nil)))
  {
    assert Insert(Node(Nil, 3, 3, 0, Nil), 4, 4) == Node(Nil, 3, 3, 1, Node(Nil, 4, 4, 0, Nil));
  }

  /** Inserting 5 rotates the root to the left. */
  lemma InsertKeyFive()
    ensures Insert(Node(Node(Nil, 0, 0, 0, Nil), 1, 1, 2, Node(Node(Nil, 2, 2, 0, Nil), 3, 3, 1, Node(Nil, 4, 4, 0, Nil))), 5, 5)
         == Node(Node(Node(Nil, 0, 0, 0, Nil), 1, 1, 1, Node(Nil, 2, 2, 0, Nil)), 3, 3, 2,
                 Node(Nil, 4, 4, 1, Node(Nil, 5, 5, 0, Nil)))
  {
    var r := Node(Nil, 4, 4, 1, Node(Nil, 5, 5, 0, Nil));
    assert Insert(Node(Nil, 4, 4, 0, Nil), 5, 5) == r;
    assert Insert(Node(Node(Nil, 2, 2, 0, Nil), 3, 3, 1, Node(Nil, 4, 4, 0, Nil)), 5, 5) == Node(Node(Nil, 2, 2, 0, Nil), 3, 3, 2, r);
  }

  /** Inserting 6 rotates the subtree of key 4 to the left. */
  lemma InsertKeySix()
    ensures Insert(Node(Node(Node(Nil, 0, 0, 0, Nil), 1, 1, 1, Node(Nil, 2, 2, 0, Nil)), 3, 3, 2,
                        Node(Nil, 4, 4, 1, Node(Nil, 5, 5, 0, Nil))), 6, 6)
         == Node(Node(Node(Nil, 0, 0, 0, Nil), 1, 1, 1, Node(Nil, 2, 2, 0, Nil)), 3, 3, 2,
                 Node(Node(Nil, 4, 4, 0, Nil), 5, 5, 1, Node(Nil, 6, 6, 0, Nil)))
  {
    var n6 := Node(Nil, 6, 6, 0, Nil);
    assert Insert(Node(Nil, 5, 5, 0, Nil), 6, 6) == Node(Nil, 5, 5, 1, n6);
    assert Insert(Node(Nil, 4, 4, 1, Node(Nil, 5, 5, 0, Nil)), 6, 6) == Node(Node(Nil, 4, 4, 0, Nil), 5, 5, 1, n6);
  }

  /** The greater tree of the instance: randAVL on `seqList(2, 7)` inserts
      the keys 7 and 8 in order; its minimum is 7, and removing it leaves the
      single node 8. */
  lemma GreaterInstance()
    ensures Insert(Insert(Nil, 7, 7), 8, 8) == Node(Nil, 7, 7, 1, Node(Nil, 8, 8, 0, Nil))
    ensures MinKeySon(Node(Nil, 7, 7, 1, Node(Nil, 8, 8, 0, Nil))) == (7, 7)
    ensures DeleteMin(Node(Nil, 7, 7, 1, Node(Nil, 8, 8, 0, Nil))) == Node(Nil, 8, 8, 0, Nil)
  {
  }

  /** A right-spine descent to height `h` in a tree of height `h + 2` whose
      right child is at most `h + 1` high stops after one step, at that
      child. */
  lemma RightDescentOneStep(t: Tree, h: int, rad: Tree, path: seq<Frame>)
    requires t.Node? && Height(t) == h + 2 && Height(t.right) <= h + 1
    requires RightSpine(path) && PlugAll(path, rad) == t
    requires h <= Height(rad) <= h + 1 && |path| + Height(rad) <= Height(t)
    requires forall i :: 0 <= i < |path| ==> path[i].h > h + 1
    ensures rad == t.right && path == [RightOf(t.left, t.key, t.value, t.h)]
  {
    assert path != [];
    PlugAllTwo(path, rad);
    assert |path| != 2;
  }

  /** Two ancestors plugged back in turn. */
  lemma PlugAllTwo(path: seq<Frame>, t: Tree)
    ensures |path| == 2 ==> PlugAll(path, t) == Plug(path[1], Plug(path[0], t))
    ensures |path| == 1 ==> PlugAll(path, t) == Plug(path[0], t)
  {
    if |path| == 2 {
      assert PlugAll(path[1..], Plug(path[0], t)) == PlugAll(path[2..], Plug(path[1], Plug(path[0], t)));
    }
  }

  /** The main block for `dim1 = 7`, `dim2 = 2` from line 196 on, with line
      158 as written. The dictionaries are those of LesserInstance and
      GreaterInstance, given by what the run looks at: the lesser has root
      height 2 and the node of key 5 as its right child, the greater is the
      node 7 with right child 8. Both roots are at least 1 high and the
      lesser is the taller, so more_less_height runs: it takes the minimum 7
      as the pivot, descends the lesser tree's right spine to key 5 and
      splices as line 158 does. The walk back up ends in a tree that is not a
      search tree. */
  method AsWrittenRun(treeLit: DictAVL, treeBig: DictAVL) returns (root: Tree)
    requires treeLit != treeBig && treeLit.Valid() && treeBig.Valid()
    requires treeLit.root.Node? && Height(treeLit.root) == 2
    requires treeLit.root.right == Node(Node(Nil, 4, 4, 0, Nil), 5, 5, 1, Node(Nil, 6, 6, 0, Nil))
    requires treeBig.root == Node(Nil, 7, 7, 1, Node(Nil, 8, 8, 0, Nil))
    modifies treeBig
    ensures RootGuard(old(treeLit.root), old(treeBig.root)) == Some(false)
    ensures old(Height(treeBig.root)) < old(Height(treeLit.root))
    ensures !Bst(root)
  {
    GreaterInstance();
    assert 1 <= Height(treeBig.root) < Height(treeLit.root);

    var minSon := MinKeySon(treeBig.root);
    treeBig.DeleteNode(minSon);
    var rad, path := DescendRight(treeLit.root, Height(treeBig.root));
    RightDescentOneStep(treeLit.root, 0, rad, path);
    var s := SpliceAsWritten(rad, minSon.0, minSon.1, treeBig.root);
    SpliceAsWrittenExample(path);
    root := RebalanceUp(s.value.right, [RightOf(s.value.left, rad.key, rad.value, rad.h)] + path);
  }

  /** The two key lists of the main block cover the keys `0 .. dim1 + dim2 - 1`
      in order, each mapped to itself, and every lesser key is below every
      greater key. */
  lemma SeqListsJoin(dim1: nat, dim2: nat, lis1: seq<Entry>, lis2: seq<Entry>)
    requires |lis1| == dim1 && forall i :: 0 <= i < |lis1| ==> lis1[i] == (i, i)
    requires |lis2| == dim2 && forall i :: 0 <= i < |lis2| ==> lis2[i] == (i + dim1, i + dim1)
    ensures Separated(lis1, lis2)
    ensures IsIdentityRun(lis1 + lis2, dim1 + dim2)
  {
    var whole := lis1 + lis2;
    forall i | 0 <= i < |whole| ensures whole[i] == (i, i) {
      if i >= |lis1| {
        assert whole[i] == lis2[i - dim1];
      }
    }
  }

  /** A dictionary holding `n >= 1` entries has a root, and the root's cached
      height is 0 exactly when `n` is 1. */
  lemma RootHeightBySize(t: Tree, n: int)
    requires Avl(t) && |InOrder(t)| == n && n >= 1
    ensures t.Node? && (t.h == 0 <==> n == 1) && (n >= 2 ==> Height(t) >= 1)
  {
    InOrderSize(t);
    SingleNodeIffLeaf(t);
  }

  /** Lines 180-188 of the main block: the lists `seqList(dim1, 0)` and
      `seqList(dim2, dim1)` and the two dictionaries built from them. */
  method BuildTrees(dim1: int, dim2: int)
    returns (lis1: seq<Entry>, lis2: seq<Entry>, treeLit: DictAVL, treeBig: DictAVL)
    ensures |lis1| == (if dim1 < 0 then 0 else dim1) && |lis2| == (if dim2 < 0 then 0 else dim2)
    ensures Sorted(lis1) && Sorted(lis2) && Separated(lis1, lis2)
    ensures dim1 >= 0 ==> IsIdentityRun(lis1 + lis2, |lis1| + |lis2|)
    ensures fresh(treeLit) && fresh(treeBig) && treeLit != treeBig
    ensures treeLit.Valid() && treeBig.Valid()
    ensures InOrder(treeLit.root) == lis1 && InOrder(treeBig.root) == lis2
  {
    lis1 := SeqList(dim1, 0);
    lis2 := SeqList(dim2, dim1);
    if dim1 >= 0 {
      SeqListsJoin(dim1, |lis2|, lis1, lis2);
    }
    treeLit := RandAvl(lis1);
    treeBig := RandAvl(lis2);
  }

  /** The `if` branch of the main block: concatenation_dummy alone, on the
      original dictionaries, either of which may be empty. */
  method DummyJoin(lis1: seq<Entry>, lis2: seq<Entry>, treeLit: DictAVL, treeBig: DictAVL)
    returns (dummy: seq<Entry>)
    requires Separated(lis1, lis2)
    requires treeLit != treeBig && treeLit.Valid() && treeBig.Valid()
    requires InOrder(treeLit.root) == lis1 && InOrder(treeBig.root) == lis2
    modifies treeLit, treeBig
    ensures dummy == lis1 + lis2
  {
    var joined := ConcatenationDummy(treeLit, treeBig);
    dummy := InOrder(joined.root);
  }

  /** The `else` branch of the main block: concatenation_dummy on the
      original dictionaries, concatenation on copies rebuilt from the lists. */
  method BothJoins(lis1: seq<Entry>, lis2: seq<Entry>, treeLit: DictAVL, treeBig: DictAVL)
    returns (dummy: seq<Entry>, structural: seq<Entry>)
    requires Sorted(lis1) && Sorted(lis2) && Separated(lis1, lis2)
    requires |lis1| >= 2 && |lis2| >= 2
    requires treeLit != treeBig && treeLit.Valid() && treeBig.Valid()
    requires InOrder(treeLit.root) == lis1 && InOrder(treeBig.root) == lis2
    modifies treeLit, treeBig
    ensures dummy == lis1 + lis2 && structural == lis1 + lis2
  {
    var treeLitCopy := RandAvl(lis1);
    var treeBigCopy := RandAvl(lis2);
    RootHeightBySize(treeLitCopy.root, |lis1|);
    RootHeightBySize(treeBigCopy.root, |lis2|);
    var joinedDummy := ConcatenationDummy(treeLit, treeBig);
    var joined := Concatenation(treeLitCopy, treeBigCopy);
    dummy, structural := InOrder(joinedDummy.root), InOrder(joined.root);
  }

  /** The test at line 196, `lit.root.info[2] == 0 or big.root.info[2] == 0`,
      evaluated left to right as Python's short-circuit `or` does: None when
      it reads the height of a missing root, otherwise whether it holds. The
      greater root is never read when the lesser root has height 0. */
  function RootGuard(lit: Tree, big: Tree): (r: Option<bool>)
    ensures r == None <==> lit.Nil? || (lit.h != 0 && big.Nil?)
    ensures r == Some(true) ==> lit.Node? && (lit.h == 0 || big.h == 0)
    ensures r == Some(false) ==> lit.Node? && big.Node? && lit.h != 0 && big.h != 0
  {
    if lit.Nil? then None
    else if lit.h == 0 then Some(true)
    else if big.Nil? then None
    else Some(big.h == 0)
  }

  /** For the dictionaries built from lists of `n1` and `n2` entries (none
      when the count is not positive), the test at line 196 fails exactly
      when the lesser list is empty or the lesser tree is taller than a leaf
      while the greater list is empty, and it holds exactly when one of the
      trees it reaches is a single node. */
  lemma RootGuardBySize(lit: Tree, big: Tree, n1: int, n2: int)
    requires Avl(lit) && Avl(big)
    requires |InOrder(lit)| == (if n1 < 0 then 0 else n1)
    requires |InOrder(big)| == (if n2 < 0 then 0 else n2)
    ensures RootGuard(lit, big) == None <==> n1 < 1 || (n1 >= 2 && n2 < 1)
    ensures RootGuard(lit, big) == Some(true) <==> n1 == 1 || (n1 >= 2 && n2 == 1)
    ensures RootGuard(lit, big) == Some(false) <==> n1 >= 2 && n2 >= 2
  {
    if lit.Node? {
      RootHeightBySize(lit, n1);
    }
    if big.Node? {
      RootHeightBySize(big, n2);
    }
  }

  /** The main block, without argument parsing, printing and timing: the
      lesser list `seqList(dim1, 0)`, the greater `seqList(dim2, dim1)`, two
      dictionaries built from them, and the choice at line 196 between
      running only concatenation_dummy and running both joins, the structural
      one on fresh copies. Printing the trees is taken to have no effect. */
  method RunJoins(dim1: int, dim2: int) returns (outcome: Outcome)
    ensures outcome.NoRoot? <==> dim1 < 1 || (dim1 >= 2 && dim2 < 1)
    ensures outcome.DummyOnly? <==> dim1 == 1 || (dim1 >= 2 && dim2 == 1)
    ensures outcome.Both? <==> dim1 >= 2 && dim2 >= 2
    ensures !outcome.NoRoot? ==> IsIdentityRun(outcome.dummy, dim1 + (if dim2 < 0 then 0 else dim2))
    ensures outcome.Both? ==> outcome.structural == outcome.dummy
  {
    var listTree1, listTree2, treeLit, treeBig := BuildTrees(dim1, dim2);
    RootGuardBySize(treeLit.root, treeBig.root, dim1, dim2);
    var guard := RootGuard(treeLit.root, treeBig.root);
    if guard == None {
      return NoRoot;
    }
    if guard == Some(true) {
      var dummy := DummyJoin(listTree1, listTree2, treeLit, treeBig);
      outcome := DummyOnly(dummy);
    } else {
      var dummy, structural := BothJoins(listTree1, listTree2, treeLit, treeBig);
      outcome := Both(dummy, structural);
    }
  }

}
