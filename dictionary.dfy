/** `DictAVL`: the dictionary object the joins receive and mutate. It owns one
    AVL tree (`tree.root` in the source, `root` here). */
module Dictionary {
  import opened EntryLists
  import opened AvlTree

  class DictAVL {
    var root: Tree

    /** The BST, balance and height-cache invariants of the owned tree. */
    predicate Valid()
      reads this
    {
      Avl(root)
    }

    /** `DictAVL()`: an empty dictionary. */
    constructor ()
      ensures Valid() && root == Nil
    {
      root := Nil;
    }

    /** `insert(key, value)`. */
    method Insert(k: int, v: int)
      requires Valid()
      modifies this
      ensures Valid()
      ensures root == AvlTree.Insert(old(root), k, v)
      ensures InOrder(root) == SortedInsert(old(InOrder(root)), k, v)
      ensures Entries(root) == old(Entries(root))[k := v]
      ensures old(Height(root)) <= Height(root) <= old(Height(root)) + 1
    {
      InsertCorrect(root, k, v);
      root := AvlTree.Insert(root, k, v);
    }

    /** `deleteNode(son)` for the two nodes the joins pass it: the node found
        by `maxKeySon(root)` or by `minKeySon(root)`. */
    method DeleteNode(son: Entry)
      requires Valid() && root.Node?
      requires son == MaxKeySon(root) || son == MinKeySon(root)
      modifies this
      ensures Valid()
      ensures son == old(MaxKeySon(root)) ==> root == DeleteMax(old(root)) && InOrder(root) + [son] == old(InOrder(root))
      ensures son == old(MinKeySon(root)) ==> root == DeleteMin(old(root)) && [son] + InOrder(root) == old(InOrder(root))
      ensures old(Height(root)) - 1 <= Height(root) <= old(Height(root))
    {
      SortedEnds(InOrder(root));
      if son == MaxKeySon(root) {
        DeleteMaxCorrect(root);
        root := DeleteMax(root);
      } else {
        DeleteMinCorrect(root);
        root := DeleteMin(root);
      }
    }
  }
}
