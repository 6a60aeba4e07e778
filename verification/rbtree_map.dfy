/** The RBTree class (RBTree.hpp:15-170, 258-410): an ordered map from keys to
    values kept as a red-black tree. The node structure is the value of the
    field `root`, which every operation reassigns step by step. */
module RBMap {
  import opened Trees
  import opened Zipper
  import opened Navigation
  import Insertion
  import Deletion

  /** at() either yields the value or throws std::out_of_range. */
  datatype Result<T> = Ok(value: T) | OutOfRange

  class RBTree<V> {
    var root: Tree<V>

    ghost predicate Valid()
      reads this
    {
      ValidTree(root)
    }

    /** The map the tree stands for. */
    ghost function Map(): map<int, V>
      reads this
    {
      Content(root)
    }

    constructor ()
      ensures Valid() && root == Nil && Map() == map[]
    {
      root := Nil;
    }

    /** The copy constructor: a node-for-node copy whose root is made Black. */
    constructor Copy(src: RBTree<V>)
      ensures root == Blacken(src.root)
      ensures src.Valid() ==> Valid() && Map() == src.Map()
    {
      root := Blacken(src.root);
      BlackenEntries(src.root);
    }

    method Clear()
      modifies this
      ensures Valid() && root == Nil && Map() == map[]
    {
      root := Nil;
    }

    method Count(key: int) returns (n: int)
      requires Valid()
      ensures n == (if key in Map() then 1 else 0)
    {
      var c := FindNode(root, key);
      FoundIff(c, key);
      n := if c.focus.Node? && AreKeysEqual(key, c.focus.key) then 1 else 0;
    }

    method At(key: int) returns (r: Result<V>)
      requires Valid()
      ensures key in Map() ==> r == Ok(Map()[key])
      ensures key !in Map() ==> r == OutOfRange
    {
      var c := FindNode(root, key);
      FoundIff(c, key);
      if c.focus.Node? && AreKeysEqual(key, c.focus.key) {
        r := Ok(c.focus.value);
      } else {
        r := OutOfRange;
      }
    }

    /** operator[]: the value under `key`, inserting `init` (standing for T())
        first when the key is absent. */
    method Index(key: int, init: V) returns (v: V)
      requires Valid()
      modifies this
      ensures Valid()
      ensures key in old(Map()) ==> root == old(root) && v == Map()[key]
      ensures key !in old(Map()) ==> Map() == old(Map())[key := init] && v == init
    {
      var c := FindNode(root, key);
      FoundIff(c, key);
      if c.focus.Nil? || !AreKeysEqual(key, c.focus.key) {
        var inserted := InsertNode(c, key, init);
        v := init;
      } else {
        v := c.focus.value;
      }
    }

    /** lowerBound, with iterators as positions in the in-order sequence of
        entries (its length standing for end()). */
    method LowerBound(key: int) returns (i: nat)
      requires Valid()
      ensures i <= |Entries(root)|
      ensures forall j :: 0 <= j < i ==> Entries(root)[j].0 < key
      ensures forall j :: i <= j < |Entries(root)| ==> key <= Entries(root)[j].0
    {
      var c := FindNode(root, key);
      if c.focus.Nil? {
        return 0;
      }
      i := |Before(c.path)| + |Entries(c.focus.left)|;
      if c.focus.key < key {
        i := i + 1;
      }
      LowerBoundAt(c, key, i);
    }

    method Insert(key: int, value: V) returns (inserted: bool)
      requires Valid()
      modifies this
      ensures Valid()
      ensures inserted <==> key !in old(Map())
      ensures inserted ==> Map() == old(Map())[key := value]
      ensures !inserted ==> root == old(root)
    {
      var c := FindNode(root, key);
      inserted := InsertNode(c, key, value);
    }

    /** insertNode on the answer of findNode. */
    method InsertNode(c: Cursor<V>, key: int, value: V) returns (inserted: bool)
      requires Valid() && Whole(c) == root
      requires c.focus.Nil? ==> c.path == []
      requires c.focus.Node? ==> c.focus.key == key || Child(c.focus, key < c.focus.key).Nil?
      requires AllBelow(Before(c.path), key) && AllAbove(After(c.path), key)
      modifies this
      ensures Valid()
      ensures inserted <==> key !in old(Map())
      ensures inserted ==> Map() == old(Map())[key := value]
      ensures !inserted ==> root == old(root)
    {
      FoundIff(c, key);
      if c.focus.Nil? {
        root := Node(Black, Nil, key, value, Nil);
        assert Entries(root) == [] + [(key, value)] + [];
        MapOfInsert([], (key, value), []);
        return true;
      }
      if AreKeysEqual(key, c.focus.key) {
        return false;
      }
      var n := Insertion.AttachRed(c, key, value);
      root := Whole(n);
      InsertFixup(n);
      inserted := true;
    }

    /** insertFixup: climbs while the parent of the target is Red. */
    method InsertFixup(c0: Cursor<V>)
      requires Insertion.FixupInv(c0) && Sorted(Entries(Whole(c0))) && root == Whole(c0)
      modifies this
      ensures Valid() && Entries(root) == Entries(Whole(c0))
    {
      var c := c0;
      while Insertion.ParentRed(c)
        invariant Insertion.FixupInv(c) && root == Whole(c)
        invariant Entries(Whole(c)) == Entries(Whole(c0))
        decreases |c.path|
      {
        Insertion.GrandparentExists(c);
        if ColorOf(Insertion.Uncle(c)) == Red {
          c := Insertion.RecolorUncle(c);
        } else {
          if c.path[0].isLeft != c.path[1].isLeft {
            c := Insertion.RotateInner(c);
          }
          c := Insertion.RotateOuter(c);
        }
        root := Whole(c);
      }
      Insertion.FixupDone(c);
      BlackenEntries(root);
      root := Blacken(root);
    }

    method Erase(key: int) returns (erased: bool)
      requires Valid()
      modifies this
      ensures Valid()
      ensures erased <==> key in old(Map())
      ensures Map() == old(Map()) - {key}
      ensures !erased ==> root == old(root)
    {
      var c := FindNode(root, key);
      FoundIff(c, key);
      if c.focus.Nil? || !AreKeysEqual(key, c.focus.key) {
        return false;
      }
      EraseNode(c);
      Deletion.RemoveContent(c, root);
      erased := true;
    }

    /** eraseNode: unlinks the node in the focus and repairs the colours when
        a Black node left the tree. */
    method EraseNode(c: Cursor<V>)
      requires Valid() && Whole(c) == root && c.focus.Node?
      modifies this
      ensures Valid()
      ensures Entries(root) == Before(c.path) + Entries(c.focus.left) + Entries(c.focus.right) + After(c.path)
    {
      var target := c.focus;
      var erasedColor := target.color;
      if target.left.Nil? || target.right.Nil? {
        var candidate := Deletion.Replacement(target);
        Deletion.SpliceStart(c);
        root := UpdateParentNode(c, candidate);
        if erasedColor == Black {
          if c.path == [] {
            BlackenEntries(root);
            root := Blacken(root);
          } else {
            EraseFixup(Up(Cursor(candidate, c.path)), c.path[0].isLeft);
          }
        }
      } else {
        var m := MinNode(Down(c, false));
        var below := m.path[..|m.path| - |c.path| - 1];
        erasedColor := m.focus.color;
        var isLeftBroken := below != [];
        var moved := Attach(Deletion.MovedFrame(target, m.focus), Plug(m.focus.right, below));
        root := UpdateParentNode(c, moved);
        var spliced := Deletion.SuccessorSplice(c, below, m.focus);
        Deletion.SuccessorSpliceWhole(c, below, m.focus);
        Deletion.SuccessorStart(c, below, m.focus);
        if erasedColor == Black {
          EraseFixup(Up(spliced), isLeftBroken);
        }
      }
    }

    /** eraseFixup: the target's child on side `isLeftBroken` is one Black
        node short; climbs, recolours and rotates until the defect is gone. */
    method EraseFixup(c0: Cursor<V>, isLeftBroken0: bool)
      requires Deletion.FixupInv(c0, isLeftBroken0) && Sorted(Entries(Whole(c0))) && root == Whole(c0)
      modifies this
      ensures Valid() && Entries(root) == Entries(Whole(c0))
    {
      var c, isLeftBroken, done := c0, isLeftBroken0, false;
      while !done && ColorOf(Child(c.focus, isLeftBroken)) == Black
        invariant !done ==> Deletion.FixupInv(c, isLeftBroken)
        invariant done ==> c.path == [] && Deletion.DoneInv(c.focus)
        invariant root == Whole(c) && Entries(Whole(c)) == Entries(Whole(c0))
        decreases (if done then 0 else 1),
                  |c.path| + (if !done && c.focus.Node? && ColorOf(Child(c.focus, isLeftBroken)) == Black then 1 else 0)
      {
        c, isLeftBroken, done := Deletion.FixupStep(c, isLeftBroken);
        root := Whole(c);
      }
      if !done {
        Deletion.BlackenChildDone(c, isLeftBroken);
        c := Deletion.BlackenChild(c, isLeftBroken);
        root := Whole(c);
      } else {
        Deletion.BlackenDone(root);
        BlackenEntries(root);
        root := Blacken(root);
      }
    }
  }
}
