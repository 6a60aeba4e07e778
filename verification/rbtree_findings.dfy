/** Three places where eraseNode/eraseFixup as written break the tree, each
    modelled as written, shown on a concrete tree, and set against the
    corrected definition the rest of the model uses. */
module Findings {
  import opened Trees
  import opened Zipper
  import opened Deletion

  datatype Option<T> = None | Some(value: T)

  function Leaf(k: int, c: Color): Tree<int>
  {
    Node(c, Nil, k, k, Nil)
  }

  /** The perfect all-Black tree on keys 1..7 (each value equal to its key). */
  function Perfect(): Tree<int>
  {
    Node(Black, Node(Black, Leaf(1, Black), 2, 2, Leaf(3, Black)), 4, 4,
                Node(Black, Leaf(5, Black), 6, 6, Leaf(7, Black)))
  }

  lemma PerfectValid()
    ensures ValidTree(Perfect())
  {
    assert Entries(Perfect()) == [(1, 1), (2, 2), (3, 3), (4, 4), (5, 5), (6, 6), (7, 7)];
  }

  // ---------------------------------------------------------------------
  // RBTree.hpp:377 — the side flag after moving up

  /** The flag as written: the target's side is taken as "equal to the
      parent's child on the old broken side". It is right exactly when the
      broken side was the left one. */
  function AscentSideAsWritten<V>(c: Cursor<V>, isLeftBroken: bool): (isLeft: bool)
    ensures isLeft == AscentSide(c) <==> c.path == [] || isLeftBroken
  {
    c.path == [] || c.path[0].isLeft == isLeftBroken
  }

  /** Erasing 3 from the perfect tree leaves node 2 to the fixup with its
      right side broken. */
  function EraseThreeStart(): Cursor<int>
  {
    Cursor(Node(Black, Leaf(1, Black), 2, 2, Nil),
           [Frame(true, Black, 4, 4, Node(Black, Leaf(5, Black), 6, 6, Leaf(7, Black)))])
  }

  /** As written: brother 1 turns Red, the walk moves to 4 with the flag
      "right" instead of "left", takes 2 (with Red child 1) for the brother,
      rotates 4 to the right, and leaves a tree whose black heights differ. */
  lemma AscentSideCounterexample()
    ensures FixupInv(EraseThreeStart(), false)
    ensures Entries(Whole(EraseThreeStart())) == [(1, 1), (2, 2), (4, 4), (5, 5), (6, 6), (7, 7)]
    ensures !AscentSideAsWritten(RecolorBrother(EraseThreeStart(), false), false)
    ensures AscentSide(RecolorBrother(EraseThreeStart(), false))
    ensures !FixupInv(Up(RecolorBrother(EraseThreeStart(), false)), false)
    ensures Blacken(Whole(RotateParent(Up(RecolorBrother(EraseThreeStart(), false)), false))) ==
            Node(Black, Leaf(1, Black), 2, 2,
                 Node(Black, Nil, 4, 4, Node(Black, Leaf(5, Black), 6, 6, Leaf(7, Black))))
    ensures !Balanced(Blacken(Whole(RotateParent(Up(RecolorBrother(EraseThreeStart(), false)), false))))
  {
    var c := Cursor(Leaf(3, Black), [Frame(false, Black, 2, 2, Leaf(1, Black))] + EraseThreeStart().path);
    var p := EraseThreeStart().path;
    assert c.path[1..] == p && p[1..] == [];
    assert Whole(c) == Plug(Node(Black, Leaf(1, Black), 2, 2, Leaf(3, Black)), p);
    assert Plug(Node(Black, Leaf(1, Black), 2, 2, Leaf(3, Black)), p) == Perfect();
    PerfectValid();
    SpliceStart(c);
    assert Up(Cursor(Nil, c.path)) == EraseThreeStart();
    var u := RecolorBrother(EraseThreeStart(), false);
    assert u.focus == Node(Black, Leaf(1, Red), 2, 2, Nil);
  }

  /** With the corrected flag the walk moves to 4 with its left side broken,
      brother 6 turns Red, and the tree is red-black again. */
  lemma AscentSideCorrected()
    ensures Blacken(Whole(RecolorBrother(Up(RecolorBrother(EraseThreeStart(), false)), true))) ==
            Node(Black, Node(Black, Leaf(1, Red), 2, 2, Nil), 4, 4,
                 Node(Red, Leaf(5, Black), 6, 6, Leaf(7, Black)))
    ensures IsRB(Blacken(Whole(RecolorBrother(Up(RecolorBrother(EraseThreeStart(), false)), true))))
  {
    var u := RecolorBrother(EraseThreeStart(), false);
    assert u.focus == Node(Black, Leaf(1, Red), 2, 2, Nil);
  }

  // ---------------------------------------------------------------------
  // RBTree.hpp:332 — where the fixup starts after a deep successor moved

  /** The start as written: the fixup starts at the successor itself, in its
      new place, with the flag "left" when the successor was not the erased
      node's right child. It agrees with the corrected start exactly when the
      successor was the erased node's right child. */
  function SuccessorStartAsWritten<V>(c: Cursor<V>, below: seq<Frame<V>>, m: Tree<V>): (r: (Cursor<V>, bool))
    requires c.focus.Node? && m.Node?
    ensures r.0.path == c.path && r.0.focus.Node? && r.0.focus.key == m.key
    ensures below == [] ==> r.0 == Up(SuccessorSplice(c, below, m)) && !r.1
    ensures below != [] ==> r.0 != Up(SuccessorSplice(c, below, m)) && r.1
  {
    (Cursor(Attach(MovedFrame(c.focus, m), Plug(m.right, below)), c.path), below != [])
  }

  /** Erasing 4 (the root) from the perfect tree: the successor is 5, the
      left child of 6. */
  function EraseFourBelow(): seq<Frame<int>>
  {
    [Frame(true, Black, 6, 6, Leaf(7, Black))]
  }

  /** As written: the walk starts at 5 with its left side broken, but that
      side (2) is intact; brother 6 turns Red and the walk stops at the root,
      leaving 6's two sides with different black heights. */
  lemma SuccessorStartCounterexample()
    ensures Plug(Leaf(5, Black), EraseFourBelow()) == Perfect().right
    ensures var (s, flag) := SuccessorStartAsWritten(Cursor(Perfect(), []), EraseFourBelow(), Leaf(5, Black));
            !FixupInv(s, flag) && s.path == [] &&
            Blacken(Whole(RecolorBrother(s, flag))) ==
              Node(Black, Node(Black, Leaf(1, Black), 2, 2, Leaf(3, Black)), 5, 5,
                   Node(Red, Nil, 6, 6, Leaf(7, Black))) &&
            !Balanced(Blacken(Whole(RecolorBrother(s, flag))))
  {
  }

  /** Corrected: the walk starts at 6 (the successor's old parent), 7 turns
      Red, the walk climbs to 5 with its right side broken, 2 turns Red, and
      the tree is red-black again. */
  lemma SuccessorStartCorrected()
    ensures var s := SuccessorSplice(Cursor(Perfect(), []), EraseFourBelow(), Leaf(5, Black));
            s.path[0].isLeft &&
            FixupInv(Up(s), true) &&
            Blacken(Whole(RecolorBrother(Up(RecolorBrother(Up(s), true)), false))) ==
              Node(Black, Node(Red, Leaf(1, Black), 2, 2, Leaf(3, Black)), 5, 5,
                   Node(Black, Nil, 6, 6, Leaf(7, Red))) &&
            IsRB(Blacken(Whole(RecolorBrother(Up(RecolorBrother(Up(s), true)), false))))
  {
    var s := SuccessorSplice(Cursor(Perfect(), []), EraseFourBelow(), Leaf(5, Black));
    PerfectValid();
    AllLeftOne(EraseFourBelow());
    SuccessorStart(Cursor(Perfect(), []), EraseFourBelow(), Leaf(5, Black));
    assert Up(s).focus == Node(Black, Nil, 6, 6, Leaf(7, Black));
  }

  lemma AllLeftOne<V>(p: seq<Frame<V>>)
    requires |p| == 1 && p[0].isLeft
    ensures AllLeft(p)
  {
  }

  // ---------------------------------------------------------------------
  // RBTree.hpp:313, 356, 361 — erasing a root with at most one child

  /** brokenNode as written for the 0- and 1-child cases: the erased node's
      parent, which is null at the root. */
  function BrokenNodeAsWritten<V>(c: Cursor<V>): (r: Option<Cursor<V>>)
    requires c.focus.Node? && (c.focus.left.Nil? || c.focus.right.Nil?)
    ensures r.None? <==> c.path == []
    ensures r.Some? ==> r.value == Up(Cursor(Replacement(c.focus), c.path))
    ensures ValidTree(Whole(c)) && r.None? ==> c.focus.color == Black
  {
    if c.path == [] then None else Some(Up(Cursor(Replacement(c.focus), c.path)))
  }

  /** Erasing the root of any red-black tree whose root has at most one child
      erases a Black node, so eraseFixup is called with a null target, which
      it dereferences. */
  lemma RootEraseCounterexample<V>(t: Tree<V>)
    requires ValidTree(t) && t.Node? && (t.left.Nil? || t.right.Nil?)
    ensures t.color == Black && BrokenNodeAsWritten(Cursor(t, [])).None?
  {
  }

  /** The one-entry tree is such a tree. */
  lemma SingletonRootErase()
    ensures ValidTree(Leaf(1, Black)) && BrokenNodeAsWritten(Cursor(Leaf(1, Black), [])).None?
  {
    assert Entries(Leaf(1, Black)) == [(1, 1)];
  }
}
