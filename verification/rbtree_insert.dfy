/** insertNode and the cases of insertFixup (RBTree.hpp:258-308), as steps on
    a cursor at the freshly inserted Red node. */
module Insertion {
  import opened Trees
  import opened Zipper

  /** The red rule holds along the path, except that the parent may be Red
      while the target is Red too. */
  ghost predicate CtxRedExceptParent<V>(path: seq<Frame<V>>)
  {
    path == [] ||
    (NoRedRed(path[0].sibling) &&
     (path[0].color == Red ==> ColorOf(path[0].sibling) == Black) &&
     CtxRed(path[1..], path[0].color))
  }

  /** The loop invariant of insertFixup: the target is Red, the black heights
      agree everywhere, the only possible Red-Red pair is target and parent,
      and the root is Black unless the target is the root. */
  ghost predicate FixupInv<V>(c: Cursor<V>)
  {
    c.focus.Node? && c.focus.color == Red && NoRedRed(c.focus) && Balanced(c.focus) &&
    CtxBal(c.path, BlackHeight(c.focus)) && CtxRedExceptParent(c.path) &&
    (c.path != [] ==> c.path[|c.path| - 1].color == Black)
  }

  /** The loop condition of insertFixup: colorOf(target->p) == Red. */
  predicate ParentRed<V>(c: Cursor<V>)
  {
    c.path != [] && c.path[0].color == Red
  }

  /** The loop condition read on the frames is colorOf applied to the parent
      pointer, with a missing parent (the root) counting as Black. */
  lemma ParentRedIff<V>(c: Cursor<V>)
    ensures ParentRed(c) <==> c.path != [] && ColorOf(Up(c).focus) == Red
    ensures c.path == [] ==> !ParentRed(c)
  {
  }

  /** A Red parent is never the root, so a grandparent exists. */
  lemma GrandparentExists<V>(c: Cursor<V>)
    requires FixupInv(c) && ParentRed(c)
    ensures |c.path| >= 2 && c.path[1].color == Black
  {
  }

  /** insertNode on a non-empty tree (RBTree.hpp:269-277): the new Red leaf
      hangs on the side of the insertion point chosen by comparing keys. */
  function AttachRed<V>(c: Cursor<V>, key: int, value: V): (r: Cursor<V>)
    requires ValidTree(Whole(c))
    requires c.focus.Node? && c.focus.key != key && Child(c.focus, key < c.focus.key).Nil?
    requires AllBelow(Before(c.path), key) && AllAbove(After(c.path), key)
    ensures FixupInv(r) && r.focus == Node(Red, Nil, key, value, Nil)
    ensures Sorted(Entries(Whole(r)))
    ensures key !in Content(Whole(c))
    ensures Content(Whole(r)) == Content(Whole(c))[key := value]
  {
    var cand := c.focus;
    var isLeft := !(cand.key < key);
    var d := Down(c, isLeft);
    var r := Cursor(Node(Red, Nil, key, value, Nil), d.path);
    AttachRedFacts(c, key, value, isLeft, d, r);
    r
  }

  lemma AttachRedFacts<V>(c: Cursor<V>, key: int, value: V, isLeft: bool, d: Cursor<V>, r: Cursor<V>)
    requires ValidTree(Whole(c))
    requires c.focus.Node? && c.focus.key != key && isLeft == !(c.focus.key < key)
    requires Child(c.focus, isLeft).Nil?
    requires AllBelow(Before(c.path), key) && AllAbove(After(c.path), key)
    requires d == Down(c, isLeft) && r == Cursor(Node(Red, Nil, key, value, Nil), d.path)
    ensures FixupInv(r) && Sorted(Entries(Whole(r)))
    ensures key !in Content(Whole(c))
    ensures Content(Whole(r)) == Content(Whole(c))[key := value]
  {
    AttachRedEntries(c, key, value, isLeft, d, r);
    AttachRedShape(c, key, value, isLeft, d, r);
  }

  lemma AttachRedEntries<V>(c: Cursor<V>, key: int, value: V, isLeft: bool, d: Cursor<V>, r: Cursor<V>)
    requires Sorted(Entries(Whole(c)))
    requires c.focus.Node? && c.focus.key != key && isLeft == !(c.focus.key < key)
    requires Child(c.focus, isLeft).Nil?
    requires AllBelow(Before(c.path), key) && AllAbove(After(c.path), key)
    requires d == Down(c, isLeft) && r == Cursor(Node(Red, Nil, key, value, Nil), d.path)
    ensures Sorted(Entries(Whole(r)))
    ensures key !in Content(Whole(c))
    ensures Content(Whole(r)) == Content(Whole(c))[key := value]
  {
    var leaf := Node(Red, Nil, key, value, Nil);
    PlugEntries(leaf, d.path);
    PlugEntries(Nil, d.path);
    var b, a := Before(d.path), After(d.path);
    assert Entries(Whole(r)) == b + [(key, value)] + a;
    assert Entries(Whole(c)) == b + a;
    DescendBounds(c, key, isLeft, d);
    SortedParts(b, a);
    SortedJoin(b, (key, value), a);
    assert key !in KeysOf(a);
    MapOfInsert(b, (key, value), a);
    MapOfDomain(b + a);
    assert key !in KeysOf(b + a) by {
      forall i | 0 <= i < |b + a| ensures (b + a)[i].0 != key {
        if i < |b| { assert (b + a)[i] == b[i]; } else { assert (b + a)[i] == a[i - |b|]; }
      }
    }
  }

  lemma AttachRedShape<V>(c: Cursor<V>, key: int, value: V, isLeft: bool, d: Cursor<V>, r: Cursor<V>)
    requires IsRB(Whole(c))
    requires c.focus.Node? && Child(c.focus, isLeft).Nil?
    requires d == Down(c, isLeft) && r == Cursor(Node(Red, Nil, key, value, Nil), d.path)
    ensures FixupInv(r)
  {
    var cand := c.focus;
    PlugBalancedInv(cand, c.path);
    PlugNoRedRedInv(cand, c.path);
    PlugColor(cand, c.path);
    assert BlackHeight(Child(cand, !isLeft)) == 1;
    assert d.path[0] == Frame(isLeft, cand.color, cand.key, cand.value, Child(cand, !isLeft));
    assert d.path[1..] == c.path;
    assert CtxBal(d.path, 1);
  }

  // ---------------------------------------------------------------------
  // The cases of insertFixup

  /** The uncle: grandpa->child(!isParentLeft). */
  function Uncle<V>(c: Cursor<V>): Tree<V>
    requires |c.path| >= 2
  {
    c.path[1].sibling
  }

  /** The uncle read off the frames is the grandparent's child on the side
      away from the parent. */
  lemma UncleSide<V>(c: Cursor<V>)
    requires |c.path| >= 2
    ensures Up(c).path != [] && Child(Up(Up(c)).focus, c.path[1].isLeft) == Up(c).focus
    ensures Uncle(c) == Child(Up(Up(c)).focus, !c.path[1].isLeft)
  {
  }

  /** Uncle Red (RBTree.hpp:288-294): parent and uncle turn Black, the
      grandparent Red, and the grandparent becomes the target. */
  function RecolorUncle<V>(c: Cursor<V>): (r: Cursor<V>)
    requires FixupInv(c) && ParentRed(c) && ColorOf(Uncle(c)) == Red
    ensures FixupInv(r) && |r.path| == |c.path| - 2
    ensures Entries(Whole(r)) == Entries(Whole(c))
  {
    var pf, gf := c.path[0], c.path[1];
    var parent := Attach(pf.(color := Black), c.focus);
    var grandpa := Attach(gf.(color := Red, sibling := Blacken(gf.sibling)), parent);
    var r := Cursor(grandpa, c.path[2..]);
    RecolorUncleFacts(c, r);
    r
  }

  lemma RecolorUncleFacts<V>(c: Cursor<V>, r: Cursor<V>)
    requires FixupInv(c) && ParentRed(c) && |c.path| >= 2 && ColorOf(c.path[1].sibling) == Red
    requires r == Cursor(Attach(c.path[1].(color := Red, sibling := Blacken(c.path[1].sibling)),
                                Attach(c.path[0].(color := Black), c.focus)), c.path[2..])
    ensures FixupInv(r) && Entries(Whole(r)) == Entries(Whole(c))
  {
    var pf, gf := c.path[0], c.path[1];
    PlugTwo(c.focus, c.path);
    PlugSameEntries(r.focus, Attach(gf, Attach(pf, c.focus)), c.path[2..]);
    assert CtxRed(c.path[1..], Red);
    assert gf.color == Black;
    assert CtxBal(c.path[1..], BlackHeight(c.focus));
    assert CtxBal(c.path[2..], BlackHeight(c.focus) + 1);
    NoRedRedBlacken(gf.sibling);
    assert CtxRed(c.path[2..], Black);
  }

  /** Uncle Black, target an inner grandchild (RBTree.hpp:297-301): the parent
      becomes the target and is rotated, making it an outer grandchild. */
  function RotateInner<V>(c: Cursor<V>): (r: Cursor<V>)
    requires FixupInv(c) && ParentRed(c) && ColorOf(Uncle(c)) == Black
    requires c.path[0].isLeft != c.path[1].isLeft
    ensures FixupInv(r) && ParentRed(r) && |r.path| == |c.path|
    ensures ColorOf(Uncle(r)) == Black && r.path[0].isLeft == r.path[1].isLeft
    ensures Entries(Whole(r)) == Entries(Whole(c))
  {
    var isParentLeft := c.path[1].isLeft;
    var up := Up(c);
    var r := Down(Cursor(Rotate(up.focus, isParentLeft), up.path), isParentLeft);
    RotateInnerFacts(c, up, r);
    r
  }

  lemma RotateInnerFacts<V>(c: Cursor<V>, up: Cursor<V>, r: Cursor<V>)
    requires FixupInv(c) && ParentRed(c) && |c.path| >= 2 && ColorOf(c.path[1].sibling) == Black
    requires c.path[0].isLeft != c.path[1].isLeft
    requires up == Up(c)
    requires r == Down(Cursor(Rotate(up.focus, c.path[1].isLeft), up.path), c.path[1].isLeft)
    ensures FixupInv(r) && ParentRed(r) && |r.path| >= 2
    ensures ColorOf(r.path[1].sibling) == Black && r.path[0].isLeft == r.path[1].isLeft
    ensures Entries(Whole(r)) == Entries(Whole(c))
  {
    var s := c.path[1].isLeft;
    var t := c.focus;
    var pf := c.path[0];
    PlugSameEntries(Rotate(up.focus, s), up.focus, up.path);
    assert r.path[1..] == c.path[1..];
    assert r.path[1] == c.path[1];
    // the old parent, now the target
    assert r.focus == Node(Red, if s then pf.sibling else Child(t, s), pf.key, pf.value,
                           if s then Child(t, s) else pf.sibling);
    assert ColorOf(Child(t, s)) == Black && ColorOf(Child(t, !s)) == Black;
    assert BlackHeight(Child(t, s)) == BlackHeight(t) && BlackHeight(Child(t, !s)) == BlackHeight(t);
    assert BlackHeight(r.focus) == BlackHeight(t);
    assert CtxBal(r.path, BlackHeight(t));
  }

  /** Uncle Black, target an outer grandchild (RBTree.hpp:302-304): the parent
      turns Black, the grandparent Red, and the grandparent is rotated so that
      the parent takes its place. The loop ends: the target's parent is Black. */
  function RotateOuter<V>(c: Cursor<V>): (r: Cursor<V>)
    requires FixupInv(c) && ParentRed(c) && ColorOf(Uncle(c)) == Black
    requires c.path[0].isLeft == c.path[1].isLeft
    ensures FixupInv(r) && !ParentRed(r) && |r.path| == |c.path| - 1
    ensures Entries(Whole(r)) == Entries(Whole(c))
  {
    var isParentLeft := c.path[1].isLeft;
    var pf, gf := c.path[0].(color := Black), c.path[1].(color := Red);
    var g := Attach(gf, Attach(pf, c.focus));
    var r := Down(Cursor(Rotate(g, !isParentLeft), c.path[2..]), isParentLeft);
    RotateOuterFacts(c, g, r);
    r
  }

  lemma RotateOuterFacts<V>(c: Cursor<V>, g: Tree<V>, r: Cursor<V>)
    requires FixupInv(c) && ParentRed(c) && |c.path| >= 2 && ColorOf(c.path[1].sibling) == Black
    requires c.path[0].isLeft == c.path[1].isLeft
    requires g == Attach(c.path[1].(color := Red), Attach(c.path[0].(color := Black), c.focus))
    requires g.Node? && Child(g, c.path[1].isLeft).Node?
    requires r == Down(Cursor(Rotate(g, !c.path[1].isLeft), c.path[2..]), c.path[1].isLeft)
    ensures FixupInv(r) && !ParentRed(r) && |r.path| == |c.path| - 1
    ensures Entries(Whole(r)) == Entries(Whole(c))
  {
    RotateOuterShape(c, g, r);
    OuterSiblingFacts(c);
    var sib := OuterSibling(c);
    assert CtxBal(r.path, BlackHeight(c.focus)) by {
      assert r.path[1..] == c.path[2..];
    }
    assert CtxRedExceptParent(r.path) by {
      assert r.path[1..] == c.path[2..];
    }
  }

  /** The grandparent, turned Red, with the uncle and the parent's other
      child: the new sibling of the target after the outer rotation. */
  ghost function OuterSibling<V>(c: Cursor<V>): Tree<V>
    requires |c.path| >= 2
  {
    var s, pf, gf := c.path[1].isLeft, c.path[0], c.path[1];
    Node(Red, if s then pf.sibling else gf.sibling, gf.key, gf.value, if s then gf.sibling else pf.sibling)
  }

  lemma RotateOuterShape<V>(c: Cursor<V>, g: Tree<V>, r: Cursor<V>)
    requires |c.path| >= 2 && c.path[0].isLeft == c.path[1].isLeft
    requires g == Attach(c.path[1].(color := Red), Attach(c.path[0].(color := Black), c.focus))
    requires g.Node? && Child(g, c.path[1].isLeft).Node?
    requires r == Down(Cursor(Rotate(g, !c.path[1].isLeft), c.path[2..]), c.path[1].isLeft)
    ensures r.focus == c.focus && r.path[1..] == c.path[2..] && |r.path| == |c.path| - 1
    ensures r.path[0] == Frame(c.path[1].isLeft, Black, c.path[0].key, c.path[0].value, OuterSibling(c))
    ensures Entries(Whole(r)) == Entries(Whole(c))
  {
    var s := c.path[1].isLeft;
    var pf, gf := c.path[0], c.path[1];
    var t := c.focus;
    PlugTwo(t, c.path);
    PlugSameEntries(Rotate(g, !s), Attach(gf, Attach(pf, t)), c.path[2..]);
  }

  lemma OuterSiblingFacts<V>(c: Cursor<V>)
    requires FixupInv(c) && ParentRed(c) && |c.path| >= 2 && ColorOf(c.path[1].sibling) == Black
    requires c.path[0].isLeft == c.path[1].isLeft
    ensures NoRedRed(OuterSibling(c)) && Balanced(OuterSibling(c))
    ensures BlackHeight(OuterSibling(c)) == BlackHeight(c.focus)
    ensures CtxBal(c.path[2..], BlackHeight(c.focus) + 1) && CtxRed(c.path[2..], Black)
  {
    assert CtxRed(c.path[1..], Red);
    assert c.path[1].color == Black;
    assert CtxBal(c.path[1..], BlackHeight(c.focus));
    assert c.path[1..][1..] == c.path[2..];
  }

  /** After the loop the root is forced Black (RBTree.hpp:307), which yields a red-black tree. */
  lemma FixupDone<V>(c: Cursor<V>)
    requires FixupInv(c) && !ParentRed(c)
    ensures IsRB(Blacken(Whole(c)))
  {
    if c.path == [] {
      assert Blacken(Whole(c)) == c.focus.(color := Black);
    } else {
      assert CtxRed(c.path, Red);
      PlugNoRedRed(c.focus, c.path);
      PlugBalanced(c.focus, c.path);
      assert ColorOf(Whole(c)) == Black;
      assert Blacken(Whole(c)) == Whole(c);
    }
  }
}
