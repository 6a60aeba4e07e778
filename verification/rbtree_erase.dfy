/** eraseNode and the cases of eraseFixup (RBTree.hpp:309-410), as steps on a
    cursor at the node whose child on side `isLeftBroken` lost a Black node. */
module Deletion {
  import opened Trees
  import opened Zipper

  /** The loop invariant of eraseFixup, for the target (the focus) and the side
      flag: the child on that side is one Black node short of its brother, the
      child may be Red with Red children ("extra Black" still to be painted),
      everything else keeps the red-black rules, and the root is Black. */
  ghost predicate FixupInv<V>(c: Cursor<V>, isLeftBroken: bool)
  {
    c.focus.Node? &&
    var t, x, b := c.focus, Child(c.focus, isLeftBroken), Child(c.focus, !isLeftBroken);
    Balanced(x) && Balanced(b) && BlackHeight(x) + 1 == BlackHeight(b) &&
    CtxBal(c.path, BlackHeight(b) + BlackOf(t.color)) &&
    NoRedRed(Blacken(x)) && NoRedRed(b) && (t.color == Red ==> ColorOf(b) == Black) &&
    CtxRed(c.path, t.color) && TopColor(c.path, t.color) == Black
  }

  /** What holds once the target became null: the whole tree keeps all rules
      except perhaps the colour of its root. */
  ghost predicate DoneInv<V>(t: Tree<V>)
  {
    NoRedRed(t) && Balanced(t)
  }

  lemma BlackenDone<V>(t: Tree<V>)
    requires DoneInv(t)
    ensures IsRB(Blacken(t))
  {
  }

  /** The red-black predicates of a node, read through Child on either side. */
  lemma NodeFacts<V>(t: Tree<V>, isLeft: bool)
    requires t.Node?
    ensures Balanced(t) <==> Balanced(Child(t, isLeft)) && Balanced(Child(t, !isLeft)) &&
                             BlackHeight(Child(t, isLeft)) == BlackHeight(Child(t, !isLeft))
    ensures Balanced(t) ==> BlackHeight(t) == BlackHeight(Child(t, isLeft)) + BlackOf(t.color)
    ensures NoRedRed(t) <==> (t.color == Red ==> ColorOf(Child(t, isLeft)) == Black && ColorOf(Child(t, !isLeft)) == Black) &&
                             NoRedRed(Child(t, isLeft)) && NoRedRed(Child(t, !isLeft))
  {
  }

  lemma CtxRedWeaken<V>(path: seq<Frame<V>>)
    requires CtxRed(path, Red)
    ensures CtxRed(path, Black)
  {
  }

  lemma RecolorEntries<V>(t: Tree<V>, c: Color)
    requires t.Node?
    ensures Entries(t.(color := c)) == Entries(t)
  {
  }

  lemma SetChildEntries<V>(t: Tree<V>, isLeft: bool, x: Tree<V>, y: Tree<V>)
    requires t.Node? && Entries(x) == Entries(y)
    ensures Entries(SetChild(t, isLeft, x)) == Entries(SetChild(t, isLeft, y))
  {
  }

  // ---------------------------------------------------------------------
  // The cases of eraseFixup

  /** Brother Red (RBTree.hpp:366-372): the brother turns Black, the target
      Red, and the target is rotated towards the broken side; the target stays
      the target, one level lower, with a new (Black) brother. */
  function RedBrother<V>(c: Cursor<V>, isLeftBroken: bool): (r: Cursor<V>)
    requires c.focus.Node? && Child(c.focus, !isLeftBroken).Node?
    ensures Entries(Whole(r)) == Entries(Whole(c))
    ensures r.focus.Node? && Child(r.focus, isLeftBroken) == Child(c.focus, isLeftBroken)
  {
    var t := c.focus;
    var b := Child(t, !isLeftBroken);
    var t' := SetChild(t.(color := Red), !isLeftBroken, b.(color := Black));
    RecolorEntries(b, Black);
    SetChildEntries(t.(color := Red), !isLeftBroken, b.(color := Black), b);
    RecolorEntries(t, Red);
    assert SetChild(t.(color := Red), !isLeftBroken, b) == t.(color := Red);
    PlugSameEntries(Rotate(t', isLeftBroken), t, c.path);
    RotateShape(t', isLeftBroken);
    Down(Cursor(Rotate(t', isLeftBroken), c.path), isLeftBroken)
  }

  /** Brother Black with two Black children, first half (RBTree.hpp:376):
      the brother turns Red. */
  function RecolorBrother<V>(c: Cursor<V>, isLeftBroken: bool): (r: Cursor<V>)
    requires c.focus.Node? && Child(c.focus, !isLeftBroken).Node?
    ensures Entries(Whole(r)) == Entries(Whole(c)) && r.path == c.path
    ensures r.focus.Node? && r.focus.color == c.focus.color
    ensures Child(r.focus, isLeftBroken) == Child(c.focus, isLeftBroken)
  {
    var t := c.focus;
    var b := Child(t, !isLeftBroken);
    RecolorEntries(b, Red);
    SetChildEntries(t, !isLeftBroken, b.(color := Red), b);
    assert SetChild(t, !isLeftBroken, b) == t;
    PlugSameEntries(SetChild(t, !isLeftBroken, b.(color := Red)), t, c.path);
    Cursor(SetChild(t, !isLeftBroken, b.(color := Red)), c.path)
  }

  /** Second half (RBTree.hpp:377-378): the defect moves up to the target,
      whose side under its parent is the new flag. This is the corrected flag:
      the target is the root or its parent's left child. */
  function AscentSide<V>(c: Cursor<V>): (isLeft: bool)
    ensures c.path != [] ==> isLeft == c.path[0].isLeft
    ensures c.path != [] ==> Child(Up(c).focus, isLeft) == c.focus
  {
    c.path == [] || c.path[0].isLeft
  }

  /** Brother Black, far child Black, near child Red (RBTree.hpp:387-393):
      the near child turns Black, the brother Red, and the brother is rotated
      away from the broken side. */
  function RotateBrother<V>(c: Cursor<V>, isLeftBroken: bool): (r: Cursor<V>)
    requires c.focus.Node? && Child(c.focus, !isLeftBroken).Node?
    requires Child(Child(c.focus, !isLeftBroken), isLeftBroken).Node?
    ensures Entries(Whole(r)) == Entries(Whole(c)) && r.path == c.path
    ensures r.focus.Node? && r.focus.color == c.focus.color
    ensures Child(r.focus, isLeftBroken) == Child(c.focus, isLeftBroken)
  {
    var s := isLeftBroken;
    var t := c.focus;
    var b := Child(t, !s);
    var near := Child(b, s);
    var b' := SetChild(b.(color := Red), s, near.(color := Black));
    RecolorEntries(near, Black);
    SetChildEntries(b.(color := Red), s, near.(color := Black), near);
    RecolorEntries(b, Red);
    assert SetChild(b.(color := Red), s, near) == b.(color := Red);
    SetChildEntries(t, !s, Rotate(b', !s), b);
    assert SetChild(t, !s, b) == t;
    PlugSameEntries(SetChild(t, !s, Rotate(b', !s)), t, c.path);
    Cursor(SetChild(t, !s, Rotate(b', !s)), c.path)
  }

  /** Brother Black, far child Red (RBTree.hpp:394-399): the brother takes
      the target's colour, target and far child turn Black, and the target is
      rotated towards the broken side. The walk ends. */
  function RotateParent<V>(c: Cursor<V>, isLeftBroken: bool): (r: Cursor<V>)
    requires c.focus.Node? && Child(c.focus, !isLeftBroken).Node?
    requires Child(Child(c.focus, !isLeftBroken), !isLeftBroken).Node?
    ensures Entries(Whole(r)) == Entries(Whole(c)) && r.path == c.path
  {
    var s := isLeftBroken;
    var t := c.focus;
    var b := Child(t, !s);
    var far := Child(b, !s);
    var b' := SetChild(b.(color := t.color), !s, far.(color := Black));
    var t' := SetChild(t.(color := Black), !s, b');
    RecolorEntries(far, Black);
    SetChildEntries(b.(color := t.color), !s, far.(color := Black), far);
    RecolorEntries(b, t.color);
    assert SetChild(b.(color := t.color), !s, far) == b.(color := t.color);
    SetChildEntries(t.(color := Black), !s, b', b);
    RecolorEntries(t, Black);
    assert SetChild(t.(color := Black), !s, b) == t.(color := Black);
    PlugSameEntries(Rotate(t', s), t, c.path);
    Cursor(Rotate(t', s), c.path)
  }

  /** After the loop with a live target (RBTree.hpp:402-405): the Red child
      absorbs the missing Black. */
  function BlackenChild<V>(c: Cursor<V>, isLeftBroken: bool): (r: Cursor<V>)
    requires c.focus.Node?
    ensures r.path == c.path && Entries(Whole(r)) == Entries(Whole(c))
  {
    var x := Child(c.focus, isLeftBroken);
    BlackenEntries(x);
    SetChildEntries(c.focus, isLeftBroken, Blacken(x), x);
    assert SetChild(c.focus, isLeftBroken, x) == c.focus;
    PlugSameEntries(SetChild(c.focus, isLeftBroken, Blacken(x)), c.focus, c.path);
    Cursor(SetChild(c.focus, isLeftBroken, Blacken(x)), c.path)
  }

  // ---------------------------------------------------------------------
  // The invariant across the cases

  lemma RedBrotherInv<V>(c: Cursor<V>, s: bool)
    requires FixupInv(c, s)
    requires ColorOf(Child(c.focus, s)) == Black && ColorOf(Child(c.focus, !s)) == Red
    ensures FixupInv(RedBrother(c, s), s)
    ensures RedBrother(c, s).focus.color == Red && |RedBrother(c, s).path| == |c.path| + 1
  {
    var t := c.focus;
    var b := Child(t, !s);
    var t' := SetChild(t.(color := Red), !s, b.(color := Black));
    RotateShape(t', s);
    var r := RedBrother(c, s);
    assert r.path[1..] == c.path;
    assert r.path[0] == Frame(s, Black, b.key, b.value, Child(b, !s));
    assert r.focus == SetChild(t.(color := Red), !s, Child(b, s));
    assert t.color == Black;
  }

  lemma RecolorBrotherInv<V>(c: Cursor<V>, s: bool)
    requires FixupInv(c, s)
    requires ColorOf(Child(c.focus, s)) == Black && ColorOf(Child(c.focus, !s)) == Black
    requires ColorOf(Child(Child(c.focus, !s), s)) == Black
    requires ColorOf(Child(Child(c.focus, !s), !s)) == Black
    ensures c.path == [] ==> DoneInv(RecolorBrother(c, s).focus)
    ensures c.path != [] ==> FixupInv(Up(RecolorBrother(c, s)), AscentSide(c))
  {
    var r := RecolorBrother(c, s);
    var t := c.focus;
    var x := Child(t, s);
    assert Blacken(x) == x;
    if c.path != [] {
      var u := Up(r);
      assert Child(u.focus, AscentSide(c)) == r.focus;
      assert Child(u.focus, !AscentSide(c)) == c.path[0].sibling;
      var b := Child(t, !s);
      assert Child(r.focus, !s) == b.(color := Red);
      assert NoRedRed(Child(b, s)) && NoRedRed(Child(b, !s));
      assert NoRedRed(b.(color := Red));
      assert NoRedRed(Blacken(r.focus));
    }
  }

  lemma RotateBrotherInv<V>(c: Cursor<V>, s: bool)
    requires FixupInv(c, s)
    requires ColorOf(Child(c.focus, s)) == Black && ColorOf(Child(c.focus, !s)) == Black
    requires ColorOf(Child(Child(c.focus, !s), s)) == Red
    requires ColorOf(Child(Child(c.focus, !s), !s)) == Black
    ensures FixupInv(RotateBrother(c, s), s)
    ensures ColorOf(Child(RotateBrother(c, s).focus, !s)) == Black
    ensures ColorOf(Child(Child(RotateBrother(c, s).focus, !s), !s)) == Red
  {
    var t := c.focus;
    var b := Child(t, !s);
    var near := Child(b, s);
    assert NoRedRed(near) && near.color == Red;
    assert ColorOf(Child(near, s)) == Black && ColorOf(Child(near, !s)) == Black;
    var b' := SetChild(b.(color := Red), s, near.(color := Black));
    RotateShape(b', !s);
    var nb := Rotate(b', !s);
    var low := SetChild(b', s, Child(near, !s));
    assert nb == SetChild(near.(color := Black), !s, low);
    assert Child(low, !s) == Child(b, !s);
    NodeFacts(low, s);
    NodeFacts(b, s);
    NodeFacts(near, s);
    assert NoRedRed(low) && Balanced(low) && BlackHeight(low) + 1 == BlackHeight(b);
    assert Child(nb, s) == Child(near, s);
    NodeFacts(nb, s);
    assert NoRedRed(nb) && Balanced(nb) && BlackHeight(nb) == BlackHeight(b);
  }

  lemma RotateParentInv<V>(c: Cursor<V>, s: bool)
    requires FixupInv(c, s)
    requires ColorOf(Child(c.focus, s)) == Black && ColorOf(Child(c.focus, !s)) == Black
    requires ColorOf(Child(Child(c.focus, !s), !s)) == Red
    ensures DoneInv(Whole(RotateParent(c, s)))
  {
    var t := c.focus;
    var x := Child(t, s);
    var b := Child(t, !s);
    var far := Child(b, !s);
    var b' := SetChild(b.(color := t.color), !s, far.(color := Black));
    var t' := SetChild(t.(color := Black), !s, b');
    RotateShape(t', s);
    var top := Rotate(t', s);
    assert Blacken(x) == x;
    var low := SetChild(t.(color := Black), !s, Child(b, s));
    assert top == SetChild(b', s, low);
    assert Child(low, s) == x && Child(low, !s) == Child(b, s);
    NodeFacts(low, s);
    NodeFacts(b, s);
    NodeFacts(t, s);
    assert NoRedRed(low) && Balanced(low) && BlackHeight(low) == BlackHeight(b);
    assert NoRedRed(far) && far.color == Red;
    assert Child(top, !s) == far.(color := Black);
    assert NoRedRed(far.(color := Black)) && Balanced(far.(color := Black));
    assert BlackHeight(far.(color := Black)) == BlackHeight(b);
    NodeFacts(top, s);
    assert NoRedRed(top) && Balanced(top);
    assert BlackHeight(top) == BlackHeight(b) + BlackOf(t.color);
    PlugBalanced(top, c.path);
    PlugNoRedRed(top, c.path);
  }

  lemma BlackenChildDone<V>(c: Cursor<V>, s: bool)
    requires FixupInv(c, s) && ColorOf(Child(c.focus, s)) == Red
    ensures IsRB(Whole(BlackenChild(c, s)))
  {
    var r := BlackenChild(c, s);
    var t := c.focus;
    assert Child(r.focus, s) == Blacken(Child(t, s));
    assert Child(r.focus, !s) == Child(t, !s);
    assert BlackHeight(r.focus) == BlackHeight(Child(t, !s)) + BlackOf(t.color);
    PlugBalanced(r.focus, c.path);
    PlugNoRedRed(r.focus, c.path);
  }

  // ---------------------------------------------------------------------
  // eraseNode: the tree right after the node is unlinked, and where the
  // fixup starts

  lemma SortedRemove<V>(p: seq<(int, V)>, e: (int, V), s: seq<(int, V)>)
    requires Sorted(p + [e] + s)
    ensures Sorted(p + s)
  {
    var w := p + [e] + s;
    forall i, j | 0 <= i < j < |p + s| ensures (p + s)[i].0 < (p + s)[j].0 {
      var i' := if i < |p| then i else i + 1;
      var j' := if j < |p| then j else j + 1;
      assert (p + s)[i] == w[i'] && (p + s)[j] == w[j'];
    }
  }

  /** A subtree one Black node short, hung under a path that expects one of
      black height h + 1 and a Black root: the fixup may start at its parent. */
  lemma DeficitStart<V>(x: Tree<V>, path: seq<Frame<V>>)
    requires path != [] && Balanced(x) && NoRedRed(x)
    requires CtxBal(path, BlackHeight(x) + 1) && CtxRed(path, Black) && TopColor(path, Black) == Black
    ensures FixupInv(Up(Cursor(x, path)), path[0].isLeft)
  {
    NoRedRedBlacken(x);
    var u := Up(Cursor(x, path));
    assert Child(u.focus, !path[0].isLeft) == path[0].sibling;
    assert TopColor(path[1..], path[0].color) == TopColor(path, Black);
  }

  /** The node that replaces the erased one in the 0- and 1-child cases,
      `target->child(target->left)`: its only child, or null. */
  function Replacement<V>(t: Tree<V>): (x: Tree<V>)
    requires t.Node? && (t.left.Nil? || t.right.Nil?)
    ensures Entries(x) == Entries(t.left) + Entries(t.right)
    ensures x.Nil? <==> t.left.Nil? && t.right.Nil?
    ensures x.Node? ==> x == t.left || x == t.right
  {
    if t.left.Node? then t.left else t.right
  }

  lemma FocusSplit<V>(c: Cursor<V>)
    requires c.focus.Node?
    ensures Entries(Whole(c)) == (Before(c.path) + Entries(c.focus.left)) + [(c.focus.key, c.focus.value)] +
                                 (Entries(c.focus.right) + After(c.path))
  {
    PlugEntries(c.focus, c.path);
  }

  /** Dropping the focus's own entry from a sorted tree keeps the rest sorted. */
  lemma EraseKeepsOrder<V>(c: Cursor<V>, u: Tree<V>)
    requires Sorted(Entries(Whole(c))) && c.focus.Node?
    requires Entries(u) == Before(c.path) + Entries(c.focus.left) + Entries(c.focus.right) + After(c.path)
    ensures Sorted(Entries(u))
  {
    var t := c.focus;
    FocusSplit(c);
    SortedRemove(Before(c.path) + Entries(t.left), (t.key, t.value), Entries(t.right) + After(c.path));
    assert Entries(u) == (Before(c.path) + Entries(t.left)) + (Entries(t.right) + After(c.path));
  }

  lemma SpliceEntries<V>(c: Cursor<V>)
    requires c.focus.Node? && (c.focus.left.Nil? || c.focus.right.Nil?)
    ensures Entries(Plug(Replacement(c.focus), c.path)) ==
            Before(c.path) + Entries(c.focus.left) + Entries(c.focus.right) + After(c.path)
  {
    PlugEntries(Replacement(c.focus), c.path);
  }

  /** Erasing a node with at most one child (RBTree.hpp:311-326, 352-355): the
      child (or null) takes its place. A Red node leaves a red-black tree; a
      Black one leaves its parent to the fixup with the flag of its side; at
      the root the new root only needs to turn Black. */
  lemma SpliceStart<V>(c: Cursor<V>)
    requires ValidTree(Whole(c)) && c.focus.Node? && (c.focus.left.Nil? || c.focus.right.Nil?)
    ensures Entries(Plug(Replacement(c.focus), c.path)) ==
            Before(c.path) + Entries(c.focus.left) + Entries(c.focus.right) + After(c.path)
    ensures Sorted(Entries(Plug(Replacement(c.focus), c.path)))
    ensures c.focus.color == Red ==> IsRB(Plug(Replacement(c.focus), c.path))
    ensures c.focus.color == Black && c.path == [] ==> IsRB(Blacken(Replacement(c.focus)))
    ensures c.focus.color == Black && c.path != [] ==>
              FixupInv(Up(Cursor(Replacement(c.focus), c.path)), c.path[0].isLeft)
  {
    var t := c.focus;
    var x := Replacement(t);
    SpliceEntries(c);
    EraseKeepsOrder(c, Plug(x, c.path));
    PlugBalancedInv(t, c.path);
    PlugNoRedRedInv(t, c.path);
    PlugColor(t, c.path);
    assert BlackHeight(x) == 1 && Balanced(x) && NoRedRed(x);
    if t.color == Red {
      assert ColorOf(t.left) == Black && ColorOf(t.right) == Black;
      if x.Node? { BlackHeightPositive(x.left); }
      assert x == Nil;
      CtxRedWeaken(c.path);
      PlugBalanced(x, c.path);
      PlugNoRedRed(x, c.path);
    } else if c.path == [] {
      NoRedRedBlacken(x);
      assert Balanced(Blacken(x));
    } else {
      DeficitStart(x, c.path);
    }
  }

  /** The frame the successor takes in the erased node's place: the erased
      node's colour and left subtree, the successor's key and value. Since the
      successor's key is above the erased one, the left subtree it takes over
      stays below it. */
  function MovedFrame<V>(t: Tree<V>, m: Tree<V>): (f: Frame<V>)
    requires t.Node? && m.Node?
    ensures !f.isLeft && f.color == t.color && f.sibling == t.left
    ensures f.key == m.key && f.value == m.value
    ensures AllBelow(Entries(t.left), t.key) && t.key < m.key ==> AllBelow(Entries(f.sibling), f.key)
  {
    Frame(false, t.color, m.key, m.value, t.left)
  }

  /** The cursor at the successor's old right subtree once the successor has
      replaced the erased node (RBTree.hpp:327-350). `below` is the all-left
      path from the successor up to the erased node's right child. */
  function SuccessorSplice<V>(c: Cursor<V>, below: seq<Frame<V>>, m: Tree<V>): (r: Cursor<V>)
    requires c.focus.Node? && m.Node?
    ensures r.path != [] && (below == [] ==> !r.path[0].isLeft) && (below != [] ==> r.path[0] == below[0])
  {
    Cursor(m.right, below + ([MovedFrame(c.focus, m)] + c.path))
  }

  /** The path above the successor's old right subtree accepts a subtree of
      the successor's colour and black height, with a Black root on top. */
  lemma SuccessorContext<V>(c: Cursor<V>, below: seq<Frame<V>>, m: Tree<V>)
    requires ValidTree(Whole(c)) && c.focus.Node?
    requires m.Node? && Plug(m, below) == c.focus.right
    ensures Balanced(m) && NoRedRed(m)
    ensures CtxBal(SuccessorSplice(c, below, m).path, BlackHeight(m))
    ensures CtxRed(SuccessorSplice(c, below, m).path, m.color)
    ensures TopColor(SuccessorSplice(c, below, m).path, Black) == Black
  {
    var t := c.focus;
    var r := t.right;
    var upper := [MovedFrame(t, m)] + c.path;
    var path := below + upper;
    assert upper[1..] == c.path;
    PlugBalancedInv(t, c.path);
    PlugNoRedRedInv(t, c.path);
    PlugColor(t, c.path);
    PlugBalancedInv(m, below);
    PlugNoRedRedInv(m, below);
    PlugColor(m, below);
    assert CtxBal(upper, BlackHeight(r));
    CtxBalAppend(below, upper, BlackHeight(m));
    assert CtxRed(upper, TopColor(below, m.color));
    CtxRedAppend(below, upper, m.color);
    assert TopColor(path, Black) == TopColor(c.path, t.color);
  }

  /** The entries after the successor replaces the erased node. */
  lemma SuccessorEntries<V>(c: Cursor<V>, below: seq<Frame<V>>, m: Tree<V>)
    requires c.focus.Node? && m.Node? && m.left.Nil? && AllLeft(below) && Plug(m, below) == c.focus.right
    ensures Entries(Whole(SuccessorSplice(c, below, m))) ==
            Before(c.path) + Entries(c.focus.left) + Entries(c.focus.right) + After(c.path)
  {
    var t := c.focus;
    var path := SuccessorSplice(c, below, m).path;
    MovedPathEntries(t, m, c.path, below);
    LeftmostEntries(m, below);
    PlugEntries(m.right, path);
  }

  /** The entries around the successor's old right subtree once the
      successor sits in the erased node's slot. */
  lemma MovedPathEntries<V>(t: Tree<V>, m: Tree<V>, path: seq<Frame<V>>, below: seq<Frame<V>>)
    requires t.Node? && m.Node? && AllLeft(below)
    ensures Before(below + ([MovedFrame(t, m)] + path)) == Before(path) + Entries(t.left) + [(m.key, m.value)]
    ensures After(below + ([MovedFrame(t, m)] + path)) == After(below) + After(path)
  {
    var upper := [MovedFrame(t, m)] + path;
    assert upper[1..] == path;
    BeforeAllLeft(below);
    BeforeAppend(below, upper);
  }

  /** A subtree whose leftmost node is `m` starts with m's entry, then m's
      right subtree. */
  lemma LeftmostEntries<V>(m: Tree<V>, below: seq<Frame<V>>)
    requires m.Node? && m.left.Nil? && AllLeft(below)
    ensures Entries(Plug(m, below)) == [(m.key, m.value)] + Entries(m.right) + After(below)
  {
    BeforeAllLeft(below);
    PlugEntries(m, below);
  }

  /** Erasing a node with two children: the entries lose exactly the erased
      node's, the order is kept, and a Red successor leaves a red-black tree;
      a Black one leaves the successor's old parent to the fixup, on the side
      the successor hung from (its right-hand slot when it was the erased
      node's right child, its left one otherwise). */
  lemma SuccessorStart<V>(c: Cursor<V>, below: seq<Frame<V>>, m: Tree<V>)
    requires ValidTree(Whole(c)) && c.focus.Node?
    requires m.Node? && m.left.Nil? && AllLeft(below) && Plug(m, below) == c.focus.right
    ensures Entries(Whole(SuccessorSplice(c, below, m))) ==
            Before(c.path) + Entries(c.focus.left) + Entries(c.focus.right) + After(c.path)
    ensures Sorted(Entries(Whole(SuccessorSplice(c, below, m))))
    ensures m.color == Red ==> IsRB(Whole(SuccessorSplice(c, below, m)))
    ensures m.color == Black ==>
              FixupInv(Up(SuccessorSplice(c, below, m)), SuccessorSplice(c, below, m).path[0].isLeft)
  {
    var t := c.focus;
    var path := SuccessorSplice(c, below, m).path;
    SuccessorEntries(c, below, m);
    EraseKeepsOrder(c, Whole(SuccessorSplice(c, below, m)));
    SuccessorContext(c, below, m);
    assert BlackHeight(m.right) == 1 && Balanced(m.right) && NoRedRed(m.right);
    if m.color == Red {
      if m.right.Node? { BlackHeightPositive(m.right.left); }
      assert m.right == Nil;
      CtxRedWeaken(path);
      PlugBalanced(m.right, path);
      PlugNoRedRed(m.right, path);
    } else {
      DeficitStart(m.right, path);
    }
  }

  /** The brother of the broken side is never null. */
  lemma BrotherExists<V>(c: Cursor<V>, s: bool)
    requires FixupInv(c, s)
    ensures Child(c.focus, !s).Node?
  {
    BlackHeightPositive(Child(c.focus, s));
  }

  /** The tree built by the successor splice is the erased node's subtree
      rebuilt around the successor and hung back in the erased node's slot. */
  lemma SuccessorSpliceWhole<V>(c: Cursor<V>, below: seq<Frame<V>>, m: Tree<V>)
    requires c.focus.Node? && m.Node?
    ensures Whole(SuccessorSplice(c, below, m)) ==
            Plug(Attach(MovedFrame(c.focus, m), Plug(m.right, below)), c.path)
  {
    var upper := [MovedFrame(c.focus, m)] + c.path;
    PlugAppend(m.right, below, upper);
    assert upper[1..] == c.path;
  }

  /** Removing the focus's entry from a sorted tree removes exactly its key from the map. */
  lemma RemoveContent<V>(c: Cursor<V>, u: Tree<V>)
    requires Sorted(Entries(Whole(c))) && c.focus.Node?
    requires Entries(u) == Before(c.path) + Entries(c.focus.left) + Entries(c.focus.right) + After(c.path)
    ensures Content(u) == Content(Whole(c)) - {c.focus.key}
  {
    var t := c.focus;
    var p, e, s := Before(c.path) + Entries(t.left), (t.key, t.value), Entries(t.right) + After(c.path);
    FocusSplit(c);
    assert Entries(Whole(c)) == p + [e] + s;
    SortedRemoveMap(p, e, s);
    assert Entries(u) == p + s by {
      var b, l, r, a := Before(c.path), Entries(t.left), Entries(t.right), After(c.path);
      assert b + l + r + a == (b + l) + (r + a);
    }
  }

  /** Dropping an entry from a sorted sequence removes exactly its key from the map. */
  lemma SortedRemoveMap<V>(p: seq<(int, V)>, e: (int, V), s: seq<(int, V)>)
    requires Sorted(p + [e] + s)
    ensures MapOf(p + s) == MapOf(p + [e] + s) - {e.0}
  {
    SortedSplit(p, e, s);
    MapOfRemove(p, e, s);
  }

  /** One pass of the eraseFixup loop body (RBTree.hpp:363-400) at a target
      whose broken child is Black: the invariant is kept and either the walk
      ends at the root, or the target moves up, or it stays at the same depth
      with a Red child, which ends the loop. */
  method FixupStep<V>(c: Cursor<V>, s: bool) returns (r: Cursor<V>, isLeftBroken: bool, done: bool)
    requires FixupInv(c, s) && ColorOf(Child(c.focus, s)) == Black
    ensures Entries(Whole(r)) == Entries(Whole(c))
    ensures done ==> r.path == [] && DoneInv(r.focus)
    ensures !done ==> FixupInv(r, isLeftBroken)
    ensures !done ==> |r.path| < |c.path| || (|r.path| == |c.path| && ColorOf(Child(r.focus, isLeftBroken)) == Red)
  {
    r, isLeftBroken, done := c, s, false;
    if ColorOf(Child(r.focus, !s)) == Red {
      RedBrotherInv(r, s);
      r := RedBrother(r, s);
    }
    BrotherExists(r, s);
    var brother := Child(r.focus, !s);
    if ColorOf(Child(brother, s)) == Black && ColorOf(Child(brother, !s)) == Black {
      RecolorBrotherInv(r, s);
      var u := RecolorBrother(r, s);
      if u.path == [] {
        r, done := u, true;
      } else {
        isLeftBroken := AscentSide(r);
        r := Up(u);
      }
    } else {
      if ColorOf(Child(brother, !s)) == Black {
        RotateBrotherInv(r, s);
        r := RotateBrother(r, s);
      }
      RotateParentInv(r, s);
      r := RotateParent(r, s);
      r, done := Cursor(Whole(r), []), true;
    }
  }
}
