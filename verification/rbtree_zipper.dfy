/** Node pointers with parent back-links, as cursors into a tree value.
    A cursor is the subtree rooted at the pointed-to node (the focus) plus the
    chain of its ancestors, innermost (the parent, `p`) first. Each frame keeps
    the ancestor's colour, key, value, its other child (the sibling of the
    path) and on which side the path leaves it. */
module Zipper {
  import opened Trees

  datatype Frame<V> = Frame(isLeft: bool, color: Color, key: int, value: V, sibling: Tree<V>)

  datatype Cursor<V> = Cursor(focus: Tree<V>, path: seq<Frame<V>>)

  /** The parent node of a frame with `t` hung on the frame's side. */
  function Attach<V>(f: Frame<V>, t: Tree<V>): (r: Tree<V>)
    ensures r.Node? && r.color == f.color && r.key == f.key && r.value == f.value
    ensures Child(r, f.isLeft) == t && Child(r, !f.isLeft) == f.sibling
  {
    if f.isLeft then Node(f.color, t, f.key, f.value, f.sibling)
    else Node(f.color, f.sibling, f.key, f.value, t)
  }

  /** The whole tree obtained by hanging `t` where the path leads. */
  function Plug<V>(t: Tree<V>, path: seq<Frame<V>>): Tree<V>
    decreases |path|
  {
    if path == [] then t else Plug(Attach(path[0], t), path[1..])
  }

  function Whole<V>(c: Cursor<V>): Tree<V>
  {
    Plug(c.focus, c.path)
  }

  /** `current = current->child(isLeft)` */
  function Down<V>(c: Cursor<V>, isLeft: bool): (r: Cursor<V>)
    requires c.focus.Node?
    ensures Whole(r) == Whole(c) && |r.path| == |c.path| + 1 && r.path[1..] == c.path
    ensures r.focus == Child(c.focus, isLeft) && r.path[0].isLeft == isLeft
  {
    var t := c.focus;
    var f := Frame(isLeft, t.color, t.key, t.value, Child(t, !isLeft));
    assert Attach(f, Child(t, isLeft)) == t;
    assert ([f] + c.path)[1..] == c.path;
    Cursor(Child(t, isLeft), [f] + c.path)
  }

  /** `target = target->p` */
  function Up<V>(c: Cursor<V>): (r: Cursor<V>)
    requires c.path != []
    ensures Whole(r) == Whole(c) && r.path == c.path[1..]
    ensures r.focus.Node? && Child(r.focus, c.path[0].isLeft) == c.focus
    ensures r.focus.color == c.path[0].color
  {
    Cursor(Attach(c.path[0], c.focus), c.path[1..])
  }

  // ---------------------------------------------------------------------
  // Entries around a cursor

  /** The entries that come before the focus in the in-order sequence. */
  function Before<V>(path: seq<Frame<V>>): seq<(int, V)>
    decreases |path|
  {
    if path == [] then []
    else if path[0].isLeft then Before(path[1..])
    else Before(path[1..]) + Entries(path[0].sibling) + [(path[0].key, path[0].value)]
  }

  /** The entries that come after the focus in the in-order sequence. */
  function After<V>(path: seq<Frame<V>>): seq<(int, V)>
    decreases |path|
  {
    if path == [] then []
    else if path[0].isLeft then [(path[0].key, path[0].value)] + Entries(path[0].sibling) + After(path[1..])
    else After(path[1..])
  }

  lemma {:induction false} PlugEntries<V>(t: Tree<V>, path: seq<Frame<V>>)
    ensures Entries(Plug(t, path)) == Before(path) + Entries(t) + After(path)
    decreases |path|
  {
    if path != [] {
      PlugEntries(Attach(path[0], t), path[1..]);
    }
  }

  /** Plugging subtrees with the same entries into one path gives the same entries. */
  lemma PlugSameEntries<V>(t: Tree<V>, u: Tree<V>, path: seq<Frame<V>>)
    requires Entries(t) == Entries(u)
    ensures Entries(Plug(t, path)) == Entries(Plug(u, path))
  {
    PlugEntries(t, path);
    PlugEntries(u, path);
  }

  lemma PlugTwo<V>(t: Tree<V>, path: seq<Frame<V>>)
    requires |path| >= 2
    ensures Plug(t, path) == Plug(Attach(path[1], Attach(path[0], t)), path[2..])
  {
    var u := Attach(path[0], t);
    assert Plug(t, path) == Plug(u, path[1..]);
    assert path[1..] != [] && path[1..][0] == path[1] && path[1..][1..] == path[2..];
    assert Plug(u, path[1..]) == Plug(Attach(path[1], u), path[2..]);
  }

  lemma {:induction false} PlugAppend<V>(t: Tree<V>, p: seq<Frame<V>>, q: seq<Frame<V>>)
    ensures Plug(t, p + q) == Plug(Plug(t, p), q)
    decreases |p|
  {
    if p == [] {
      assert p + q == q;
    } else {
      assert (p + q)[0] == p[0] && (p + q)[1..] == p[1..] + q;
      PlugAppend(Attach(p[0], t), p[1..], q);
    }
  }

  /** A path of left turns only: the focus is the leftmost node below its start. */
  ghost predicate AllLeft<V>(path: seq<Frame<V>>)
  {
    forall i :: 0 <= i < |path| ==> path[i].isLeft
  }

  lemma {:induction false} BeforeAllLeft<V>(path: seq<Frame<V>>)
    requires AllLeft(path)
    ensures Before(path) == []
    decreases |path|
  {
    if path != [] {
      BeforeAllLeft(path[1..]);
    }
  }

  lemma {:induction false} BeforeAppend<V>(p: seq<Frame<V>>, q: seq<Frame<V>>)
    ensures Before(p + q) == Before(q) + Before(p)
    ensures After(p + q) == After(p) + After(q)
    decreases |p|
  {
    if p == [] {
      assert p + q == q;
    } else {
      assert (p + q)[0] == p[0] && (p + q)[1..] == p[1..] + q;
      BeforeAppend(p[1..], q);
    }
  }

  // ---------------------------------------------------------------------
  // Red-black facts around a cursor

  /** Frame colour counted in black heights. */
  function BlackOf(c: Color): nat
  {
    if c == Black then 1 else 0
  }

  /** The path accepts a subtree of black height h and keeps the whole tree balanced. */
  ghost predicate CtxBal<V>(path: seq<Frame<V>>, h: nat)
    decreases |path|
  {
    path == [] ||
    (Balanced(path[0].sibling) && BlackHeight(path[0].sibling) == h &&
     CtxBal(path[1..], h + BlackOf(path[0].color)))
  }

  /** The black height of the whole tree built on a subtree of black height h. */
  ghost function CtxHeight<V>(path: seq<Frame<V>>, h: nat): nat
    decreases |path|
  {
    if path == [] then h else CtxHeight(path[1..], h + BlackOf(path[0].color))
  }

  /** The path accepts a subtree whose root has colour c without a Red-Red pair. */
  ghost predicate CtxRed<V>(path: seq<Frame<V>>, c: Color)
    decreases |path|
  {
    path == [] ||
    (NoRedRed(path[0].sibling) &&
     (path[0].color == Red ==> c == Black && ColorOf(path[0].sibling) == Black) &&
     CtxRed(path[1..], path[0].color))
  }

  /** The colour of the whole tree's root. */
  ghost function TopColor<V>(path: seq<Frame<V>>, c: Color): Color
  {
    if path == [] then c else path[|path| - 1].color
  }

  lemma BlackHeightAttach<V>(f: Frame<V>, t: Tree<V>)
    requires Balanced(t) && Balanced(f.sibling) && BlackHeight(f.sibling) == BlackHeight(t)
    ensures Balanced(Attach(f, t)) && BlackHeight(Attach(f, t)) == BlackHeight(t) + BlackOf(f.color)
  {
  }

  lemma {:induction false} PlugBalanced<V>(t: Tree<V>, path: seq<Frame<V>>)
    requires Balanced(t) && CtxBal(path, BlackHeight(t))
    ensures Balanced(Plug(t, path)) && BlackHeight(Plug(t, path)) == CtxHeight(path, BlackHeight(t))
    decreases |path|
  {
    if path != [] {
      BlackHeightAttach(path[0], t);
      PlugBalanced(Attach(path[0], t), path[1..]);
    }
  }

  lemma {:induction false} PlugBalancedInv<V>(t: Tree<V>, path: seq<Frame<V>>)
    requires Balanced(Plug(t, path))
    ensures Balanced(t) && CtxBal(path, BlackHeight(t))
    ensures BlackHeight(Plug(t, path)) == CtxHeight(path, BlackHeight(t))
    decreases |path|
  {
    if path != [] {
      PlugBalancedInv(Attach(path[0], t), path[1..]);
    }
  }

  lemma {:induction false} CtxBalAppend<V>(p: seq<Frame<V>>, q: seq<Frame<V>>, h: nat)
    ensures CtxBal(p + q, h) <==> CtxBal(p, h) && CtxBal(q, CtxHeight(p, h))
    ensures CtxHeight(p + q, h) == CtxHeight(q, CtxHeight(p, h))
    decreases |p|
  {
    if p == [] {
      assert p + q == q;
    } else {
      assert (p + q)[0] == p[0] && (p + q)[1..] == p[1..] + q;
      CtxBalAppend(p[1..], q, h + BlackOf(p[0].color));
    }
  }

  lemma {:induction false} PlugNoRedRed<V>(t: Tree<V>, path: seq<Frame<V>>)
    requires NoRedRed(t) && CtxRed(path, ColorOf(t))
    ensures NoRedRed(Plug(t, path)) && ColorOf(Plug(t, path)) == TopColor(path, ColorOf(t))
    decreases |path|
  {
    if path != [] {
      PlugNoRedRed(Attach(path[0], t), path[1..]);
    }
  }

  lemma {:induction false} PlugNoRedRedInv<V>(t: Tree<V>, path: seq<Frame<V>>)
    requires NoRedRed(Plug(t, path))
    ensures NoRedRed(t) && CtxRed(path, ColorOf(t))
    decreases |path|
  {
    if path != [] {
      PlugNoRedRedInv(Attach(path[0], t), path[1..]);
    }
  }

  lemma {:induction false} PlugColor<V>(t: Tree<V>, path: seq<Frame<V>>)
    ensures ColorOf(Plug(t, path)) == TopColor(path, ColorOf(t))
    decreases |path|
  {
    if path != [] {
      PlugColor(Attach(path[0], t), path[1..]);
    }
  }

  lemma {:induction false} CtxRedAppend<V>(p: seq<Frame<V>>, q: seq<Frame<V>>, c: Color)
    ensures CtxRed(p + q, c) <==> CtxRed(p, c) && CtxRed(q, TopColor(p, c))
    decreases |p|
  {
    if p == [] {
      assert p + q == q;
    } else {
      assert (p + q)[0] == p[0] && (p + q)[1..] == p[1..] + q;
      CtxRedAppend(p[1..], q, p[0].color);
    }
  }

  // ---------------------------------------------------------------------
  // updateParentNode

  /** updateParentNode(oldNode, newNode): writes `newNode` into the parent's
      child slot chosen by comparing the old node's key with the parent's key,
      or into the root when there is no parent. Returns the whole tree. */
  function UpdateParentNode<V>(c: Cursor<V>, newNode: Tree<V>): (r: Tree<V>)
    requires c.focus.Node?
    ensures Sorted(Entries(Whole(c))) ==> r == Plug(newNode, c.path)
  {
    if c.path == [] then newNode
    else
      var p := Attach(c.path[0], c.focus);
      var p' := if c.focus.key < p.key then p.(left := newNode) else p.(right := newNode);
      assert Sorted(Entries(Whole(c))) ==> (c.focus.key < p.key <==> c.path[0].isLeft) by {
        if Sorted(Entries(Whole(c))) {
          SideByKey(c);
        }
      }
      Plug(p', c.path[1..])
  }

  /** In an ordered tree a node is its parent's left child exactly when its key is smaller. */
  lemma SideByKey<V>(c: Cursor<V>)
    requires c.focus.Node? && c.path != [] && Sorted(Entries(Whole(c)))
    ensures c.focus.key < c.path[0].key <==> c.path[0].isLeft
  {
    var t := c.focus;
    var u := Up(c);
    var p := u.focus;
    assert p == Attach(c.path[0], t);
    SortedAround(u);
    var i := |Entries(t.left)|;
    assert Entries(t)[i] == (t.key, t.value);
    if c.path[0].isLeft {
      var w := Before(u.path) + Entries(p.left);
      assert p.left == t;
      assert w[|Before(u.path)| + i] == (t.key, t.value);
    } else {
      var w := Entries(p.right) + After(u.path);
      assert p.right == t;
      assert w[i] == (t.key, t.value);
    }
  }
  // ---------------------------------------------------------------------
  // Order around a cursor

  lemma SortedParts<V>(a: seq<(int, V)>, b: seq<(int, V)>)
    requires Sorted(a + b)
    ensures Sorted(a) && Sorted(b)
  {
    var w := a + b;
    forall i, j | 0 <= i < j < |b| ensures b[i].0 < b[j].0 {
      assert b[i] == w[|a| + i] && b[j] == w[|a| + j];
    }
    forall i, j | 0 <= i < j < |a| ensures a[i].0 < a[j].0 {
      assert a[i] == w[i] && a[j] == w[j];
    }
  }

  /** Around a node of an ordered tree: everything before it is smaller, everything after larger. */
  lemma SortedAround<V>(c: Cursor<V>)
    requires Sorted(Entries(Whole(c))) && c.focus.Node?
    ensures AllBelow(Before(c.path) + Entries(c.focus.left), c.focus.key)
    ensures AllAbove(Entries(c.focus.right) + After(c.path), c.focus.key)
  {
    var t := c.focus;
    PlugEntries(t, c.path);
    var p := Before(c.path) + Entries(t.left);
    var s := Entries(t.right) + After(c.path);
    assert Entries(Whole(c)) == p + [(t.key, t.value)] + s;
    SortedSplit(p, (t.key, t.value), s);
  }

  /** One step of the descent of findNode keeps the searched key between the
      entries before and after the cursor. */
  lemma DescendBounds<V>(c: Cursor<V>, key: int, isLeft: bool, d: Cursor<V>)
    requires Sorted(Entries(Whole(c)))
    requires c.focus.Node? && c.focus.key != key && isLeft == !(c.focus.key < key)
    requires AllBelow(Before(c.path), key) && AllAbove(After(c.path), key)
    requires d == Down(c, isLeft)
    ensures AllBelow(Before(d.path), key) && AllAbove(After(d.path), key)
  {
    var cand := c.focus;
    var b, a := Before(d.path), After(d.path);
    SortedAround(c);
    assert d.path[0] == Frame(isLeft, cand.color, cand.key, cand.value, Child(cand, !isLeft));
    assert d.path[1..] == c.path;
    if isLeft {
      assert b == Before(c.path);
      var s := Entries(cand.right) + After(c.path);
      assert a == [(cand.key, cand.value)] + s;
      forall i | 0 <= i < |a| ensures key < a[i].0 {
        if i > 0 { assert a[i] == s[i - 1]; }
      }
    } else {
      assert a == After(c.path);
      var s := Before(c.path) + Entries(cand.left);
      assert b == s + [(cand.key, cand.value)];
      forall i | 0 <= i < |b| ensures b[i].0 < key {
        if i < |s| { assert b[i] == s[i]; }
      }
    }
  }

}
