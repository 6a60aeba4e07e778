/** Nodes, colours and the red-black predicates of RBTree.hpp, on tree values.
    A `Nil` subtree stands for a null child pointer. */
module Trees {

  datatype Color = Red | Black

  datatype Tree<V> = Nil | Node(color: Color, left: Tree<V>, key: int, value: V, right: Tree<V>)

  /** Node::child: `true` selects the left child, `false` the right one. */
  function Child<V>(t: Tree<V>, isLeft: bool): Tree<V>
    requires t.Node?
  {
    if isLeft then t.left else t.right
  }

  /** Replaces the child of `t` on one side. */
  function SetChild<V>(t: Tree<V>, isLeft: bool, c: Tree<V>): (r: Tree<V>)
    requires t.Node?
    ensures r.Node? && Child(r, isLeft) == c && Child(r, !isLeft) == Child(t, !isLeft)
    ensures r.color == t.color && r.key == t.key && r.value == t.value
  {
    if isLeft then t.(left := c) else t.(right := c)
  }

  /** colorOf: a null position counts as Black. */
  function ColorOf<V>(t: Tree<V>): (c: Color)
    ensures c == Red <==> t.Node? && t.color == Red
    ensures t.Nil? ==> c == Black
  {
    if t.Nil? then Black else t.color
  }

  function Blacken<V>(t: Tree<V>): (r: Tree<V>)
    ensures ColorOf(r) == Black
  {
    if t.Nil? then Nil else t.(color := Black)
  }

  /** areKeysEqual with `<` on int as the comparator. */
  function AreKeysEqual(a: int, b: int): (r: bool)
    ensures r <==> a == b
  {
    !(a < b || b < a)
  }

  // ---------------------------------------------------------------------
  // The abstract contents: the in-order sequence of entries

  function Entries<V>(t: Tree<V>): seq<(int, V)>
  {
    match t
    case Nil => []
    case Node(_, l, k, v, r) => Entries(l) + [(k, v)] + Entries(r)
  }

  ghost predicate Sorted<V>(s: seq<(int, V)>)
  {
    forall i, j :: 0 <= i < j < |s| ==> s[i].0 < s[j].0
  }

  ghost predicate AllBelow<V>(s: seq<(int, V)>, k: int)
  {
    forall i :: 0 <= i < |s| ==> s[i].0 < k
  }

  ghost predicate AllAbove<V>(s: seq<(int, V)>, k: int)
  {
    forall i :: 0 <= i < |s| ==> k < s[i].0
  }

  ghost function KeysOf<V>(s: seq<(int, V)>): set<int>
  {
    set i | 0 <= i < |s| :: s[i].0
  }

  /** The key-to-value map of an entry sequence (later entries win). */
  ghost function MapOf<V>(s: seq<(int, V)>): map<int, V>
  {
    if s == [] then map[] else MapOf(s[..|s| - 1])[s[|s| - 1].0 := s[|s| - 1].1]
  }

  ghost function Content<V>(t: Tree<V>): map<int, V>
  {
    MapOf(Entries(t))
  }

  lemma {:induction false} MapOfDomain<V>(s: seq<(int, V)>)
    ensures MapOf(s).Keys == KeysOf(s)
  {
    if s != [] {
      var s' := s[..|s| - 1];
      MapOfDomain(s');
      assert KeysOf(s) == KeysOf(s') + {s[|s| - 1].0} by {
        forall k | k in KeysOf(s) ensures k in KeysOf(s') + {s[|s| - 1].0} {
          var i :| 0 <= i < |s| && s[i].0 == k;
          if i < |s| - 1 { assert s'[i] == s[i]; }
        }
        forall k | k in KeysOf(s') ensures k in KeysOf(s) {
          var i :| 0 <= i < |s'| && s'[i].0 == k;
          assert s[i] == s'[i];
        }
      }
    }
  }

  lemma {:induction false} MapOfAppend<V>(a: seq<(int, V)>, b: seq<(int, V)>)
    ensures MapOf(a + b) == MapOf(a) + MapOf(b)
  {
    if b == [] {
      assert a + b == a;
    } else {
      var b' := b[..|b| - 1];
      assert (a + b)[..|a + b| - 1] == a + b';
      MapOfAppend(a, b');
    }
  }

  lemma MapOfSingle<V>(e: (int, V))
    ensures MapOf([e]) == map[e.0 := e.1]
  {
    assert [e][..0] == [];
  }

  /** In an ordered tree, child(true) holds the keys below the node's and
      child(false) those above; either holds fewer entries than the node. */
  lemma ChildOrder<V>(t: Tree<V>, isLeft: bool)
    requires t.Node? && Sorted(Entries(t))
    ensures |Entries(Child(t, isLeft))| < |Entries(t)|
    ensures isLeft ==> AllBelow(Entries(Child(t, isLeft)), t.key)
    ensures !isLeft ==> AllAbove(Entries(Child(t, isLeft)), t.key)
  {
    SortedSplit(Entries(t.left), (t.key, t.value), Entries(t.right));
  }

  /** Inserting an entry whose key is not among the later ones adds exactly that binding. */
  lemma MapOfInsert<V>(p: seq<(int, V)>, e: (int, V), s: seq<(int, V)>)
    requires e.0 !in KeysOf(s)
    ensures MapOf(p + [e] + s) == MapOf(p + s)[e.0 := e.1]
  {
    MapOfAppend(p + [e], s);
    MapOfAppend(p, [e]);
    MapOfAppend(p, s);
    MapOfSingle(e);
    MapOfDomain(s);
  }

  /** Dropping an entry whose key occurs nowhere else removes exactly that key. */
  lemma MapOfRemove<V>(p: seq<(int, V)>, e: (int, V), s: seq<(int, V)>)
    requires e.0 !in KeysOf(p) && e.0 !in KeysOf(s)
    ensures MapOf(p + s) == MapOf(p + [e] + s) - {e.0}
  {
    var before, after := MapOf(p), MapOf(s);
    var single := map[e.0 := e.1];
    MapOfAppend(p + [e], s);
    MapOfAppend(p, [e]);
    MapOfAppend(p, s);
    MapOfSingle(e);
    MapOfDomain(s);
    MapOfDomain(p);
    var whole := before + single + after;
    assert MapOf(p + [e] + s) == whole;
    assert MapOf(p + s) == before + after;
    assert e.0 !in before && e.0 !in after;
    assert (before + after).Keys == whole.Keys - {e.0};
    forall k | k in before + after
      ensures (before + after)[k] == (whole - {e.0})[k]
    {
    }
  }

  /** In a sorted sequence the map sends the key of an entry to its value. */
  lemma MapOfAt<V>(p: seq<(int, V)>, e: (int, V), s: seq<(int, V)>)
    requires e.0 !in KeysOf(s)
    ensures e.0 in MapOf(p + [e] + s) && MapOf(p + [e] + s)[e.0] == e.1
  {
    MapOfAppend(p + [e], s);
    MapOfAppend(p, [e]);
    MapOfSingle(e);
    MapOfDomain(s);
  }

  lemma SortedSplit<V>(p: seq<(int, V)>, e: (int, V), s: seq<(int, V)>)
    requires Sorted(p + [e] + s)
    ensures Sorted(p) && Sorted(s) && AllBelow(p, e.0) && AllAbove(s, e.0)
    ensures e.0 !in KeysOf(p) && e.0 !in KeysOf(s)
  {
    var w := p + [e] + s;
    assert forall i :: 0 <= i < |p| ==> w[i] == p[i];
    assert forall i :: 0 <= i < |s| ==> w[|p| + 1 + i] == s[i];
    assert w[|p|] == e;
  }

  lemma SortedJoin<V>(p: seq<(int, V)>, e: (int, V), s: seq<(int, V)>)
    requires Sorted(p) && Sorted(s) && AllBelow(p, e.0) && AllAbove(s, e.0)
    ensures Sorted(p + [e] + s)
  {
    var w := p + [e] + s;
    forall i, j | 0 <= i < j < |w| ensures w[i].0 < w[j].0 {
      if i < |p| {
        assert w[i] == p[i];
        if j < |p| { assert w[j] == p[j]; }
        else if j > |p| { assert w[j] == s[j - |p| - 1]; }
      } else if i == |p| {
        assert w[j] == s[j - |p| - 1];
      } else {
        assert w[i] == s[i - |p| - 1] && w[j] == s[j - |p| - 1];
      }
    }
  }

  // ---------------------------------------------------------------------
  // Red-black predicates

  /** No Red node has a Red child. */
  ghost predicate NoRedRed<V>(t: Tree<V>)
  {
    match t
    case Nil => true
    case Node(c, l, _, _, r) =>
      (c == Red ==> ColorOf(l) == Black && ColorOf(r) == Black) && NoRedRed(l) && NoRedRed(r)
  }

  /** Black height as isWeakRBTree counts it: a null leaf is 1, a Black node adds 1. */
  ghost function BlackHeight<V>(t: Tree<V>): nat
  {
    match t
    case Nil => 1
    case Node(c, l, _, _, _) => BlackHeight(l) + (if c == Black then 1 else 0)
  }

  /** Sibling subtrees have equal black heights everywhere. */
  ghost predicate Balanced<V>(t: Tree<V>)
  {
    match t
    case Nil => true
    case Node(_, l, _, _, r) => Balanced(l) && Balanced(r) && BlackHeight(l) == BlackHeight(r)
  }

  /** The red-black invariants: Black root, no Red-Red pair, equal black heights. */
  ghost predicate IsRB<V>(t: Tree<V>)
  {
    ColorOf(t) == Black && NoRedRed(t) && Balanced(t)
  }

  /** The invariants the tree keeps after every public operation. */
  ghost predicate ValidTree<V>(t: Tree<V>)
  {
    Sorted(Entries(t)) && IsRB(t)
  }

  /** isWeakRBTree: the black height of a subtree, or 0 when a Red node has a Red
      child or two sibling subtrees differ in black height. */
  function IsWeakRBTree<V>(t: Tree<V>): (h: nat)
    ensures h != 0 <==> NoRedRed(t) && Balanced(t)
    ensures h != 0 ==> h == BlackHeight(t)
  {
    match t
    case Nil => 1
    case Node(c, l, _, _, r) =>
      var isRed := c == Red;
      if isRed && (ColorOf(l) == Red || ColorOf(r) == Red) then 0
      else
        var result := IsWeakRBTree(r);
        if result == 0 || result != IsWeakRBTree(l) then 0
        else result + (if isRed then 0 else 1)
  }

  /** isRBTree: dereferences the root, so the tree must not be empty. */
  function IsRBTree<V>(t: Tree<V>): (r: bool)
    requires t.Node?
    ensures r <==> IsRB(t)
  {
    if t.color != Black then false else IsWeakRBTree(t) != 0
  }

  lemma BlackenEntries<V>(t: Tree<V>)
    ensures Entries(Blacken(t)) == Entries(t)
  {
  }

  lemma BlackHeightPositive<V>(t: Tree<V>)
    ensures BlackHeight(t) >= 1
  {
  }

  lemma NoRedRedBlacken<V>(t: Tree<V>)
    requires NoRedRed(t)
    ensures NoRedRed(Blacken(t))
  {
  }

  /** A tree meeting both rules with black height h holds at least
      2^(h-1) - 1 entries. */
  lemma {:induction false} BlackHeightBound<V>(t: Tree<V>)
    requires NoRedRed(t) && Balanced(t)
    ensures Pow2(BlackHeight(t) - 1) <= |Entries(t)| + 1
  {
    match t
    case Nil =>
    case Node(c, l, _, _, r) =>
      BlackHeightBound(l);
      BlackHeightBound(r);
      if c == Red {
        if l.Node? { BlackHeightBound(l.left); BlackHeightBound(l.right); }
        if r.Node? { BlackHeightBound(r.left); BlackHeightBound(r.right); }
      }
  }

  /** The number of nodes on the longest path from the root to a null child. */
  function Height<V>(t: Tree<V>): nat
  {
    match t
    case Nil => 0
    case Node(_, l, _, _, r) => 1 + (if Height(l) < Height(r) then Height(r) else Height(l))
  }

  /** Under the two rules, no path is more than twice as long as the black
      height: a Black root gives at most 2h - 2 nodes, a Red one 2h - 1. */
  lemma {:induction false} HeightBound<V>(t: Tree<V>)
    requires NoRedRed(t) && Balanced(t)
    ensures Height(t) + (if ColorOf(t) == Red then 1 else 2) <= 2 * BlackHeight(t)
  {
    match t
    case Nil =>
    case Node(_, l, _, _, r) =>
      HeightBound(l);
      HeightBound(r);
  }

  /** The height is logarithmic in the number of entries: a tree of height
      h meeting both rules holds at least 2^(h/2) - 1 entries. */
  lemma LogHeight<V>(t: Tree<V>)
    requires NoRedRed(t) && Balanced(t)
    ensures Pow2(Height(t) / 2) <= |Entries(t)| + 1
  {
    HeightBound(t);
    BlackHeightBound(t);
    Pow2Monotone(Height(t) / 2, BlackHeight(t) - 1);
  }

  lemma {:induction false} Pow2Monotone(a: nat, b: nat)
    requires a <= b
    ensures Pow2(a) <= Pow2(b)
    decreases b
  {
    if a < b {
      Pow2Monotone(a, b - 1);
    }
  }

  function Pow2(n: nat): (p: nat)
    ensures p >= 1
  {
    if n == 0 then 1 else 2 * Pow2(n - 1)
  }

  // ---------------------------------------------------------------------
  // Rotations

  /** rotateLeft: the right child rises; its left subtree (the middle one)
      moves under the old top. */
  function RotateLeft<V>(t: Tree<V>): (r: Tree<V>)
    requires t.Node? && t.right.Node?
    ensures Entries(r) == Entries(t)
    ensures r.Node? && r.left.Node? && r.key == t.right.key && r.left.key == t.key
    ensures r.left.right == t.right.left
  {
    var x := t.right;
    Node(x.color, Node(t.color, t.left, t.key, t.value, x.left), x.key, x.value, x.right)
  }

  /** rotateRight: the mirror image of rotateLeft. */
  function RotateRight<V>(t: Tree<V>): (r: Tree<V>)
    requires t.Node? && t.left.Node?
    ensures Entries(r) == Entries(t)
    ensures r.Node? && r.right.Node? && r.key == t.left.key && r.right.key == t.key
    ensures r.right.left == t.left.right
  {
    var x := t.left;
    Node(x.color, x.left, x.key, x.value, Node(t.color, x.right, t.key, t.value, t.right))
  }

  /** A rotation written with Child/SetChild: the child opposite `isLeft` rises and
      takes the old top, which keeps the rising node's `isLeft` subtree. */
  lemma RotateShape<V>(t: Tree<V>, isLeft: bool)
    requires t.Node? && Child(t, !isLeft).Node?
    ensures Rotate(t, isLeft) ==
      SetChild(Child(t, !isLeft), isLeft, SetChild(t, !isLeft, Child(Child(t, !isLeft), isLeft)))
  {
  }

  /** rotate(target, isLeft). */
  function Rotate<V>(t: Tree<V>, isLeft: bool): (r: Tree<V>)
    requires t.Node? && Child(t, !isLeft).Node?
    ensures Entries(r) == Entries(t)
    ensures r.Node? && r.key == Child(t, !isLeft).key
    ensures Child(r, isLeft).Node? && Child(r, isLeft).key == t.key
    ensures Child(Child(r, isLeft), !isLeft) == Child(Child(t, !isLeft), isLeft)
  {
    if isLeft then RotateLeft(t) else RotateRight(t)
  }
}
