/** findNode and minNode (RBTree.hpp:429-475): walks from a node down the
    tree, as loops over a cursor. */
module Navigation {
  import opened Trees
  import opened Zipper

  /** findNode: the node holding `key`, or else the node under which `key`
      would be inserted; null only for an empty tree. */
  method FindNode<V>(t: Tree<V>, key: int) returns (c: Cursor<V>)
    ensures Whole(c) == t
    ensures c.focus.Nil? <==> t.Nil?
    ensures c.focus.Nil? ==> c.path == []
    ensures c.focus.Node? ==> c.focus.key == key || Child(c.focus, key < c.focus.key).Nil?
    ensures Sorted(Entries(t)) ==> AllBelow(Before(c.path), key) && AllAbove(After(c.path), key)
  {
    c := Cursor(t, []);
    var hasFound := t.Nil?;
    while !hasFound
      invariant Whole(c) == t
      invariant c.focus.Nil? ==> c.path == [] && t.Nil?
      invariant t.Nil? ==> c.focus.Nil?
      invariant !hasFound ==> c.focus.Node?
      invariant hasFound && c.focus.Node? ==> c.focus.key == key || Child(c.focus, key < c.focus.key).Nil?
      invariant Sorted(Entries(t)) ==> AllBelow(Before(c.path), key) && AllAbove(After(c.path), key)
      decreases !hasFound, c.focus
    {
      if AreKeysEqual(key, c.focus.key) {
        hasFound := true;
      } else if key < c.focus.key {
        if c.focus.left.Node? {
          if Sorted(Entries(t)) { DescendBounds(c, key, true, Down(c, true)); }
          c := Down(c, true);
        } else {
          hasFound := true;
        }
      } else {
        if c.focus.right.Node? {
          if Sorted(Entries(t)) { DescendBounds(c, key, false, Down(c, false)); }
          c := Down(c, false);
        } else {
          hasFound := true;
        }
      }
    }
  }

  /** What findNode's answer says about the map: `key` is present exactly
      when the returned node holds it, and then that node holds its value. */
  lemma FoundIff<V>(c: Cursor<V>, key: int)
    requires Sorted(Entries(Whole(c)))
    requires c.focus.Nil? ==> c.path == []
    requires c.focus.Node? ==> c.focus.key == key || Child(c.focus, key < c.focus.key).Nil?
    requires AllBelow(Before(c.path), key) && AllAbove(After(c.path), key)
    ensures key in Content(Whole(c)) <==> c.focus.Node? && c.focus.key == key
    ensures c.focus.Node? && c.focus.key == key ==> Content(Whole(c))[key] == c.focus.value
  {
    if c.focus.Node? {
      var t := c.focus;
      var p, e, s := Before(c.path) + Entries(t.left), (t.key, t.value), Entries(t.right) + After(c.path);
      PlugEntries(t, c.path);
      assert Entries(Whole(c)) == p + [e] + s;
      SortedAround(c);
      if t.key == key {
        MapOfAt(p, e, s);
      } else {
        var w := p + [e] + s;
        MapOfDomain(w);
        forall i | 0 <= i < |w| ensures w[i].0 != key {
          if i < |p| {
            assert w[i] == p[i];
            if i >= |Before(c.path)| { assert key > t.key && p[i] == Entries(t.left)[i - |Before(c.path)|]; }
            else { assert p[i] == Before(c.path)[i]; }
          } else if i > |p| {
            assert w[i] == s[i - |p| - 1];
            if i - |p| - 1 < |Entries(t.right)| { assert key < t.key && s[i - |p| - 1] == Entries(t.right)[i - |p| - 1]; }
            else { assert s[i - |p| - 1] == After(c.path)[i - |p| - 1 - |Entries(t.right)|]; }
          }
        }
      }
    }
  }

  /** minNode (null stays null): walks left to the first node of the subtree
      in the cursor's focus. */
  method MinNode<V>(c: Cursor<V>) returns (m: Cursor<V>)
    ensures c.focus.Nil? ==> m == c
    ensures Whole(m) == Whole(c) && |m.path| >= |c.path|
    ensures AllLeft(m.path[..|m.path| - |c.path|]) && Plug(m.focus, m.path[..|m.path| - |c.path|]) == c.focus
    ensures c.focus.Node? ==> m.focus.Node? && m.focus.left.Nil?
    ensures c.focus.Node? ==> Entries(c.focus)[0] == (m.focus.key, m.focus.value)
  {
    m := c;
    if m.focus.Nil? {
      return;
    }
    while m.focus.left.Node?
      invariant m.focus.Node? && |m.path| >= |c.path|
      invariant m.path[|m.path| - |c.path|..] == c.path
      invariant AllLeft(m.path[..|m.path| - |c.path|])
      invariant Plug(m.focus, m.path[..|m.path| - |c.path|]) == c.focus
      invariant Whole(m) == Whole(c)
      decreases m.focus
    {
      var k := |m.path| - |c.path|;
      ghost var prev := m;
      m := Down(m, true);
      assert m.path[..k + 1] == [m.path[0]] + prev.path[..k];
      assert m.path[k + 1..] == prev.path[k..];
    }
    FirstEntry(m.focus, m.path[..|m.path| - |c.path|]);
  }

  /** The leftmost node of a subtree holds its first entry. */
  lemma FirstEntry<V>(t: Tree<V>, below: seq<Frame<V>>)
    requires t.Node? && t.left.Nil? && AllLeft(below)
    ensures |Entries(Plug(t, below))| > 0 && Entries(Plug(t, below))[0] == (t.key, t.value)
  {
    PlugEntries(t, below);
    BeforeAllLeft(below);
  }

  /** lowerBound's adjustment of findNode's answer, with iterators as
      positions in the in-order sequence: the focus's position, one further
      when its key is below `key`, is the first entry not below `key`. */
  lemma LowerBoundAt<V>(c: Cursor<V>, key: int, i: nat)
    requires Sorted(Entries(Whole(c))) && c.focus.Node?
    requires c.focus.key == key || Child(c.focus, key < c.focus.key).Nil?
    requires AllBelow(Before(c.path), key) && AllAbove(After(c.path), key)
    requires i == |Before(c.path)| + |Entries(c.focus.left)| + (if c.focus.key < key then 1 else 0)
    ensures i <= |Entries(Whole(c))|
    ensures forall j :: 0 <= j < i ==> Entries(Whole(c))[j].0 < key
    ensures forall j :: i <= j < |Entries(Whole(c))| ==> key <= Entries(Whole(c))[j].0
  {
    var t := c.focus;
    var b, e, a := Before(c.path), (t.key, t.value), After(c.path);
    var p, s := b + Entries(t.left), Entries(t.right) + a;
    PlugEntries(t, c.path);
    assert Entries(Whole(c)) == p + [e] + s;
    SortedAround(c);
    FocusBounds(t, b, a, key);
    BoundaryAt(p, e, s, key, i);
  }

  /** At findNode's answer, everything before the node's entry is below `key`
      and everything after it above. */
  lemma FocusBounds<V>(t: Tree<V>, b: seq<(int, V)>, a: seq<(int, V)>, key: int)
    requires t.Node? && (t.key == key || Child(t, key < t.key).Nil?)
    requires AllBelow(b, key) && AllAbove(a, key)
    requires AllBelow(b + Entries(t.left), t.key) && AllAbove(Entries(t.right) + a, t.key)
    ensures AllBelow(b + Entries(t.left), key) && AllAbove(Entries(t.right) + a, key)
  {
    if key < t.key { assert b + Entries(t.left) == b; }
    if t.key < key { assert Entries(t.right) + a == a; }
  }

  /** An entry between all-smaller and all-larger neighbours: the position
      after the smaller ones, one further when the entry itself is smaller,
      separates the keys below `key` from the rest. */
  lemma BoundaryAt<V>(p: seq<(int, V)>, e: (int, V), s: seq<(int, V)>, key: int, i: nat)
    requires AllBelow(p, key) && AllAbove(s, key)
    requires i == |p| + (if e.0 < key then 1 else 0)
    ensures i <= |p + [e] + s|
    ensures forall j :: 0 <= j < i ==> (p + [e] + s)[j].0 < key
    ensures forall j :: i <= j < |p + [e] + s| ==> key <= (p + [e] + s)[j].0
  {
    var w := p + [e] + s;
    forall j | 0 <= j < i ensures w[j].0 < key {
      if j < |p| { assert w[j] == p[j]; } else { assert w[j] == e; }
    }
    forall j | i <= j < |w| ensures key <= w[j].0 {
      if j > |p| { assert w[j] == s[j - |p| - 1]; } else { assert w[j] == e; }
    }
  }
}
