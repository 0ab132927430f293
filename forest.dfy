/**
 * The shape invariant of the node arena, stated node by node.
 *
 * Every handle carries ghost bookkeeping (Meta): the height of its subtree,
 * the handle of its parent, and the open interval (lo, hi) that its keys and
 * all keys below it must lie in. A node is consistent with its children when
 * each child sits one level lower, names it as parent, and has exactly the
 * interval between the node's neighbouring keys; every node but the root is
 * listed among the children of its parent. From these local facts it follows
 * that at each height at most one node's interval holds a given value, which
 * is what makes the one-path search of nodeLookup complete.
 */
module Forest {
  import opened Nodes
  import opened SortedKeys

  /** Ghost bookkeeping of one arena slot. */
  datatype Meta = Meta(ht: nat, par: int, lo: Option<int>, hi: Option<int>)

  /** v lies strictly inside the interval of m. */
  predicate Covers(m: Meta, v: int)
  {
    Above(m.lo, v) && Below(v, m.hi)
  }

  /** Every slot of the arena holds a node with arrays of the right length and size <= NODESIZE. */
  predicate AllShaped(a: seq<Node>)
  {
    forall x :: 0 <= x < |a| ==> Shaped(a[x])
  }

  /** The i-th child of the internal node x is consistent with x. */
  predicate ChildOK(a: seq<Node>, g: seq<Meta>, x: int, i: int)
    requires |g| == |a| && 0 <= x < |a| && Shaped(a[x]) && a[x].Internal? && 0 <= i <= a[x].size
  {
    var c := a[x].children[i];
    0 <= c < |a| && g[c].ht + 1 == g[x].ht && g[c].par == x &&
    g[c].lo == LoOf(Keys(a[x]), g[x].lo, i) && g[c].hi == HiOf(Keys(a[x]), g[x].hi, i)
  }

  /** x is listed among the children of the node its bookkeeping names as parent. */
  predicate HasParent(a: seq<Node>, g: seq<Meta>, x: int)
    requires |g| == |a| && 0 <= x < |a|
  {
    var y := g[x].par;
    0 <= y < |a| && Shaped(a[y]) && a[y].Internal? && x in Kids(a[y])
  }

  /**
   * The node at x: shaped, a leaf exactly at height 0, no higher than the
   * root, with strictly increasing keys inside its interval, consistent with
   * each of its children, and (unless it is the root) a child of its parent.
   */
  predicate NodeOK(a: seq<Node>, g: seq<Meta>, root: int, H: nat, x: int)
    requires |g| == |a| && 0 <= x < |a|
  {
    Shaped(a[x]) && (a[x].Leaf? <==> g[x].ht == 0) && g[x].ht <= H &&
    StrictlySorted(Keys(a[x])) && InBounds(Keys(a[x]), g[x].lo, g[x].hi) &&
    (a[x].Internal? ==> forall i :: 0 <= i <= a[x].size ==> ChildOK(a, g, x, i)) &&
    (x != root ==> HasParent(a, g, x))
  }

  /**
   * The arena a with bookkeeping g is a B-tree of height H rooted at root:
   * the root is unbounded and at height H, and every node is consistent.
   */
  predicate Inv(a: seq<Node>, g: seq<Meta>, root: int, H: nat)
  {
    |g| == |a| && 0 <= root < |a| && g[root].ht == H && g[root].lo == None && g[root].hi == None &&
    AllShaped(a) &&
    forall x :: 0 <= x < |a| ==> NodeOK(a, g, root, H, x)
  }

  /** The keys held by the nodes of the arena. */
  ghost function Stored(a: seq<Node>): set<int>
  {
    set x, k | 0 <= x < |a| && Shaped(a[x]) && k in Keys(a[x]) :: k
  }

  /** A key of a shaped node of the arena is stored. */
  lemma StoredHas(a: seq<Node>, x: int, k: int)
    requires 0 <= x < |a| && Shaped(a[x]) && k in Keys(a[x])
    ensures k in Stored(a)
  {
  }

  /** A value that is not stored is not a key of any node. */
  lemma NotStoredNotKey(a: seq<Node>, x: int, v: int)
    requires 0 <= x < |a| && Shaped(a[x]) && v !in Stored(a)
    ensures v !in Keys(a[x])
  {
  }

  /** The parent of a node other than the root, and the position at which it lists it. */
  lemma ParentOf(a: seq<Node>, g: seq<Meta>, root: int, H: nat, x: int) returns (i: nat)
    requires Inv(a, g, root, H) && 0 <= x < |a| && x != root
    ensures var y := g[x].par;
      0 <= y < |a| && Shaped(a[y]) && a[y].Internal? && i <= a[y].size && a[y].children[i] == x &&
      ChildOK(a, g, y, i) && g[y].ht == g[x].ht + 1 && g[y].ht <= H &&
      StrictlySorted(Keys(a[y])) && InBounds(Keys(a[y]), g[y].lo, g[y].hi)
  {
    assert NodeOK(a, g, root, H, x);
    var y := g[x].par;
    assert NodeOK(a, g, root, H, y);
    var k :| 0 <= k < |Kids(a[y])| && Kids(a[y])[k] == x;
    i := k;
  }

  /** A node's interval lies inside its parent's, and avoids the parent's keys. */
  lemma ParentCovers(a: seq<Node>, g: seq<Meta>, root: int, H: nat, x: int, v: int)
    requires Inv(a, g, root, H) && 0 <= x < |a| && x != root && Covers(g[x], v)
    ensures 0 <= g[x].par < |a| && g[g[x].par].ht == g[x].ht + 1
    ensures Covers(g[g[x].par], v) && v !in Keys(a[g[x].par])
  {
    var i := ParentOf(a, g, root, H, x);
    var y := g[x].par;
    GapCovers(Keys(a[y]), g[y].lo, g[y].hi, i, v);
    SlotNotKey(Keys(a[y]), v, i);
  }

  /** At each height, at most one node's interval holds a given value. */
  lemma {:induction false} Unique(a: seq<Node>, g: seq<Meta>, root: int, H: nat, v: int, x1: int, x2: int)
    requires Inv(a, g, root, H) && 0 <= x1 < |a| && 0 <= x2 < |a|
    requires g[x1].ht == g[x2].ht && Covers(g[x1], v) && Covers(g[x2], v)
    ensures x1 == x2
    decreases H - g[x1].ht
  {
    if x1 == root || x2 == root {
      if x1 != root {
        var i := ParentOf(a, g, root, H, x1);
      } else if x2 != root {
        var i := ParentOf(a, g, root, H, x2);
      }
    } else {
      var i1 := ParentOf(a, g, root, H, x1);
      var i2 := ParentOf(a, g, root, H, x2);
      var y1, y2 := g[x1].par, g[x2].par;
      GapCovers(Keys(a[y1]), g[y1].lo, g[y1].hi, i1, v);
      GapCovers(Keys(a[y2]), g[y2].lo, g[y2].hi, i2, v);
      Unique(a, g, root, H, v, y1, y2);
      SlotUnique(Keys(a[y1]), v, i1, i2);
    }
  }

  /** A value inside the interval of h is not a key of any node higher than h. */
  lemma {:induction false} NoneAbove(a: seq<Node>, g: seq<Meta>, root: int, H: nat, v: int, h: int, x: int)
    requires Inv(a, g, root, H) && 0 <= h < |a| && 0 <= x < |a|
    requires Covers(g[h], v) && g[h].ht < g[x].ht
    ensures v !in Keys(a[x])
    decreases H - g[h].ht
  {
    assert NodeOK(a, g, root, H, x);
    if h != root {
      ParentCovers(a, g, root, H, h, v);
      var y := g[h].par;
      if g[x].ht == g[y].ht {
        if v in Keys(a[x]) {
          Unique(a, g, root, H, v, x, y);
        }
      } else {
        NoneAbove(a, g, root, H, v, y, x);
      }
    }
  }

  /**
   * A value inside the interval of h is stored in the arena only if it is a
   * key of h or of some node below h: a node of h's height holding it is h
   * itself, and no node above h holds it.
   */
  lemma StoredAt(a: seq<Node>, g: seq<Meta>, root: int, H: nat, v: int, h: int, x: int)
    requires Inv(a, g, root, H) && 0 <= h < |a| && 0 <= x < |a| && Covers(g[h], v)
    requires v in Keys(a[x]) && x != h
    ensures g[x].ht < g[h].ht
  {
    assert NodeOK(a, g, root, H, x);
    if g[x].ht == g[h].ht {
      Unique(a, g, root, H, v, x, h);
    } else if g[x].ht > g[h].ht {
      NoneAbove(a, g, root, H, v, h, x);
    }
  }

  /** No value is a key of two different nodes: the B-tree stores each value once. */
  lemma KeysDisjoint(a: seq<Node>, g: seq<Meta>, root: int, H: nat, v: int, x1: int, x2: int)
    requires Inv(a, g, root, H) && 0 <= x1 < |a| && 0 <= x2 < |a|
    requires v in Keys(a[x1]) && v in Keys(a[x2])
    ensures x1 == x2
  {
    assert NodeOK(a, g, root, H, x1) && NodeOK(a, g, root, H, x2);
    if x1 != x2 {
      StoredAt(a, g, root, H, v, x1, x2);
      StoredAt(a, g, root, H, v, x2, x1);
    }
  }

  /** The child at place k of an internal node covering v covers v, one level lower. */
  lemma Descend(a: seq<Node>, g: seq<Meta>, root: int, H: nat, h: int, v: int, k: int)
    requires Inv(a, g, root, H) && 0 <= h < |a| && a[h].Internal? && Covers(g[h], v)
    requires Slot(Keys(a[h]), v, k)
    ensures 0 <= a[h].children[k] < |a|
    ensures g[a[h].children[k]].ht + 1 == g[h].ht
    ensures Covers(g[a[h].children[k]], v)
  {
    assert NodeOK(a, g, root, H, h);
    assert ChildOK(a, g, h, k);
    SlotBounds(Keys(a[h]), v, k, g[h].lo, g[h].hi);
  }

  /** xs is a downward path in the arena: each handle after the first is a child of the one before it. */
  predicate Path(a: seq<Node>, xs: seq<int>)
  {
    forall i :: 0 <= i < |xs| - 1 ==>
      0 <= xs[i] < |a| && Shaped(a[xs[i]]) && a[xs[i]].Internal? && xs[i + 1] in Kids(a[xs[i]])
  }

  /** A node reached from the root along a path of d steps is at height H - d. */
  lemma {:induction false} PathHeight(a: seq<Node>, g: seq<Meta>, root: int, H: nat, xs: seq<int>)
    requires Inv(a, g, root, H) && |xs| > 0 && xs[0] == root && Path(a, xs)
    ensures 0 <= xs[|xs| - 1] < |a| && g[xs[|xs| - 1]].ht + |xs| - 1 == H
  {
    if |xs| > 1 {
      var ys := xs[..|xs| - 1];
      assert Path(a, ys) by {
        forall i | 0 <= i < |ys| - 1
          ensures 0 <= ys[i] < |a| && Shaped(a[ys[i]]) && a[ys[i]].Internal? && ys[i + 1] in Kids(a[ys[i]])
        {
          assert ys[i] == xs[i] && ys[i + 1] == xs[i + 1];
        }
      }
      PathHeight(a, g, root, H, ys);
      var y := xs[|xs| - 2];
      assert ys[|ys| - 1] == y;
      assert NodeOK(a, g, root, H, y);
      var k :| 0 <= k < |Kids(a[y])| && Kids(a[y])[k] == xs[|xs| - 1];
      assert ChildOK(a, g, y, k);
    }
  }

  /** All leaves lie at the same depth: a path from the root ends at a leaf exactly when it has H steps. */
  lemma LeafDepth(a: seq<Node>, g: seq<Meta>, root: int, H: nat, xs: seq<int>)
    requires Inv(a, g, root, H) && |xs| > 0 && xs[0] == root && Path(a, xs)
    ensures 0 <= xs[|xs| - 1] < |a| && (a[xs[|xs| - 1]].Leaf? <==> |xs| - 1 == H)
  {
    PathHeight(a, g, root, H, xs);
    assert NodeOK(a, g, root, H, xs[|xs| - 1]);
  }
}
