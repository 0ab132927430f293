/**
 * The two arena updates of Btree.java's insertion besides the split: writing
 * a value into a leaf that has room (nodeInsert on a leaf), and putting a new,
 * empty root above a full root (Insert), with the proofs that each keeps the
 * arena a B-tree and what each does to the stored keys.
 */
module Inserting {
  import opened Nodes
  import opened SortedKeys
  import opened Forest
  import opened Splitting

  /** The leaf n with v written at place k and its later keys moved one slot up. */
  function LeafWith(n: Node, k: nat, v: int): (r: Node)
    requires Shaped(n) && n.Leaf? && n.size < NODESIZE && k <= n.size
    ensures Shaped(r) && r.Leaf? && r.size == n.size + 1
    ensures Keys(r) == Keys(n)[..k] + [v] + Keys(n)[k..]
  {
    KeysInsertSlot(n.values, k, v, n.size);
    Leaf(InsertSlot(n.values, k, v, n.size), n.size + 1)
  }

  /** Writing v into a leaf with room, at its place, keeps the arena a B-tree. */
  lemma LeafInsertInv(a: seq<Node>, g: seq<Meta>, root: int, H: nat, h: int, v: int, k: int)
    requires Inv(a, g, root, H) && 0 <= h < |a| && a[h].Leaf? && a[h].size < NODESIZE
    requires Covers(g[h], v) && Slot(Keys(a[h]), v, k)
    ensures Inv(a[h := LeafWith(a[h], k, v)], g, root, H)
  {
    var a' := a[h := LeafWith(a[h], k, v)];
    assert NodeOK(a, g, root, H, h);
    SlotBounds(Keys(a[h]), v, k, g[h].lo, g[h].hi);
    InsertKey(Keys(a[h]), k, v, g[h].lo, g[h].hi);
    forall x | 0 <= x < |a'|
      ensures Shaped(a'[x]) && NodeOK(a', g, root, H, x)
    {
      assert NodeOK(a, g, root, H, x);
      if x != h && a[x].Internal? {
        forall i | 0 <= i <= a[x].size
          ensures ChildOK(a', g, x, i)
        {
          assert ChildOK(a, g, x, i);
        }
      }
      if x != root {
        var i := ParentOf(a, g, root, H, x);
      }
    }
  }

  /** Writing v into a leaf adds v to the stored keys and removes none. */
  lemma LeafInsertStored(a: seq<Node>, h: int, v: int, k: int)
    requires 0 <= h < |a| && Shaped(a[h]) && a[h].Leaf? && a[h].size < NODESIZE && 0 <= k <= a[h].size
    ensures Stored(a[h := LeafWith(a[h], k, v)]) == Stored(a) + {v}
  {
    var a' := a[h := LeafWith(a[h], k, v)];
    InsertElems(Keys(a[h]), k, v);
    assert Elems(Keys(a'[h])) == Elems(Keys(a[h])) + {v};
    forall w | w in Stored(a')
      ensures w in Stored(a) + {v}
    {
      var x :| 0 <= x < |a'| && Shaped(a'[x]) && w in Keys(a'[x]);
      if x == h {
        assert w in Elems(Keys(a'[h]));
        if w != v {
          assert w in Elems(Keys(a[h]));
          StoredHas(a, h, w);
        }
      } else {
        StoredHas(a, x, w);
      }
    }
    forall w | w in Stored(a) + {v}
      ensures w in Stored(a')
    {
      if w == v {
        assert v in Elems(Keys(a'[h]));
        StoredHas(a', h, v);
      } else {
        var x :| 0 <= x < |a| && Shaped(a[x]) && w in Keys(a[x]);
        if x == h {
          assert w in Elems(Keys(a[h]));
          assert w in Elems(Keys(a'[h]));
        }
        StoredHas(a', x, w);
      }
    }
  }

  /** The node initNode creates for a new root, with the old root as its first child. */
  function NewRoot(root: int): (r: Node)
    ensures Shaped(r) && r.Internal? && Keys(r) == [] && Kids(r) == [root]
  {
    Internal(EmptyInternal().values, EmptyInternal().children[0 := root], 0)
  }

  /** The arena after Insert appends a new root above the old one. */
  function Grown(a: seq<Node>, root: int): (r: seq<Node>)
    ensures |r| == |a| + 1 && r[..|a|] == a && r[|a|] == NewRoot(root)
  {
    a + [NewRoot(root)]
  }

  /** The bookkeeping after the new root is added: one level higher, unbounded, parent of the old root. */
  function GrownMeta(g: seq<Meta>, root: int, H: nat): (g': seq<Meta>)
    requires 0 <= root < |g|
    ensures |g'| == |g| + 1 && g'[|g|] == Meta(H + 1, -1, None, None)
    ensures g'[root] == g[root].(par := |g|)
    ensures forall x :: 0 <= x < |g| && x != root ==> g'[x] == g[x]
  {
    (g + [Meta(H + 1, -1, None, None)])[root := g[root].(par := |g|)]
  }

  /**
   * Adding a new root above the old one gives a B-tree one level higher with
   * the same stored keys; when the old root is full, the new root is ready
   * to split it.
   */
  lemma GrowInv(a: seq<Node>, g: seq<Meta>, root: int, H: nat)
    requires Inv(a, g, root, H)
    ensures Inv(Grown(a, root), GrownMeta(g, root, H), |a|, H + 1)
    ensures Stored(Grown(a, root)) == Stored(a)
    ensures a[root].size == NODESIZE ==> SplitReady(Grown(a, root), |a|, 0)
  {
    var a', g' := Grown(a, root), GrownMeta(g, root, H);
    forall x | 0 <= x < |a'|
      ensures Shaped(a'[x]) && NodeOK(a', g', |a|, H + 1, x)
    {
      if x == |a| {
        assert Kids(a'[x])[0] == root;
      } else {
        assert a'[x] == a[x];
        assert NodeOK(a, g, root, H, x);
        if a[x].Internal? {
          forall i | 0 <= i <= a[x].size
            ensures ChildOK(a', g', x, i)
          {
            assert ChildOK(a, g, x, i);
          }
        }
        if x != root {
          var i := ParentOf(a, g, root, H, x);
        }
      }
    }
    forall w | w in Stored(a')
      ensures w in Stored(a)
    {
      var x :| 0 <= x < |a'| && Shaped(a'[x]) && w in Keys(a'[x]);
      StoredHas(a, x, w);
    }
    forall w | w in Stored(a)
      ensures w in Stored(a')
    {
      var x :| 0 <= x < |a| && Shaped(a[x]) && w in Keys(a[x]);
      StoredHas(a', x, w);
    }
  }

  /**
   * Splitting the full old root under the new root leaves the new root with
   * one key, the old root's middle key, and two children: the old root and
   * the new sibling.
   */
  lemma RootSplitShape(a: seq<Node>, g: seq<Meta>, root: int, H: nat)
    requires Inv(a, g, root, H) && a[root].size == NODESIZE
    ensures SplitReady(Grown(a, root), |a|, 0)
    ensures var r := SplitChild(Grown(a, root), |a|, 0);
      r[|a|].size == 1 && Keys(r[|a|]) == [Keys(a[root])[HALF - 1]] && Kids(r[|a|]) == [root, |a| + 1]
  {
    GrowInv(a, g, root, H);
    assert Grown(a, root)[root] == a[root];
  }

  /**
   * The whole root growth of Insert: after the new root is added above the
   * full old root and the old root is split under it, the arena is a B-tree
   * one level higher, rooted at the new node, with the same stored keys.
   */
  lemma GrowSplit(a: seq<Node>, g: seq<Meta>, root: int, H: nat)
    requires Inv(a, g, root, H) && a[root].size == NODESIZE
    ensures SplitReady(Grown(a, root), |a|, 0)
    ensures var r := SplitChild(Grown(a, root), |a|, 0);
      Inv(r, SplitMeta(Grown(a, root), GrownMeta(g, root, H), |a|, 0), |a|, H + 1) &&
      Stored(r) == Stored(a) &&
      r[|a|].size == 1 && Keys(r[|a|]) == [Keys(a[root])[HALF - 1]] && Kids(r[|a|]) == [root, |a| + 1]
  {
    GrowInv(a, g, root, H);
    SplitInv(Grown(a, root), GrownMeta(g, root, H), |a|, H + 1, |a|, 0);
    SplitStored(Grown(a, root), |a|, 0);
    RootSplitShape(a, g, root, H);
  }

  /**
   * nodeInsert can descend from the internal node p, which has room, to its
   * child at place k0: a different node, in the arena, of the usual shape.
   */
  predicate Descendable(a: seq<Node>, p: int, k0: int)
  {
    0 <= p < |a| && Shaped(a[p]) && a[p].Internal? && a[p].size < NODESIZE && 0 <= k0 <= a[p].size &&
    0 <= a[p].children[k0] < |a| && a[p].children[k0] != p && Shaped(a[a[p].children[k0]])
  }

  /** In a B-tree, the child at value's place of an internal node with room can be descended to. */
  lemma CanDescend(a: seq<Node>, g: seq<Meta>, root: int, H: nat, p: int, v: int, k0: int)
    requires Inv(a, g, root, H) && 0 <= p < |a| && a[p].Internal? && a[p].size < NODESIZE
    requires Covers(g[p], v) && Slot(Keys(a[p]), v, k0)
    ensures Descendable(a, p, k0)
  {
    Descend(a, g, root, H, p, v, k0);
  }

  /**
   * One step of nodeInsert's descent through the internal node p, from the
   * arena a to the arena b: if the child at k0 (value's place in p) has
   * room, nothing changes and the descent goes to it; if it is full, it is
   * split first and the descent goes to its lower half when value is below
   * the promoted key, to the new upper half otherwise.
   */
  ghost predicate Stepped(a: seq<Node>, g: seq<Meta>, p: int, k0: int, v: int, b: seq<Node>, h: seq<Meta>, k: int)
    requires |g| == |a| && Descendable(a, p, k0)
  {
    (b == a && h == g && k == k0 && a[a[p].children[k0]].size < NODESIZE) ||
    (a[a[p].children[k0]].size == NODESIZE && b == SplitChild(a, p, k0) && h == SplitMeta(a, g, p, k0) &&
     k == if v > b[p].values[k0] then k0 + 1 else k0)
  }

  /**
   * A descent step keeps the arena a B-tree with the same stored keys and
   * leads to a child that is one level lower than p, whose interval holds
   * value, and that has room for one more key.
   */
  lemma DescendStep(a: seq<Node>, g: seq<Meta>, root: int, H: nat, p: int, v: int, k0: int,
                    b: seq<Node>, h: seq<Meta>, k: int)
    requires Inv(a, g, root, H) && 0 <= p < |a| && a[p].Internal? && a[p].size < NODESIZE
    requires Covers(g[p], v) && v !in Stored(a) && Slot(Keys(a[p]), v, k0)
    requires Descendable(a, p, k0) && Stepped(a, g, p, k0, v, b, h, k)
    ensures Inv(b, h, root, H) && Stored(b) == Stored(a) && |b| >= |a|
    ensures b[p].Internal? && 0 <= k <= b[p].size && h[p] == g[p]
    ensures var c := b[p].children[k];
      0 <= c < |b| && h[c].ht + 1 == g[p].ht && Covers(h[c], v) && b[c].size < NODESIZE
  {
    if b == a && h == g && k == k0 {
      Descend(a, g, root, H, p, v, k0);
    } else {
      SplitInv(a, g, root, H, p, k0);
      SplitStored(a, p, k0);
      SplitDescend(a, p, k0, v);
      NotMoved(a, g, root, H, p, k0, p);
      Descend(b, h, root, H, p, v, k);
    }
  }
}
