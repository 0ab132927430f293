/**
 * Splitting a full child of an internal node (Btree.java, nodeSplit): its
 * effect on the arena, the matching update of the ghost bookkeeping, and the
 * proof that the split keeps the arena a B-tree holding the same keys.
 */
module Splitting {
  import opened Nodes
  import opened SortedKeys
  import opened Forest

  /**
   * The situation in which nodeSplit is called: p is an internal node with a
   * free key slot, and its child at `pos` is a distinct, full node.
   */
  predicate SplitReady(a: seq<Node>, p: int, pos: int)
  {
    0 <= p < |a| && Shaped(a[p]) && a[p].Internal? && a[p].size < NODESIZE &&
    0 <= pos <= a[p].size &&
    0 <= a[p].children[pos] < |a| && a[p].children[pos] != p &&
    Shaped(a[a[p].children[pos]]) && a[a[p].children[pos]].size == NODESIZE
  }

  /**
   * The new node that receives the upper half of the full node child: of
   * child's kind, holding the keys above the middle one and, for an internal
   * child, the children above it; its other slots keep the zeros of a fresh
   * node.
   */
  function UpperHalf(child: Node): (r: Node)
    requires Shaped(child) && child.size == NODESIZE
    ensures Shaped(r) && r.Leaf? == child.Leaf? && Keys(r) == Keys(child)[HALF..]
    ensures child.Internal? ==> Kids(r) == Kids(child)[HALF..]
  {
    if child.Leaf? then
      Leaf(child.values[HALF..] + EmptyLeaf().values[HALF - 1..], HALF - 1)
    else
      Internal(child.values[HALF..] + EmptyInternal().values[HALF - 1..],
               child.children[HALF..] + EmptyInternal().children[HALF..], HALF - 1)
  }

  /** UpperHalf slot by slot: the entries above the middle, then the zeroes of a fresh node. */
  lemma UpperHalfAt(child: Node)
    requires Shaped(child) && child.size == NODESIZE
    ensures forall j :: 0 <= j < NODESIZE ==>
      UpperHalf(child).values[j] == if j < HALF - 1 then child.values[j + HALF] else 0
    ensures child.Internal? ==> forall j :: 0 <= j <= NODESIZE ==>
      UpperHalf(child).children[j] == if j < HALF then child.children[j + HALF] else 0
  {
  }

  /**
   * The parent after the split: key m enters at place pos and the handle n
   * of the new node at place pos + 1, the later ones each moving one slot up.
   */
  function Promoted(parent: Node, pos: int, m: int, n: int): (r: Node)
    requires Shaped(parent) && parent.Internal? && parent.size < NODESIZE && 0 <= pos <= parent.size
    ensures Shaped(r) && r.Internal? && r.size == parent.size + 1
    ensures Keys(r) == Keys(parent)[..pos] + [m] + Keys(parent)[pos..]
    ensures Kids(r) == Kids(parent)[..pos + 1] + [n] + Kids(parent)[pos + 1..]
  {
    KeysInsertSlot(parent.values, pos, m, parent.size);
    KeysInsertSlot(parent.children, pos + 1, n, parent.size + 1);
    Internal(InsertSlot(parent.values, pos, m, parent.size),
             InsertSlot(parent.children, pos + 1, n, parent.size + 1),
             parent.size + 1)
  }

  /**
   * The arena after splitting the child c at position pos of p: a new
   * sibling (handle |a|, of c's kind) receives the keys above the middle one
   * and, for an internal c, the children above it; c keeps the keys below
   * the middle one; the middle key and the sibling's handle are shifted into
   * p right after c.
   */
  function SplitChild(a: seq<Node>, p: int, pos: int): (r: seq<Node>)
    requires SplitReady(a, p, pos)
    ensures |r| == |a| + 1
    ensures forall x :: 0 <= x < |a| && x != p && x != a[p].children[pos] ==> r[x] == a[x]
    ensures var c := a[p].children[pos]; var n := |a|;
      Shaped(r[p]) && r[p].Internal? && Shaped(r[c]) && Shaped(r[n]) &&
      r[c].Leaf? == a[c].Leaf? && r[n].Leaf? == a[c].Leaf? &&
      Keys(r[c]) == Keys(a[c])[..NODESIZE / 2] &&
      Keys(r[n]) == Keys(a[c])[HALF..] &&
      Keys(r[p]) == Keys(a[p])[..pos] + [Keys(a[c])[HALF - 1]] + Keys(a[p])[pos..] &&
      Kids(r[p]) == Kids(a[p])[..pos + 1] + [n] + Kids(a[p])[pos + 1..] &&
      (a[c].Internal? ==> Kids(r[c]) == Kids(a[c])[..HALF] && Kids(r[n]) == Kids(a[c])[HALF..])
  {
    var c := a[p].children[pos];
    var child := a[c];
    (a + [UpperHalf(child)])[c := child.(size := NODESIZE / 2)]
      [p := Promoted(a[p], pos, child.values[HALF - 1], |a|)]
  }

  /** The children of the split child that move to the new sibling: those above its middle key. */
  predicate Moved(a: seq<Node>, c: int, x: int)
    requires 0 <= c < |a| && Shaped(a[c])
  {
    a[c].Internal? && x in a[c].children[HALF..]
  }

  /**
   * The bookkeeping of slot x after the split: the new sibling sits at the
   * child's height under p, above the promoted key; the child's interval
   * now ends at the promoted key; the moved children name the sibling as
   * parent; nothing else changes.
   */
  function MetaAfter(a: seq<Node>, g: seq<Meta>, p: int, pos: int, x: int): Meta
    requires SplitReady(a, p, pos) && |g| == |a| && 0 <= x <= |a|
  {
    var c := a[p].children[pos];
    var m := a[c].values[HALF - 1];
    if x == |a| then Meta(g[c].ht, p, Some(m), g[c].hi)
    else if x == c then g[c].(hi := Some(m))
    else if Moved(a, c, x) then g[x].(par := |a|)
    else g[x]
  }

  function SplitMeta(a: seq<Node>, g: seq<Meta>, p: int, pos: int): (g': seq<Meta>)
    requires SplitReady(a, p, pos) && |g| == |a|
    ensures |g'| == |a| + 1
    ensures forall x :: 0 <= x <= |a| ==> g'[x] == MetaAfter(a, g, p, pos, x)
  {
    seq(|a| + 1, x requires 0 <= x <= |a| => MetaAfter(a, g, p, pos, x))
  }

  /** What the invariant says about the parent, the full child and the child's children before the split. */
  lemma SplitFacts(a: seq<Node>, g: seq<Meta>, root: int, H: nat, p: int, pos: int)
    requires Inv(a, g, root, H) && SplitReady(a, p, pos)
    ensures var c := a[p].children[pos];
      c != root && g[c].par == p && g[c].ht + 1 == g[p].ht && g[p].ht <= H &&
      g[c].lo == LoOf(Keys(a[p]), g[p].lo, pos) && g[c].hi == HiOf(Keys(a[p]), g[p].hi, pos) &&
      StrictlySorted(Keys(a[p])) && InBounds(Keys(a[p]), g[p].lo, g[p].hi) &&
      (a[c].Leaf? <==> g[c].ht == 0) &&
      StrictlySorted(Keys(a[c])) && InBounds(Keys(a[c]), g[c].lo, g[c].hi) &&
      Above(g[c].lo, a[c].values[HALF - 1]) && Below(a[c].values[HALF - 1], g[c].hi) &&
      (a[c].Internal? ==> forall j :: 0 <= j <= NODESIZE ==> ChildOK(a, g, c, j))
  {
    var c := a[p].children[pos];
    assert NodeOK(a, g, root, H, p) && ChildOK(a, g, p, pos);
    assert NodeOK(a, g, root, H, c);
    assert Keys(a[c])[HALF - 1] in Keys(a[c]);
  }

  /** A child of the split child is not the parent, the child, or the new sibling, and the moved ones are exactly those above the middle. */
  lemma GrandchildFacts(a: seq<Node>, g: seq<Meta>, root: int, H: nat, p: int, pos: int, j: int)
    requires Inv(a, g, root, H) && SplitReady(a, p, pos)
    requires a[a[p].children[pos]].Internal? && 0 <= j <= NODESIZE
    ensures var c := a[p].children[pos]; var d := a[c].children[j];
      0 <= d < |a| && d != c && d != p && g[d].par == c && (Moved(a, c, d) <==> HALF <= j)
  {
    var c := a[p].children[pos];
    var d := a[c].children[j];
    SplitFacts(a, g, root, H, p, pos);
    assert ChildOK(a, g, c, j);
    if HALF <= j {
      assert a[c].children[HALF..][j - HALF] == d;
    }
    if Moved(a, c, d) {
      var t :| 0 <= t < |a[c].children[HALF..]| && a[c].children[HALF..][t] == d;
      assert ChildOK(a, g, c, HALF + t);
      LoOfInjective(Keys(a[c]), g[c].lo, g[c].hi, j, HALF + t);
    }
  }

  /** A moved node is a child of the split child, so it is neither the parent nor the child. */
  lemma MovedFacts(a: seq<Node>, g: seq<Meta>, root: int, H: nat, p: int, pos: int, x: int)
    requires Inv(a, g, root, H) && SplitReady(a, p, pos) && Moved(a, a[p].children[pos], x)
    ensures var c := a[p].children[pos];
      0 <= x < |a| && x != c && x != p && g[x].par == c && x in Kids(a[c])[HALF..]
  {
    var c := a[p].children[pos];
    var t :| 0 <= t < |a[c].children[HALF..]| && a[c].children[HALF..][t] == x;
    GrandchildFacts(a, g, root, H, p, pos, HALF + t);
    assert Kids(a[c])[HALF..][t] == x;
  }

  /** A node that is the parent, the child, or a node under another parent does not move. */
  lemma NotMoved(a: seq<Node>, g: seq<Meta>, root: int, H: nat, p: int, pos: int, x: int)
    requires Inv(a, g, root, H) && SplitReady(a, p, pos)
    requires var c := a[p].children[pos]; x == p || x == c || (0 <= x < |a| && g[x].par != c)
    ensures !Moved(a, a[p].children[pos], x)
  {
    if Moved(a, a[p].children[pos], x) {
      MovedFacts(a, g, root, H, p, pos, x);
    }
  }

  /** The child intervals of a node whose keys take m at place pos, against the old ones. */
  lemma ShiftedBounds(ks: seq<int>, pos: nat, m: int, lo: Option<int>, hi: Option<int>, i: nat)
    requires pos <= |ks| && i <= |ks| + 1
    ensures var ks' := ks[..pos] + [m] + ks[pos..];
      (i < pos ==> LoOf(ks', lo, i) == LoOf(ks, lo, i) && HiOf(ks', hi, i) == HiOf(ks, hi, i)) &&
      (i == pos ==> LoOf(ks', lo, i) == LoOf(ks, lo, pos) && HiOf(ks', hi, i) == Some(m)) &&
      (i == pos + 1 ==> LoOf(ks', lo, i) == Some(m) && HiOf(ks', hi, i) == HiOf(ks, hi, pos)) &&
      (pos + 1 < i ==> LoOf(ks', lo, i) == LoOf(ks, lo, i - 1) && HiOf(ks', hi, i) == HiOf(ks, hi, i - 1))
  {
  }

  /** The i-th child of the parent after the split is consistent with it. */
  lemma SplitParentChild(a: seq<Node>, g: seq<Meta>, root: int, H: nat, p: int, pos: int, i: int)
    requires Inv(a, g, root, H) && SplitReady(a, p, pos) && 0 <= i <= a[p].size + 1
    ensures ChildOK(SplitChild(a, p, pos), SplitMeta(a, g, p, pos), p, i)
  {
    var r := SplitChild(a, p, pos);
    var c := a[p].children[pos];
    ShiftedBounds(Keys(a[p]), pos, a[c].values[HALF - 1], g[p].lo, g[p].hi, i);
    assert r[p].children[i] == Kids(r[p])[i];
    if i == pos {
      assert Kids(a[p])[pos] == c;
      SplitFacts(a, g, root, H, p, pos);
    } else if i == pos + 1 {
      SplitFacts(a, g, root, H, p, pos);
    } else {
      var j := if i < pos then i else i - 1;
      assert Kids(a[p])[j] == a[p].children[j];
      SplitKeptChild(a, g, root, H, p, pos, j);
    }
  }

  /** A child of the parent other than the split one keeps its bookkeeping. */
  lemma SplitKeptChild(a: seq<Node>, g: seq<Meta>, root: int, H: nat, p: int, pos: int, j: int)
    requires Inv(a, g, root, H) && SplitReady(a, p, pos) && 0 <= j <= a[p].size && j != pos
    ensures var d := a[p].children[j];
      0 <= d < |a| && SplitMeta(a, g, p, pos)[d] == g[d] && ChildOK(a, g, p, j)
  {
    var c := a[p].children[pos];
    var d := a[p].children[j];
    SplitFacts(a, g, root, H, p, pos);
    assert NodeOK(a, g, root, H, p);
    assert ChildOK(a, g, p, j);
    if d == c {
      LoOfInjective(Keys(a[p]), g[p].lo, g[p].hi, j, pos);
    }
    NotMoved(a, g, root, H, p, pos, d);
  }

  /** The parent stays consistent: its keys take the promoted key in order, and its children fit the new keys. */
  lemma SplitParentOK(a: seq<Node>, g: seq<Meta>, root: int, H: nat, p: int, pos: int)
    requires Inv(a, g, root, H) && SplitReady(a, p, pos)
    ensures NodeOK(SplitChild(a, p, pos), SplitMeta(a, g, p, pos), root, H, p)
  {
    var r, g' := SplitChild(a, p, pos), SplitMeta(a, g, p, pos);
    var c := a[p].children[pos];
    SplitFacts(a, g, root, H, p, pos);
    NotMoved(a, g, root, H, p, pos, p);
    assert g'[p] == g[p];
    InsertKey(Keys(a[p]), pos, a[c].values[HALF - 1], g[p].lo, g[p].hi);
    forall i | 0 <= i <= r[p].size
      ensures ChildOK(r, g', p, i)
    {
      SplitParentChild(a, g, root, H, p, pos, i);
    }
    if p != root {
      var i := ParentOf(a, g, root, H, p);
      var y := g[p].par;
      assert Kids(a[y])[i] == p;
    }
  }

  /** The i-th child kept by the split child is consistent with it. */
  lemma SplitLowerChild(a: seq<Node>, g: seq<Meta>, root: int, H: nat, p: int, pos: int, i: int)
    requires Inv(a, g, root, H) && SplitReady(a, p, pos)
    requires a[a[p].children[pos]].Internal? && 0 <= i < HALF
    ensures ChildOK(SplitChild(a, p, pos), SplitMeta(a, g, p, pos), a[p].children[pos], i)
  {
    var c := a[p].children[pos];
    SplitFacts(a, g, root, H, p, pos);
    GrandchildFacts(a, g, root, H, p, pos, i);
    assert ChildOK(a, g, c, i);
  }

  /** The split child keeps its lower keys and children, below the promoted key. */
  lemma SplitLowerOK(a: seq<Node>, g: seq<Meta>, root: int, H: nat, p: int, pos: int)
    requires Inv(a, g, root, H) && SplitReady(a, p, pos)
    ensures NodeOK(SplitChild(a, p, pos), SplitMeta(a, g, p, pos), root, H, a[p].children[pos])
  {
    var r, g' := SplitChild(a, p, pos), SplitMeta(a, g, p, pos);
    var c := a[p].children[pos];
    SplitFacts(a, g, root, H, p, pos);
    KeysBelow(Keys(a[c]), HALF - 1, g[c].lo, g[c].hi);
    if a[c].Internal? {
      forall i | 0 <= i <= r[c].size
        ensures ChildOK(r, g', c, i)
      {
        SplitLowerChild(a, g, root, H, p, pos, i);
      }
    }
    assert Kids(r[p])[pos] == c;
  }

  /** The i-th child of the new sibling is consistent with it. */
  lemma SplitUpperChild(a: seq<Node>, g: seq<Meta>, root: int, H: nat, p: int, pos: int, i: int)
    requires Inv(a, g, root, H) && SplitReady(a, p, pos)
    requires a[a[p].children[pos]].Internal? && 0 <= i < HALF
    ensures ChildOK(SplitChild(a, p, pos), SplitMeta(a, g, p, pos), |a|, i)
  {
    var r, g' := SplitChild(a, p, pos), SplitMeta(a, g, p, pos);
    var c := a[p].children[pos];
    var d, m := a[c].children[HALF + i], a[c].values[HALF - 1];
    SplitFacts(a, g, root, H, p, pos);
    GrandchildFacts(a, g, root, H, p, pos, HALF + i);
    assert ChildOK(a, g, c, HALF + i);
    assert r[|a|].children[i] == Kids(r[|a|])[i] == Kids(a[c])[HALF + i] == d;
    assert g'[d] == g[d].(par := |a|) && g'[|a|] == Meta(g[c].ht, p, Some(m), g[c].hi);
    var ks, ks' := Keys(a[c]), Keys(r[|a|]);
    assert ks' == ks[HALF..] && |ks'| == HALF - 1;
    if i > 0 {
      assert ks'[i - 1] == ks[HALF + i - 1];
    }
    if i < HALF - 1 {
      assert ks'[i] == ks[HALF + i];
    }
  }

  /** The new sibling holds the upper keys and children, above the promoted key. */
  lemma SplitUpperOK(a: seq<Node>, g: seq<Meta>, root: int, H: nat, p: int, pos: int)
    requires Inv(a, g, root, H) && SplitReady(a, p, pos)
    ensures NodeOK(SplitChild(a, p, pos), SplitMeta(a, g, p, pos), root, H, |a|)
  {
    var r, g' := SplitChild(a, p, pos), SplitMeta(a, g, p, pos);
    var c := a[p].children[pos];
    var n := |a|;
    SplitFacts(a, g, root, H, p, pos);
    KeysAbove(Keys(a[c]), HALF - 1, g[c].lo, g[c].hi);
    if a[c].Internal? {
      forall i | 0 <= i <= r[n].size
        ensures ChildOK(r, g', n, i)
      {
        SplitUpperChild(a, g, root, H, p, pos, i);
      }
    }
    assert Kids(r[p])[pos + 1] == n;
  }

  /** A node the split does not write stays consistent. */
  lemma SplitOtherOK(a: seq<Node>, g: seq<Meta>, root: int, H: nat, p: int, pos: int, x: int)
    requires Inv(a, g, root, H) && SplitReady(a, p, pos)
    requires 0 <= x < |a| && x != p && x != a[p].children[pos]
    ensures NodeOK(SplitChild(a, p, pos), SplitMeta(a, g, p, pos), root, H, x)
  {
    assert NodeOK(a, g, root, H, x);
    if a[x].Internal? {
      SplitOtherKids(a, g, root, H, p, pos, x);
    }
    if x != root {
      SplitOtherParent(a, g, root, H, p, pos, x);
    }
  }

  /** The children of a node the split does not write keep their bookkeeping. */
  lemma SplitOtherKids(a: seq<Node>, g: seq<Meta>, root: int, H: nat, p: int, pos: int, x: int)
    requires Inv(a, g, root, H) && SplitReady(a, p, pos)
    requires 0 <= x < |a| && x != p && x != a[p].children[pos] && a[x].Internal?
    ensures var r := SplitChild(a, p, pos);
      Shaped(r[x]) && r[x] == a[x] && forall i :: 0 <= i <= a[x].size ==> ChildOK(r, SplitMeta(a, g, p, pos), x, i)
  {
    var r, g' := SplitChild(a, p, pos), SplitMeta(a, g, p, pos);
    SplitFacts(a, g, root, H, p, pos);
    assert NodeOK(a, g, root, H, x);
    forall i | 0 <= i <= a[x].size
      ensures ChildOK(r, g', x, i)
    {
      var d := a[x].children[i];
      assert ChildOK(a, g, x, i);
      NotMoved(a, g, root, H, p, pos, d);
    }
  }

  /** A node the split does not write is still listed by its parent (the sibling, for a moved node). */
  lemma SplitOtherParent(a: seq<Node>, g: seq<Meta>, root: int, H: nat, p: int, pos: int, x: int)
    requires Inv(a, g, root, H) && SplitReady(a, p, pos)
    requires 0 <= x < |a| && x != p && x != a[p].children[pos] && x != root
    ensures HasParent(SplitChild(a, p, pos), SplitMeta(a, g, p, pos), x)
  {
    var r := SplitChild(a, p, pos);
    var c := a[p].children[pos];
    if Moved(a, c, x) {
      MovedFacts(a, g, root, H, p, pos, x);
    } else {
      var i := ParentOf(a, g, root, H, x);
      var y := g[x].par;
      if y == p {
        if i <= pos {
          assert Kids(r[p])[i] == x;
        } else {
          assert Kids(r[p])[i + 1] == x;
        }
      } else if y == c {
        GrandchildFacts(a, g, root, H, p, pos, i);
        assert Kids(r[c])[i] == x;
      }
    }
  }

  /** The split keeps the arena a B-tree of the same height and root. */
  lemma SplitInv(a: seq<Node>, g: seq<Meta>, root: int, H: nat, p: int, pos: int)
    requires Inv(a, g, root, H) && SplitReady(a, p, pos)
    ensures Inv(SplitChild(a, p, pos), SplitMeta(a, g, p, pos), root, H)
  {
    var r, g' := SplitChild(a, p, pos), SplitMeta(a, g, p, pos);
    var c := a[p].children[pos];
    SplitFacts(a, g, root, H, p, pos);
    forall x | 0 <= x < |r|
      ensures Shaped(r[x]) && NodeOK(r, g', root, H, x)
    {
      if x == p {
        SplitParentOK(a, g, root, H, p, pos);
      } else if x == c {
        SplitLowerOK(a, g, root, H, p, pos);
      } else if x == |a| {
        SplitUpperOK(a, g, root, H, p, pos);
      } else {
        SplitOtherOK(a, g, root, H, p, pos, x);
      }
    }
  }

  /** The split moves keys between nodes but keeps the set of stored keys. */
  lemma SplitStored(a: seq<Node>, p: int, pos: int)
    requires SplitReady(a, p, pos)
    ensures Stored(SplitChild(a, p, pos)) == Stored(a)
  {
    var r := SplitChild(a, p, pos);
    forall k | k in Stored(r)
      ensures k in Stored(a)
    {
      var x :| 0 <= x < |r| && Shaped(r[x]) && k in Keys(r[x]);
      SplitKeyFrom(a, p, pos, x, k);
    }
    forall k | k in Stored(a)
      ensures k in Stored(r)
    {
      var x :| 0 <= x < |a| && Shaped(a[x]) && k in Keys(a[x]);
      SplitKeyTo(a, p, pos, x, k);
    }
  }

  /** Each key of a node after the split was a key of some node before it. */
  lemma SplitKeyFrom(a: seq<Node>, p: int, pos: int, x: int, k: int)
    requires SplitReady(a, p, pos)
    requires var r := SplitChild(a, p, pos); 0 <= x < |r| && Shaped(r[x]) && k in Keys(r[x])
    ensures k in Stored(a)
  {
    var r := SplitChild(a, p, pos);
    var c := a[p].children[pos];
    var m := Keys(a[c])[HALF - 1];
    if x == p {
      InsertElems(Keys(a[p]), pos, m);
      if k == m {
        StoredHas(a, c, k);
      } else {
        assert k in Elems(Keys(a[p]));
        StoredHas(a, p, k);
      }
    } else if x == c {
      var t :| 0 <= t < |Keys(r[c])| && Keys(r[c])[t] == k;
      assert Keys(a[c])[t] == k;
      StoredHas(a, c, k);
    } else if x == |a| {
      var t :| 0 <= t < |Keys(r[x])| && Keys(r[x])[t] == k;
      assert Keys(a[c])[HALF + t] == k;
      StoredHas(a, c, k);
    } else {
      StoredHas(a, x, k);
    }
  }

  /** Each key of a node before the split is a key of some node after it. */
  lemma SplitKeyTo(a: seq<Node>, p: int, pos: int, x: int, k: int)
    requires SplitReady(a, p, pos)
    requires 0 <= x < |a| && Shaped(a[x]) && k in Keys(a[x])
    ensures k in Stored(SplitChild(a, p, pos))
  {
    var r := SplitChild(a, p, pos);
    var c := a[p].children[pos];
    if x == p {
      InsertElems(Keys(a[p]), pos, Keys(a[c])[HALF - 1]);
      assert k in Elems(Keys(r[p]));
      StoredHas(r, p, k);
    } else if x == c {
      var t :| 0 <= t < |Keys(a[c])| && Keys(a[c])[t] == k;
      if t < HALF - 1 {
        assert Keys(r[c])[t] == k;
        StoredHas(r, c, k);
      } else if t == HALF - 1 {
        assert Keys(r[p])[pos] == k;
        StoredHas(r, p, k);
      } else {
        assert Keys(r[|a|])[t - HALF] == k;
        StoredHas(r, |a|, k);
      }
    } else {
      StoredHas(r, x, k);
    }
  }

  /**
   * After the split, a value that is not stored and whose place in p was pos
   * goes to the child at pos when it is below the promoted key and to the new
   * sibling when it is above it; its place in p is then that child's
   * position, and that child has room.
   */
  lemma SplitDescend(a: seq<Node>, p: int, pos: int, v: int)
    requires SplitReady(a, p, pos) && Slot(Keys(a[p]), v, pos) && v !in Stored(a)
    ensures var r := SplitChild(a, p, pos);
      var k := if v > r[p].values[pos] then pos + 1 else pos;
      k <= r[p].size && 0 <= r[p].children[k] < |r| &&
      Slot(Keys(r[p]), v, k) && r[r[p].children[k]].size < NODESIZE
  {
    var r := SplitChild(a, p, pos);
    var c := a[p].children[pos];
    var m := Keys(a[c])[HALF - 1];
    assert m in Keys(a[c]);
    assert r[p].values[pos] == Keys(r[p])[pos] == m;
    assert Kids(r[p])[pos] == c && Kids(r[p])[pos + 1] == |a|;
  }
}
