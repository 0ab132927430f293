/**
 * Search in the B-tree (Btree.java, nodeLookup): the one-path descent and
 * the proof that it finds a value exactly when some node of the arena holds it.
 */
module Searching {
  import opened Nodes
  import opened SortedKeys
  import opened Forest

  /**
   * nodeLookup as a function of the arena: scan the keys of h from the
   * left; an equal key answers true; otherwise a leaf answers false and an
   * internal node hands the search to the child at the place the scan
   * stopped.
   */
  ghost function Search(a: seq<Node>, g: seq<Meta>, root: int, H: nat, h: int, v: int): bool
    requires Inv(a, g, root, H) && 0 <= h < |a|
    decreases g[h].ht
  {
    var ks := Keys(a[h]);
    var i := FirstAtLeast(ks, v);
    if i < |ks| && ks[i] == v then true
    else if a[h].Leaf? then false
    else
      assert NodeOK(a, g, root, H, h) && ChildOK(a, g, h, i);
      Search(a, g, root, H, a[h].children[i], v)
  }

  /**
   * Started at a node whose interval holds v, the search answers true
   * exactly when v is a key of some node of the arena.
   */
  lemma {:induction false} SearchCorrect(a: seq<Node>, g: seq<Meta>, root: int, H: nat, h: int, v: int)
    requires Inv(a, g, root, H) && 0 <= h < |a| && Covers(g[h], v)
    ensures Search(a, g, root, H, h, v) <==> v in Stored(a)
    decreases g[h].ht
  {
    var ks := Keys(a[h]);
    var i := FirstAtLeast(ks, v);
    assert NodeOK(a, g, root, H, h);
    if i < |ks| && ks[i] == v {
      assert v in Keys(a[h]);
    } else {
      ScanSlot(ks, v);
      SlotNotKey(ks, v, i);
      if a[h].Leaf? {
        if v in Stored(a) {
          var x :| 0 <= x < |a| && Shaped(a[x]) && v in Keys(a[x]);
          StoredAt(a, g, root, H, v, h, x);
        }
      } else {
        Descend(a, g, root, H, h, v, i);
        SearchCorrect(a, g, root, H, a[h].children[i], v);
      }
    }
  }
}
