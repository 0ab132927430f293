/**
 * The B-tree object of Btree.java: an array of nodes that grows by doubling,
 * the number of nodes in use, the handle of the root and the number of
 * stored values. The methods follow the Java methods statement by statement;
 * each is proved against the arena functions and lemmas of the other modules.
 *
 * Ghost state: `arena` mirrors the nodes in use, `meta` holds the per-node
 * bookkeeping of the invariant (height, parent, key interval) and `height`
 * the height of the tree.
 */
module BtreeClass {
  import opened Nodes
  import opened SortedKeys
  import opened Forest
  import opened Searching
  import opened Splitting
  import opened Inserting

  class Btree {
    var nodes: array<Node>
    var cntNodes: nat
    var root: int
    var cntValues: nat
    ghost var arena: seq<Node>
    ghost var meta: seq<Meta>
    ghost var height: nat

    /** The node array is never empty, has room for the nodes in use, and those are `arena`. */
    ghost predicate Fits()
      reads this`nodes, this`cntNodes, this`arena, nodes
    {
      0 < nodes.Length && cntNodes <= nodes.Length && |arena| == cntNodes &&
      forall i {:trigger nodes[i]} :: 0 <= i < cntNodes ==> nodes[i] == arena[i]
    }

    /** The nodes in use form a B-tree rooted at `root`, and `cntValues` counts their keys. */
    ghost predicate Valid()
      reads this, nodes
    {
      Fits() && Inv(arena, meta, root, height) && cntValues == |Stored(arena)|
    }

    /** The set of values the tree holds. */
    ghost function Contents(): set<int>
      reads this, nodes
      requires Valid()
    {
      Stored(arena)
    }

    /** A new tree: its root is a fresh, empty leaf at handle 0. */
    constructor ()
      ensures Valid() && Contents() == {} && cntValues == 0
      ensures cntNodes == 1 && root == 0 && height == 0 && fresh(nodes)
    {
      nodes := new Node[1](_ => EmptyLeaf());
      cntNodes := 0;
      cntValues := 0;
      arena := [];
      meta := [Meta(0, -1, None, None)];
      height := 0;
      new;
      root := CreateLeaf();
      assert Keys(arena[0]) == [];
      assert NodeOK(arena, meta, root, height, 0);
      assert Stored(arena) == {};
    }

    /** True exactly when the tree holds value. */
    method Lookup(value: int) returns (found: bool)
      requires Valid()
      ensures found <==> value in Contents()
    {
      found := NodeLookup(value, root);
      SearchCorrect(arena, meta, root, height, root, value);
    }

    /**
     * Inserts value unless it is already held: a value that is present
     * leaves the whole object as it was; an absent one is added, and
     * cntValues grows by one. A full root gets a new root above it, which
     * makes the tree one level higher.
     */
    method Insert(value: int)
      requires Valid()
      modifies this, nodes
      ensures Valid()
      ensures Contents() == old(Contents()) + {value}
      ensures value in old(Contents()) ==> unchanged(this, old(nodes))
      ensures value !in old(Contents()) ==> cntValues == old(cntValues) + 1
      ensures height == if value !in old(Contents()) && old(arena[root].size) == NODESIZE
                        then old(height) + 1 else old(height)
      ensures nodes == old(nodes) || fresh(nodes)
    {
      var found := Lookup(value);
      if found {
        return;
      }
      InsertAbsent(value);
    }

    /**
     * The rest of Insert, for a value the tree does not hold: a full root is
     * first split under a new root; then value goes into the tree from the
     * root down, and the count grows by one.
     */
    method InsertAbsent(value: int)
      requires Valid() && value !in Contents()
      modifies this, nodes
      ensures Valid()
      ensures Contents() == old(Contents()) + {value}
      ensures cntValues == old(cntValues) + 1
      ensures height == if old(arena[root].size) == NODESIZE then old(height) + 1 else old(height)
      ensures nodes == old(nodes) || fresh(nodes)
    {
      var rootNode := nodes[root];
      assert rootNode == arena[root];
      if rootNode.size == NODESIZE {
        var newRootIndex := SplitRoot();
        NodeInsert(value, newRootIndex);
      } else {
        NodeInsert(value, root);
      }
      cntValues := cntValues + 1;
    }

    /**
     * The root growth of Insert: a new internal node becomes the root with
     * the old, full root as its only child, which is then split. The tree
     * is one level higher, holds the same values, and the new root holds
     * one key, the old root's middle key, over the two halves.
     */
    method SplitRoot() returns (newRootIndex: int)
      requires Fits() && Inv(arena, meta, root, height) && arena[root].size == NODESIZE
      modifies this`nodes, this`cntNodes, nodes, this`arena, this`meta, this`root, this`height
      ensures Fits() && Inv(arena, meta, root, height) && height == old(height) + 1
      ensures newRootIndex == root == old(cntNodes)
      ensures arena == SplitChild(Grown(old(arena), old(root)), old(cntNodes), 0)
      ensures Stored(arena) == old(Stored(arena))
      ensures Keys(arena[root]) == [old(Keys(arena[root]))[HALF - 1]] && Kids(arena[root]) == [old(root), root + 1]
      ensures nodes == old(nodes) || fresh(nodes)
    {
      ghost var a, g, H := arena, meta, height;
      var oldRootIndex := root;
      GrowSplit(a, g, oldRootIndex, H);
      newRootIndex := InitNode();
      var newRoot := nodes[newRootIndex];
      assert newRoot == EmptyInternal();
      root := newRootIndex;
      newRoot := newRoot.(children := newRoot.children[0 := oldRootIndex]);
      Put(newRootIndex, newRoot);
      assert arena == Grown(a, oldRootIndex);
      NodeSplit(newRootIndex, 0, oldRootIndex);
      meta, height := SplitMeta(Grown(a, oldRootIndex), GrownMeta(g, oldRootIndex, H), newRootIndex, 0), H + 1;
    }

    /** The number of values the tree holds. */
    function CntValues(): (r: int)
      reads this, nodes
      requires Valid()
      ensures r == |Contents()|
    {
      cntValues
    }

    /**
     * nodeLookup: scans the keys of the node at pointer from the left,
     * stopping at the first larger key and answering true at an equal one;
     * a leaf then answers false and an internal node passes the search to
     * the child at the place the scan stopped.
     */
    method NodeLookup(value: int, pointer: int) returns (found: bool)
      requires Valid() && 0 <= pointer < cntNodes
      ensures found == Search(arena, meta, root, height, pointer, value)
      decreases meta[pointer].ht
    {
      var currNode := nodes[pointer];
      assert NodeOK(arena, meta, root, height, pointer) && arena[pointer] == currNode;
      var i := 0;
      while i < currNode.size
        invariant 0 <= i <= currNode.size
        invariant forall j :: 0 <= j < i ==> Keys(currNode)[j] < value
      {
        var currValue := currNode.values[i];
        if currValue > value {
          break;
        }
        if currValue == value {
          FirstAtLeastAt(Keys(currNode), value, i);
          return true;
        }
        i := i + 1;
      }
      FirstAtLeastAt(Keys(currNode), value, i);
      if IsLeaf(currNode) {
        return false;
      }
      assert ChildOK(arena, meta, pointer, i);
      found := NodeLookup(value, currNode.children[i]);
    }

    /**
     * nodeInsert: puts value, which the tree does not hold, into the subtree
     * of the node at pointer, which has room and whose interval holds value.
     * A leaf takes value at its place; an internal node finds the child for
     * value, splits it first if it is full (then choosing the half value
     * belongs to), and descends.
     */
    method NodeInsert(value: int, pointer: int)
      requires Fits() && Inv(arena, meta, root, height) && 0 <= pointer < cntNodes
      requires Covers(meta[pointer], value) && arena[pointer].size < NODESIZE
      requires value !in Stored(arena)
      modifies this`nodes, this`cntNodes, nodes, this`arena, this`meta
      ensures Fits() && Inv(arena, meta, root, height)
      ensures Stored(arena) == old(Stored(arena)) + {value}
      ensures nodes == old(nodes) || fresh(nodes)
      decreases meta[pointer].ht
    {
      var currNode := nodes[pointer];
      ghost var a, g := arena, meta;
      assert Shaped(currNode) && StrictlySorted(Keys(currNode)) && value !in Keys(currNode) by {
        assert a[pointer] == currNode && NodeOK(a, g, root, height, pointer);
        NotStoredNotKey(a, pointer, value);
      }
      if IsLeaf(currNode) {
        LeafInsert(value, pointer);
      } else {
        var i := ScanDown(currNode, value);
        CanDescend(a, g, root, height, pointer, value, i + 1);
        var k := ChildToDescend(value, pointer, i);
        DescendStep(a, g, root, height, pointer, value, i + 1, arena, meta, k);
        assert nodes[pointer] == arena[pointer];
        NodeInsert(value, nodes[pointer].children[k]);
      }
    }

    /**
     * The leaf branch of nodeInsert: value, which the tree does not hold,
     * is written into the leaf at pointer, which has room and whose
     * interval holds value.
     */
    method LeafInsert(value: int, pointer: int)
      requires Fits() && Inv(arena, meta, root, height) && 0 <= pointer < cntNodes
      requires arena[pointer].Leaf? && Covers(meta[pointer], value) && arena[pointer].size < NODESIZE
      requires value !in Keys(arena[pointer])
      modifies nodes, this`arena
      ensures Fits() && Inv(arena, meta, root, height)
      ensures Stored(arena) == old(Stored(arena)) + {value}
    {
      ghost var a := arena;
      var currNode := nodes[pointer];
      assert currNode == a[pointer] && NodeOK(a, meta, root, height, pointer);
      var leaf, k := LeafPut(currNode, value);
      Put(pointer, leaf);
      LeafInsertInv(a, meta, root, height, pointer, value, k);
      LeafInsertStored(a, pointer, value, k);
    }

    /**
     * The descent step of nodeInsert at the internal node at pointer, with
     * i + 1 the place of value among its keys: when the child there is full
     * it is split, and the place moves past the promoted key if value is
     * above it. The result k is the place of the child to descend to.
     */
    method ChildToDescend(value: int, pointer: int, i: int) returns (k: int)
      requires Fits() && |meta| == |arena| && Descendable(arena, pointer, i + 1)
      modifies this`nodes, this`cntNodes, nodes, this`arena, this`meta
      ensures Fits() && Stepped(old(arena), old(meta), pointer, i + 1, value, arena, meta, k)
      ensures nodes == old(nodes) || fresh(nodes)
    {
      ghost var a, g := arena, meta;
      var currNode := nodes[pointer];
      assert currNode == a[pointer];
      var childNodeIndex := currNode.children[i + 1];
      var childNode := nodes[childNodeIndex];
      assert childNode == a[childNodeIndex];
      k := i + 1;
      if childNode.size == NODESIZE {
        NodeSplit(pointer, i + 1, childNodeIndex);
        meta := SplitMeta(a, g, pointer, i + 1);
        assert nodes[pointer] == arena[pointer];
        if value > nodes[pointer].values[i + 1] {
          k := i + 2;
        }
      }
    }

    /**
     * nodeSplit: splits the full child at position of the node at
     * parentPointer, with a new node of the child's kind as the upper half.
     */
    method NodeSplit(parentPointer: int, position: int, childPointer: int)
      requires Fits() && SplitReady(arena, parentPointer, position)
      requires childPointer == arena[parentPointer].children[position]
      modifies this`nodes, this`cntNodes, nodes, this`arena
      ensures Fits() && arena == SplitChild(old(arena), parentPointer, position)
      ensures nodes == old(nodes) || fresh(nodes)
    {
      ghost var a := arena;
      var newNodeIndex;
      if IsLeaf(nodes[childPointer]) {
        newNodeIndex := CreateLeaf();
      } else {
        newNodeIndex := InitNode();
      }
      var newNode := nodes[newNodeIndex];
      var childNode := nodes[childPointer];
      var parentNode := nodes[parentPointer];
      assert childNode == a[childPointer] && parentNode == a[parentPointer];
      newNode := CopyUpperHalf(newNode, childNode);
      childNode := childNode.(size := NODESIZE / 2);
      parentNode := MakeRoom(parentNode, position, childNode.values[HALF - 1], newNodeIndex);
      Put(newNodeIndex, newNode);
      assert arena == a + [newNode];
      Put(childPointer, childNode);
      Put(parentPointer, parentNode);
    }

    /**
     * Stores n at handle x. The Java code changes the node object at x in
     * place through a reference; here the updated node value is written back.
     */
    method Put(x: int, n: Node)
      requires Fits() && 0 <= x < cntNodes
      modifies nodes, this`arena
      ensures Fits() && arena == old(arena)[x := n]
    {
      nodes[x] := n;
      arena := arena[x := n];
    }

    /** initNode: appends an empty internal node and returns its handle. */
    method InitNode() returns (pointer: int)
      requires Fits()
      modifies this`nodes, this`cntNodes, nodes, this`arena
      ensures Fits() && pointer == old(cntNodes) && cntNodes == old(cntNodes) + 1
      ensures arena == old(arena) + [EmptyInternal()]
      ensures nodes == old(nodes) || fresh(nodes)
    {
      CheckSize();
      nodes[cntNodes] := EmptyInternal();
      pointer := cntNodes;
      cntNodes := cntNodes + 1;
      arena := arena + [EmptyInternal()];
    }

    /** createLeaf: appends an empty leaf and returns its handle. */
    method CreateLeaf() returns (pointer: int)
      requires Fits()
      modifies this`nodes, this`cntNodes, nodes, this`arena
      ensures Fits() && pointer == old(cntNodes) && cntNodes == old(cntNodes) + 1
      ensures arena == old(arena) + [EmptyLeaf()]
      ensures nodes == old(nodes) || fresh(nodes)
    {
      CheckSize();
      nodes[cntNodes] := EmptyLeaf();
      pointer := cntNodes;
      cntNodes := cntNodes + 1;
      arena := arena + [EmptyLeaf()];
    }

    /**
     * checkSize: when every slot of the node array is in use, replaces it by
     * one twice as long holding the same nodes in its first slots.
     */
    method CheckSize()
      requires Fits()
      modifies this`nodes
      ensures Fits() && cntNodes < nodes.Length
      ensures if old(cntNodes == nodes.Length)
              then fresh(nodes) && nodes.Length == 2 * old(nodes.Length)
              else nodes == old(nodes)
    {
      if cntNodes == nodes.Length {
        var tmp := new Node[cntNodes * 2](_ => EmptyLeaf());
        var i := 0;
        while i < cntNodes
          invariant nodes == old(nodes) && cntNodes == nodes.Length && tmp.Length == 2 * cntNodes
          invariant 0 <= i <= cntNodes
          invariant forall j {:trigger tmp[j]} :: 0 <= j < i ==> tmp[j] == nodes[j]
        {
          tmp[i] := nodes[i];
          i := i + 1;
        }
        nodes := tmp;
      }
    }
  }

  /**
   * The copying loops of nodeSplit: the fresh node newNode (a leaf or an
   * internal node like childNode) receives the keys of the full node
   * childNode above the middle one, counting them in its size, and, when
   * childNode is internal, the children above the middle key.
   */
  method CopyUpperHalf(newNode: Node, childNode: Node) returns (r: Node)
    requires Shaped(childNode) && childNode.size == NODESIZE
    requires newNode == if childNode.Leaf? then EmptyLeaf() else EmptyInternal()
    ensures r == UpperHalf(childNode)
  {
    r := newNode;
    var i := 0;
    while i < HALF - 1
      invariant 0 <= i <= HALF - 1 && r.size == i && r.Leaf? == childNode.Leaf? && |r.values| == NODESIZE
      invariant forall j :: 0 <= j < i ==> r.values[j] == childNode.values[j + HALF]
      invariant forall j :: i <= j < NODESIZE ==> r.values[j] == 0
      invariant r.Internal? ==> r.children == EmptyInternal().children
    {
      r := r.(values := r.values[i := childNode.values[i + HALF]], size := r.size + 1);
      i := i + 1;
    }
    if !IsLeaf(childNode) {
      i := 0;
      while i < HALF
        invariant 0 <= i <= HALF && r.Internal? && r.size == HALF - 1 && |r.values| == NODESIZE
        invariant forall j :: 0 <= j < HALF - 1 ==> r.values[j] == childNode.values[j + HALF]
        invariant forall j :: HALF - 1 <= j < NODESIZE ==> r.values[j] == 0
        invariant |r.children| == NODESIZE + 1
        invariant forall j :: 0 <= j < i ==> r.children[j] == childNode.children[j + HALF]
        invariant forall j :: i <= j <= NODESIZE ==> r.children[j] == 0
      {
        r := r.(children := r.children[i := childNode.children[i + HALF]]);
        i := i + 1;
      }
    }
    UpperHalfAt(childNode);
    assert r.values == UpperHalf(childNode).values;
    if r.Internal? {
      assert r.children == UpperHalf(childNode).children;
    }
  }

  /**
   * The shifting loops of nodeSplit: the keys of parentNode from place
   * position on and its children from place position + 1 on move one slot
   * up, from the top down; then the middle key takes slot position, the
   * handle of the new node slot position + 1, and the size grows by one.
   */
  method MakeRoom(parentNode: Node, position: int, middle: int, newNodeIndex: int) returns (r: Node)
    requires Shaped(parentNode) && parentNode.Internal? && parentNode.size < NODESIZE
    requires 0 <= position <= parentNode.size
    ensures r == Promoted(parentNode, position, middle, newNodeIndex)
  {
    var values := ShiftUp(parentNode.values, position, parentNode.size);
    var children := ShiftUp(parentNode.children, position + 1, parentNode.size + 1);
    ShiftDone(parentNode.values, position, middle, parentNode.size);
    ShiftDone(parentNode.children, position + 1, newNodeIndex, parentNode.size + 1);
    values := values[position := middle];
    children := children[position + 1 := newNodeIndex];
    r := Internal(values, children, parentNode.size + 1);
  }

  /**
   * One shifting loop of nodeSplit: the entries of s from place from up to
   * place used - 1 are copied one slot up, from the top down, leaving slot
   * from free (it still holds its old entry).
   */
  method ShiftUp(s: seq<int>, from: nat, used: nat) returns (t: seq<int>)
    requires from <= used < |s|
    ensures t == Shifting(s, from - 1, used)
  {
    t := s;
    var i := used - 1;
    ShiftStart(s, used);
    while i >= from
      invariant from - 1 <= i < used
      invariant t == Shifting(s, i, used)
    {
      assert t[i] == s[i];
      ShiftStep(s, i, used);
      t := t[i + 1 := t[i]];
      i := i - 1;
    }
  }

  /**
   * The leaf branch of nodeInsert: the keys of currNode larger than value
   * move one slot up and value takes the slot freed; k is the place where
   * value lands.
   */
  method LeafPut(currNode: Node, value: int) returns (r: Node, k: int)
    requires Shaped(currNode) && currNode.Leaf? && currNode.size < NODESIZE
    requires StrictlySorted(Keys(currNode)) && value !in Keys(currNode)
    ensures 0 <= k <= currNode.size && Slot(Keys(currNode), value, k)
    ensures r == LeafWith(currNode, k, value)
  {
    var values, place := ShiftAbove(currNode.values, currNode.size, value);
    k := place;
    ShiftDone(currNode.values, k, value, currNode.size);
    values := values[k := value];
    r := Leaf(values, currNode.size + 1);
  }

  /**
   * The loop of the leaf branch of nodeInsert, on the key array s whose
   * first used slots hold sorted keys: from the top down, every key larger
   * than v is copied one slot up. It stops at v's place k, whose slot is
   * then free (it still holds its old entry).
   */
  method ShiftAbove(s: seq<int>, used: nat, v: int) returns (t: seq<int>, k: nat)
    requires used < |s| && StrictlySorted(s[..used]) && v !in s[..used]
    ensures k <= used && Slot(s[..used], v, k) && t == Shifting(s, k - 1, used)
  {
    ghost var ks := s[..used];
    t := s;
    var i := used - 1;
    ShiftStart(s, used);
    while i >= 0 && v < t[i]
      invariant -1 <= i < used && t == Shifting(s, i, used)
      invariant forall j :: i < j < used ==> v < ks[j]
    {
      assert t[i] == s[i] == ks[i];
      ShiftStep(s, i, used);
      t := t[i + 1 := t[i]];
      i := i - 1;
    }
    if i >= 0 {
      assert t[i] == s[i] == ks[i];
    }
    ScanStop(ks, v, i);
    k := i + 1;
  }

  /**
   * The search loop of nodeInsert on an internal node: from the last key
   * down, skip the keys larger than value; value's place is just after the
   * index where the loop stops.
   */
  method ScanDown(currNode: Node, value: int) returns (i: int)
    requires Shaped(currNode) && StrictlySorted(Keys(currNode)) && value !in Keys(currNode)
    ensures -1 <= i < currNode.size && Slot(Keys(currNode), value, i + 1)
  {
    i := currNode.size - 1;
    while i >= 0 && value < currNode.values[i]
      invariant -1 <= i < currNode.size
      invariant forall j :: i < j < currNode.size ==> value < Keys(currNode)[j]
    {
      i := i - 1;
    }
    if i >= 0 {
      assert Keys(currNode)[i] == currNode.values[i];
    }
    ScanStop(Keys(currNode), value, i);
  }

}
