# B-tree index of integer values (Btree.java)

This project models `Btree.java`, an in-memory B-tree that holds a set of `int` values.
The nodes live in an array `nodes` and refer to one another by index ("handle").
The array starts with room for one node and doubles whenever it is full.
A node has at most `NODESIZE = 5` keys. A leaf has a key array only; an internal node also
has an array of `NODESIZE + 1` child handles.

The operations are these:
- `Lookup` descends one path from the root, scanning each node's keys from the left.
- `Insert` is a no-op for a value already held. Otherwise it splits full nodes on the way
  down ("preemptive splitting"), so the leaf it reaches always has room.
- A full root first gets a new, empty root above it, and is then split under it. This is the
  only way the tree grows in height.
- `nodeSplit` moves the keys above the middle one, and for an internal node the children above
  it, into a fresh sibling. The child keeps `NODESIZE / 2` keys, and the middle key
  `values[2]` moves up into the parent.

The model keeps the Java structure. The class `BtreeClass.Btree` has the Java fields: the
`nodes` array, `cntNodes`, `root` and `cntValues`. Each Java method is a Dafny method with
the same branches and loops. Loops that change one node's arrays are module-level methods
on node values (`CopyUpperHalf`, `MakeRoom`, `ShiftUp`, `LeafPut`, `ShiftAbove`,
`ScanDown`), and the updated node is written back into the array (`Put`).

The class carries ghost state:
- `arena`, the sequence of nodes in use, equal slot by slot to `nodes[..cntNodes]`;
- `meta`, per handle: the height of its subtree, its parent, and the open interval its keys
  lie in;
- `height`, the height of the tree.

The invariant `Forest.Inv` is stated node by node:
- every node has strictly increasing keys inside its interval;
- a node is a leaf exactly at height 0;
- each child sits one level lower, names the node as its parent, and has the interval between
  the node's neighbouring keys;
- every node but the root is a child of its parent.

From this it follows that the one-path search is complete (`Searching.SearchCorrect`) and that
all leaves lie at the same depth (`Forest.LeafDepth`). Each arena update is a function:
- `Splitting.SplitChild` for the split;
- `Inserting.LeafWith` for a leaf insert;
- `Inserting.Grown` for the new root.

Each update has a lemma saying it keeps `Inv` and what it does to the set of stored keys.
The methods are proved against those functions.

The code splits full nodes on the way down and moves the middle key up rather than copying
it. Inserting 10, 20, 5, 6, 12 and then 30 therefore gives a root with key 10 over the leaves
{5, 6} and {12, 20, 30}.

Node storage: `isLeaf` tests for a missing children array, and the datatype `Nodes.Node` has
no children field in its `Leaf` case. So "leaves have no children" holds by construction.

## Model

| member | source | states |
|---|---|---|
| BtreeClass.Btree.constructor | Btree.java:34-37 | the new tree is valid and holds no value; its root is a fresh leaf at handle 0, the only node in use |
| Nodes.IsLeaf | Btree.java:225-227 | a node is a leaf exactly when it has no children array (the `Leaf` case) |
| BtreeClass.Btree.Lookup | Btree.java:45-47 | answers true exactly when the value is held by the tree |
| BtreeClass.Btree.Insert | Btree.java:53-73 | the tree stays a valid B-tree and afterwards holds the old values plus value; a value already held leaves the object and its node array unchanged; an absent value raises cntValues by one; the height grows by one exactly when an absent value meets a full root; the node array is the old one or a fresh one, so a caller can go on inserting |
| BtreeClass.Btree.InsertAbsent | Btree.java:56-72 | for an absent value: the tree stays valid, gains exactly value, cntValues grows by one, and the height grows exactly when the root was full; the node array is the old one or a fresh one |
| BtreeClass.Btree.SplitRoot | Btree.java:58-66 | the new root takes the next free handle and becomes root; the tree is one level higher and still a B-tree with the same values; the new root holds exactly the old root's middle key, over the old root and its new sibling |
| BtreeClass.Btree.CntValues | Btree.java:110-112 | the count equals the number of distinct values held |
| BtreeClass.Btree.NodeLookup | Btree.java:121-136 | the loop and recursion compute the one-path search `Searching.Search` from the given node |
| BtreeClass.Btree.NodeInsert | Btree.java:142-171 | started at a node with room whose interval holds value, which the tree does not hold, the tree stays a B-tree and gains exactly value |
| BtreeClass.Btree.LeafInsert | Btree.java:148-154 | writing value into a leaf with room and whose interval holds it keeps the B-tree invariant and adds exactly value |
| BtreeClass.Btree.ChildToDescend | Btree.java:160-166 | the child at value's place is left alone when it has room; a full one is split, and the place moves right when value is above the promoted key |
| BtreeClass.Btree.NodeSplit | Btree.java:177-216 | the node array afterwards holds exactly the arena `SplitChild` describes: new sibling appended, child cut to its lower half, parent extended |
| BtreeClass.Btree.Put | Btree.java:150-215 | writes an updated node back into its array slot, leaving every other slot as it was; used for the leaf write (150-154), the three nodes of a split (192-215) and the new root's first child (65) |
| BtreeClass.Btree.InitNode | Btree.java:233-241 | returns the old cntNodes, after which cntNodes is one higher and the new slot holds an empty internal node |
| BtreeClass.Btree.CreateLeaf | Btree.java:247-254 | returns the old cntNodes, after which cntNodes is one higher and the new slot holds an empty leaf |
| BtreeClass.Btree.CheckSize | Btree.java:259-265 | afterwards there is a free slot; a full array is replaced by a fresh one of twice the length holding the same nodes, and an array with room is kept |
| BtreeClass.CopyUpperHalf | Btree.java:192-201 | the fresh node receives exactly the keys above the middle one of the full child and, for an internal child, the children above it (`UpperHalf`) |
| BtreeClass.MakeRoom | Btree.java:205-215 | the parent gains the promoted key at position and the new handle at position + 1, later entries moved up and size + 1 (`Promoted`) |
| BtreeClass.ShiftUp | Btree.java:206-211 | a top-down shifting loop moves the used entries from `from` on one slot up and leaves the others |
| BtreeClass.LeafPut | Btree.java:148-154 | the leaf's keys larger than value move up one slot and value lands at its sorted place k, size + 1 |
| BtreeClass.ShiftAbove | Btree.java:149-152 | the loop stops exactly at value's place among the sorted keys, having moved every larger key one slot up |
| BtreeClass.ScanDown | Btree.java:157-159 | the downward scan stops just before value's place among the node's sorted keys |
| SortedKeys.SlotOf | Btree.java:149-159 | in sorted keys, value's place is fixed by comparing with its two neighbours only |
| SortedKeys.SlotBounds | Btree.java:160-169 | a value in a node's interval at place k lies in the interval of child k |
| SortedKeys.SlotNotKey | Btree.java:155-159 | a value that has a place among the keys is not one of them |
| SortedKeys.KeysInsertSlot | Btree.java:149-154 | after the shift and the write, the used keys are the old ones with value inserted at its place |
| SortedKeys.InsertKey | Btree.java:153-154 | inserting a key between its neighbours keeps the node's keys strictly sorted and inside its interval, and adds exactly that key |
| SortedKeys.InsertElems | Btree.java:153-154 | inserting a key into a key sequence adds exactly that key to its set of elements |
| SortedKeys.FirstAtLeast | Btree.java:124-131 | where the left-to-right scan of nodeLookup stops: every key before it is smaller, and the key there is not |
| SortedKeys.FirstAtLeastAt | Btree.java:124-131 | an index with smaller keys before it and a key at least value at it is where the scan stops |
| SortedKeys.ScanSlot | Btree.java:132-135 | when the scan finds no equal key, it stops at value's place, so the child it descends to is the right one |
| SortedKeys.ScanStop | Btree.java:149-159 | a downward scan over sorted keys that stops at a key not above value has found value's place just after it |
| SortedKeys.GapCovers | Btree.java:132-135 | a value in the interval of child i lies in the node's interval and has place i among its keys |
| SortedKeys.SlotUnique | Btree.java:132-135 | a value has at most one place among sorted keys |
| SortedKeys.ShiftStep | Btree.java:150 | one copy of slot i to slot i + 1 advances the shifting loop by one entry |
| SortedKeys.ShiftDone | Btree.java:153 | writing value into the freed slot after the shifting loop gives the inserted array |
| Forest.ParentOf | Btree.java:160-169 | a node other than the root is the child, at some place, of the node its bookkeeping names as parent, one level higher |
| Forest.ParentCovers | Btree.java:160-169 | a node's interval lies inside its parent's and avoids the parent's keys |
| Forest.Unique | Btree.java:121-136 | at each height at most one node's interval holds a given value, so the search path for a value is unique |
| Forest.KeysDisjoint | Btree.java:53-55 | no value is a key of two different nodes: since Insert returns early for a value already held, every value is stored once |
| Forest.NoneAbove | Btree.java:121-136 | a value in the interval of a node is not a key of any node higher up |
| Forest.StoredAt | Btree.java:121-136 | a value in the interval of a node h that a different node holds is held below h |
| Forest.Descend | Btree.java:134-135 | the child at a value's place in an internal node covering it is in use, one level lower, and covers the value |
| Forest.PathHeight | Btree.java:53-73 | a node reached from the root in d steps is at height H - d |
| Forest.LeafDepth | Btree.java:53-73 | every path from the root reaches a leaf after exactly H steps: all leaves lie at the same depth |
| Searching.Search | Btree.java:121-136 | nodeLookup as a function of the arena: scan the keys from the left, answer true at an equal key, false at a leaf, else descend to the child where the scan stopped |
| Searching.SearchCorrect | Btree.java:121-136 | started at a node whose interval holds value, the one-path search answers true exactly when value is stored in the tree |
| Splitting.UpperHalf | Btree.java:190-201 | the sibling has the child's kind, the keys above the middle one and, if internal, the children above it |
| Splitting.Promoted | Btree.java:205-215 | the parent's keys gain the middle key at position and its children the new handle at position + 1, size + 1 |
| Splitting.SplitChild | Btree.java:177-216 | after the split the child keeps its first NODESIZE/2 keys and children, the sibling gets the keys above the middle and the children above it, the parent gains the middle key and the sibling right after the child, and no other node changes |
| Splitting.SplitMeta | Btree.java:177-216 | the bookkeeping after the split: the sibling sits at the child's height under the parent, above the promoted key |
| Splitting.SplitInv | Btree.java:177-216 | splitting a full child of a node with room keeps the arena a B-tree of the same height and root |
| Splitting.SplitStored | Btree.java:177-216 | the split moves keys between nodes but neither loses nor adds any |
| Splitting.SplitKeyFrom | Btree.java:192-215 | every key after the split was a key before it |
| Splitting.SplitKeyTo | Btree.java:192-215 | every key before the split is a key after it, the middle one now in the parent |
| Splitting.SplitDescend | Btree.java:163-166 | after the split, comparing value with the promoted key selects the half whose interval holds value, and that half has room |
| Inserting.LeafWith | Btree.java:148-154 | the leaf after the insert holds its old keys with value at place k, one more in size |
| Inserting.LeafInsertInv | Btree.java:148-154 | writing a value into a leaf with room, at its place and within the leaf's interval, keeps the arena a B-tree |
| Inserting.LeafInsertStored | Btree.java:148-154 | the leaf insert adds exactly value to the stored keys |
| Inserting.NewRoot | Btree.java:61-65 | the new root is an empty internal node whose only child is the old root |
| Inserting.Grown | Btree.java:61-65 | the arena after the new root is appended keeps every old node |
| Inserting.GrowInv | Btree.java:58-65 | putting an unbounded new root above the old root gives a B-tree one level higher with the same keys, ready to split a full old root |
| Inserting.RootSplitShape | Btree.java:58-66 | after the root split the new root has exactly one key, the old root's middle key, and two children, the old root and its new sibling |
| Inserting.GrowSplit | Btree.java:58-66 | root growth followed by the split yields a B-tree one level higher with the same keys, rooted at the new node |
| Inserting.CanDescend | Btree.java:160-161 | the child at value's place of an internal node with room is a distinct node in use |
| Inserting.DescendStep | Btree.java:160-169 | one descent step keeps the B-tree and its keys, and reaches a child one level lower whose interval holds value and that has room |

## Left out

- Display (Btree.java:79-104) is left out: it only prints.
- Java `int` overflow is not modelled: the values are unbounded integers. Keys are only
  compared, so that changes nothing below 2^31. `cntValues`, `cntNodes` and the doubling
  `cntNodes << 1` would wrap only after about 2^30 nodes or 2^31 values.
- Java `Node` objects are shared references, and nodeSplit and nodeInsert change them in place.
  The model holds node values, and each method writes the changed node back into `nodes`
  (`BtreeClass.Btree.Put`). There is no aliasing between array slots. Every Java read through
  an earlier reference (such as `currNode.values[i+1]` after nodeSplit) is modelled as a
  re-read of `nodes[pointer]`, which holds the same node.
- Unused slots of the node array, null in Java, hold empty leaves in the model. The Java
  method never reads them.
- The Java methods run their per-node loops in one body. The model splits that work into
  helper methods with their own contracts, keeping the loops and the order of the writes:
  - InsertAbsent and SplitRoot split Insert;
  - LeafInsert, ChildToDescend, LeafPut, ShiftAbove and ScanDown split nodeInsert;
  - CopyUpperHalf, MakeRoom and ShiftUp split nodeSplit.
- NODESIZE is fixed at 5. For an even NODESIZE, nodeSplit's bounds do not add up:
  - the child keeps `NODESIZE / 2` keys while `values[halfSize-1]` moves up;
  - only `halfSize - 1` keys are copied to the sibling.
  With NODESIZE = 4 the promoted key would stay in the child and the last key would be lost.
  Only the odd size the program uses is modelled.
- The occupancy rule `d <= size <= 2d` noted in the Node record is not part of the invariant;
  only `size <= NODESIZE` is. The lower bound does hold for every node but the root: a split
  leaves two keys in each half, and keys are never removed. It is not proved here.
- Amortised cost of the array doubling, garbage collection and object identity are left out.
