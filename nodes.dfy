/**
 * The node record of the B-tree (Btree.java, class Node) and the functions
 * that read a node's used keys and children.
 */
module Nodes {

  /** Maximum number of keys held by one node. */
  const NODESIZE: nat := 5

  /** The upper half of a full node starts at HALF; the key at HALF - 1 moves up. */
  const HALF: nat := (NODESIZE + 1) / 2

  datatype Option<T> = None | Some(value: T)

  /**
   * A node of the arena. `values` and `children` are the node's fixed-size
   * arrays (NODESIZE and NODESIZE + 1 slots): only values[..size] and
   * children[..size + 1] are meaningful, the other slots hold stale data.
   * A leaf has no children array at all.
   */
  datatype Node =
    | Leaf(values: seq<int>, size: nat)
    | Internal(values: seq<int>, children: seq<int>, size: nat)

  predicate IsLeaf(n: Node)
  {
    n.Leaf?
  }

  /** A freshly created leaf: zeroed key array, no keys. */
  function EmptyLeaf(): Node
  {
    Leaf(seq(NODESIZE, _ => 0), 0)
  }

  /** A freshly created internal node: zeroed key and child arrays, no keys. */
  function EmptyInternal(): Node
  {
    Internal(seq(NODESIZE, _ => 0), seq(NODESIZE + 1, _ => 0), 0)
  }

  /** The array lengths and the occupancy bound every node keeps. */
  predicate Shaped(n: Node)
  {
    |n.values| == NODESIZE && n.size <= NODESIZE &&
    (n.Internal? ==> |n.children| == NODESIZE + 1)
  }

  /** The keys a node currently holds. */
  function Keys(n: Node): seq<int>
    requires Shaped(n)
  {
    n.values[..n.size]
  }

  /** The child handles an internal node currently uses. */
  function Kids(n: Node): seq<int>
    requires Shaped(n) && n.Internal?
  {
    n.children[..n.size + 1]
  }

  function Elems(s: seq<int>): set<int>
  {
    set k | k in s
  }

  predicate StrictlySorted(s: seq<int>)
  {
    forall i, j :: 0 <= i < j < |s| ==> s[i] < s[j]
  }

  /** `lo` is an exclusive lower bound (None: unbounded). */
  predicate Above(lo: Option<int>, k: int)
  {
    lo.None? || lo.value < k
  }

  /** `hi` is an exclusive upper bound (None: unbounded). */
  predicate Below(k: int, hi: Option<int>)
  {
    hi.None? || k < hi.value
  }

  predicate InBounds(ks: seq<int>, lo: Option<int>, hi: Option<int>)
  {
    forall k :: k in ks ==> Above(lo, k) && Below(k, hi)
  }

  /** Lower bound of the i-th child of a node with keys ks and lower bound lo. */
  function LoOf(ks: seq<int>, lo: Option<int>, i: nat): Option<int>
    requires i <= |ks|
  {
    if i == 0 then lo else Some(ks[i - 1])
  }

  /** Upper bound of the i-th child of a node with keys ks and upper bound hi. */
  function HiOf(ks: seq<int>, hi: Option<int>, i: nat): Option<int>
    requires i <= |ks|
  {
    if i == |ks| then hi else Some(ks[i])
  }

  /**
   * The array s with v written at k after the entries k..used - 1 have been
   * moved one slot up (the slot `used` is overwritten, the rest kept).
   */
  function InsertSlot(s: seq<int>, k: nat, v: int, used: nat): (r: seq<int>)
    requires k <= used < |s|
    ensures |r| == |s|
  {
    s[..k] + [v] + s[k..used] + s[used + 1..]
  }
}
