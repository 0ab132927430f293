/**
 * The sorted key array of a node: where a search key falls among the keys,
 * and inserting a key at that place.
 */
module SortedKeys {
  import opened Nodes

  /**
   * k is the place of v among the keys ks: every key before it is smaller
   * than v and every key from it on is larger (so v is not a key).
   */
  predicate Slot(ks: seq<int>, v: int, k: int)
  {
    0 <= k <= |ks| &&
    (forall j :: 0 <= j < k ==> ks[j] < v) &&
    (forall j :: k <= j < |ks| ==> v < ks[j])
  }

  /** In sorted keys it suffices to compare v with the two neighbours of the place. */
  lemma SlotOf(ks: seq<int>, v: int, k: int)
    requires StrictlySorted(ks) && 0 <= k <= |ks|
    requires k > 0 ==> ks[k - 1] < v
    requires k < |ks| ==> v < ks[k]
    ensures Slot(ks, v, k)
  {
  }

  /** A key between the node's bounds lies between the bounds of the child at its place. */
  lemma SlotBounds(ks: seq<int>, v: int, k: int, lo: Option<int>, hi: Option<int>)
    requires Slot(ks, v, k) && Above(lo, v) && Below(v, hi)
    ensures Above(LoOf(ks, lo, k), v) && Below(v, HiOf(ks, hi, k))
  {
  }

  /** A key with a place is not among the keys. */
  lemma SlotNotKey(ks: seq<int>, v: int, k: int)
    requires Slot(ks, v, k)
    ensures v !in Elems(ks)
  {
    assert forall j :: 0 <= j < |ks| ==> ks[j] != v;
  }

  /** The keys of a node after a value is put into its first free slot at place k. */
  lemma KeysInsertSlot(s: seq<int>, k: nat, v: int, used: nat)
    requires k <= used < |s|
    ensures InsertSlot(s, k, v, used)[..used + 1] == s[..used][..k] + [v] + s[..used][k..]
  {
  }

  /** Inserting a key that lies between its neighbours keeps a key sequence sorted and bounded. */
  lemma InsertKey(ks: seq<int>, pos: nat, m: int, lo: Option<int>, hi: Option<int>)
    requires StrictlySorted(ks) && InBounds(ks, lo, hi) && pos <= |ks|
    requires Above(LoOf(ks, lo, pos), m) && Below(m, HiOf(ks, hi, pos))
    ensures StrictlySorted(ks[..pos] + [m] + ks[pos..])
    ensures InBounds(ks[..pos] + [m] + ks[pos..], lo, hi)
    ensures Elems(ks[..pos] + [m] + ks[pos..]) == Elems(ks) + {m}
  {
    InsertSorted(ks, pos, m, LoOf(ks, lo, pos), HiOf(ks, hi, pos));
    if pos > 0 {
      assert ks[pos - 1] in ks;
    }
    if pos < |ks| {
      assert ks[pos] in ks;
    }
    InsertElems(ks, pos, m);
  }

  lemma InsertSorted(ks: seq<int>, pos: nat, m: int, lo: Option<int>, hi: Option<int>)
    requires StrictlySorted(ks) && pos <= |ks|
    requires Above(LoOf(ks, lo, pos), m) && Below(m, HiOf(ks, hi, pos))
    ensures StrictlySorted(ks[..pos] + [m] + ks[pos..])
  {
    var ks' := ks[..pos] + [m] + ks[pos..];
    forall i, j | 0 <= i < j < |ks'| ensures ks'[i] < ks'[j] {
      if j < pos {
        assert ks'[i] == ks[i] && ks'[j] == ks[j];
      } else if i > pos {
        assert ks'[i] == ks[i - 1] && ks'[j] == ks[j - 1];
      } else if i == pos {
        assert ks'[j] == ks[j - 1];
      } else if j == pos {
        assert ks'[i] == ks[i];
      } else {
        assert ks'[i] == ks[i] && ks'[j] == ks[j - 1];
      }
    }
  }

  /** The elements of a sequence with one element inserted. */
  lemma InsertElems(ks: seq<int>, pos: nat, m: int)
    requires pos <= |ks|
    ensures Elems(ks[..pos] + [m] + ks[pos..]) == Elems(ks) + {m}
  {
  }

  /** The keys below the j-th key of a sorted node are sorted and bounded above by it. */
  lemma KeysBelow(ks: seq<int>, j: nat, lo: Option<int>, hi: Option<int>)
    requires StrictlySorted(ks) && InBounds(ks, lo, hi) && j < |ks|
    ensures StrictlySorted(ks[..j]) && InBounds(ks[..j], lo, Some(ks[j]))
  {
    assert forall i :: 0 <= i < j ==> ks[..j][i] == ks[i];
  }

  /** The keys above the j-th key of a sorted node are sorted and bounded below by it. */
  lemma KeysAbove(ks: seq<int>, j: nat, lo: Option<int>, hi: Option<int>)
    requires StrictlySorted(ks) && InBounds(ks, lo, hi) && j < |ks|
    ensures StrictlySorted(ks[j + 1..]) && InBounds(ks[j + 1..], Some(ks[j]), hi)
  {
    var up := ks[j + 1..];
    assert forall i :: 0 <= i < |up| ==> up[i] == ks[j + 1 + i];
  }

  /**
   * The number of leading keys smaller than v: where the linear scan of a
   * node stops (at a key equal to v, at the first larger key, or at the end).
   */
  function FirstAtLeast(ks: seq<int>, v: int): (r: nat)
    ensures r <= |ks|
    ensures forall j :: 0 <= j < r ==> ks[j] < v
    ensures r < |ks| ==> v <= ks[r]
  {
    if ks == [] || v <= ks[0] then 0 else 1 + FirstAtLeast(ks[1..], v)
  }

  /** The scan stops at the first key that is not smaller than v. */
  lemma FirstAtLeastAt(ks: seq<int>, v: int, i: nat)
    requires i <= |ks| && (forall j :: 0 <= j < i ==> ks[j] < v) && (i < |ks| ==> v <= ks[i])
    ensures FirstAtLeast(ks, v) == i
  {
  }

  /** In sorted keys, where the scan stops is the place of any value that is not a key. */
  lemma ScanSlot(ks: seq<int>, v: int)
    requires StrictlySorted(ks)
    requires !(FirstAtLeast(ks, v) < |ks| && ks[FirstAtLeast(ks, v)] == v)
    ensures Slot(ks, v, FirstAtLeast(ks, v))
  {
  }

  /** Where a downward scan over sorted keys stops, just after it is v's place. */
  lemma ScanStop(ks: seq<int>, v: int, i: int)
    requires -1 <= i < |ks| && StrictlySorted(ks) && v !in ks
    requires i >= 0 ==> ks[i] <= v
    requires forall j :: i < j < |ks| ==> v < ks[j]
    ensures Slot(ks, v, i + 1)
  {
    if i >= 0 {
      assert ks[i] != v;
    }
    SlotOf(ks, v, i + 1);
  }

  /** A value strictly inside the interval of the i-th child lies inside the node's bounds and has place i. */
  lemma GapCovers(ks: seq<int>, lo: Option<int>, hi: Option<int>, i: nat, v: int)
    requires StrictlySorted(ks) && InBounds(ks, lo, hi) && i <= |ks|
    requires Above(LoOf(ks, lo, i), v) && Below(v, HiOf(ks, hi, i))
    ensures Above(lo, v) && Below(v, hi)
    ensures Slot(ks, v, i)
  {
    if i > 0 {
      assert ks[i - 1] in ks;
    }
    if i < |ks| {
      assert ks[i] in ks;
    }
  }

  /** A value has at most one place among sorted keys. */
  lemma SlotUnique(ks: seq<int>, v: int, i: int, j: int)
    requires Slot(ks, v, i) && Slot(ks, v, j)
    ensures i == j
  {
    var t := if i < j then i else j;
    if t < |ks| {
      var key := ks[t];
    }
  }

  /** Distinct children of a node with sorted, bounded keys have distinct lower bounds. */
  lemma LoOfInjective(ks: seq<int>, lo: Option<int>, hi: Option<int>, i: nat, j: nat)
    requires StrictlySorted(ks) && InBounds(ks, lo, hi) && i <= |ks| && j <= |ks|
    requires LoOf(ks, lo, i) == LoOf(ks, lo, j)
    ensures i == j
  {
    if i > 0 {
      assert ks[i - 1] in ks;
    }
    if j > 0 {
      assert ks[j - 1] in ks;
    }
  }

  /**
   * The array s while its entries i + 1..used - 1 are being moved one slot
   * up, from the top down: slot i + 1 still holds its old value, which has
   * already been copied to slot i + 2.
   */
  function Shifting(s: seq<int>, i: int, used: nat): seq<int>
    requires -1 <= i < used < |s|
  {
    s[..i + 2] + s[i + 1..used] + s[used + 1..]
  }

  /** Before any entry has moved the array is unchanged. */
  lemma ShiftStart(s: seq<int>, used: nat)
    requires used < |s|
    ensures Shifting(s, used - 1, used) == s
  {
    assert s == s[..used + 1] + s[used + 1..];
  }

  /** Copying slot i to slot i + 1 moves one more entry up. */
  lemma ShiftStep(s: seq<int>, i: int, used: nat)
    requires 0 <= i < used < |s|
    ensures |Shifting(s, i, used)| == |s|
    ensures Shifting(s, i, used)[i + 1 := s[i]] == Shifting(s, i - 1, used)
  {
  }

  /** Writing v into the freed slot k completes the insertion. */
  lemma ShiftDone(s: seq<int>, k: nat, v: int, used: nat)
    requires k <= used < |s|
    ensures Shifting(s, k - 1, used)[k := v] == InsertSlot(s, k, v, used)
  {
  }
}
