/**
 * The ordered descents of the adaptive radix tree
 * (internal/radix/adaptive/helpers.go): `minimum` and `maximum` follow the
 * smallest or largest occupied byte at every level down to a leaf, and
 * `prefixMismatch` falls back on the minimum leaf for prefix bytes that a
 * node does not store.
 */
module ArtDescent {
  import opened Bytes
  import opened ArtNode
  import opened ArtSearch

  /** An inner node with children has a smallest and a largest occupied byte. */
  lemma HasOccupied<T(0)>(n: Node<T>)
    requires n.WellFormed() && n.kind != Leaf && n.numChildren > 0
    ensures FirstIn(n.Occupied(), 0, 256) < 256
    ensures LastIn(n.Occupied(), 0, 256) >= 0
  {
    var occ := n.Occupied();
    match n.kind
    case Node4 =>
      assert n.keys[0] in occ;
    case Node16 =>
      assert n.keys[0] in occ;
    case Node48 =>
      assert n.UsedKeys() != {};
      var b :| b in n.UsedKeys();
      assert b in occ;
    case Node256 =>
      assert n.UsedSlots() != {};
      var b :| b in n.UsedSlots();
      assert b in occ;
  }

  /** The ends of a strictly ascending byte sequence are the least and greatest bytes it holds. */
  lemma AscendingEnds(ks: seq<byte>, occ: set<int>)
    requires StrictlyAscending(ks) && |ks| > 0
    requires forall b :: b in occ <==> 0 <= b < 256 && b in ks
    ensures FirstIn(occ, 0, 256) == ks[0]
    ensures LastIn(occ, 0, 256) == ks[|ks| - 1]
  {
    var first, last := ks[0], ks[|ks| - 1];
    assert first in occ && last in occ;
    var lo, hi := FirstIn(occ, 0, 256), LastIn(occ, 0, 256);
    assert lo <= first && last <= hi;
    assert lo in occ && hi in occ;
    var i :| 0 <= i < |ks| && ks[i] == lo;
    var j :| 0 <= j < |ks| && ks[j] == hi;
    assert first <= ks[i] && ks[j] <= last;
  }

  /** Node4 and Node16 keep their keys sorted, so the ends of `keys` are the extreme bytes. */
  lemma SortedEnds<T(0)>(n: Node<T>)
    requires n.WellFormed() && (n.kind == Node4 || n.kind == Node16) && n.numChildren > 0
    ensures FirstIn(n.Occupied(), 0, 256) == n.keys[0]
    ensures LastIn(n.Occupied(), 0, 256) == n.keys[n.numChildren - 1]
  {
    var ks := n.keys[..n.numChildren];
    forall b | 0 <= b < 256
      ensures b in n.Occupied() <==> b in ks
    {
      assert n.Lookup(b) != null <==> b in ks;
    }
    AscendingEnds(ks, n.Occupied());
    assert ks[0] == n.keys[0] && ks[|ks| - 1] == n.keys[n.numChildren - 1];
  }

  /** The leaf reached by always following the smallest occupied byte. */
  ghost function MinimumLeaf<T(0)>(n: Node<T>): (l: Node<T>)
    reads n, n.Repr
    requires n.Valid() && n.Populated()
    ensures l.kind == Leaf && l.Valid()
    ensures l == n || l in n.Repr
    decreases n.Repr
  {
    if n.kind == Leaf then n
    else
      HasOccupied(n);
      var b := FirstIn(n.Occupied(), 0, 256);
      var child := n.Lookup(b as byte);
      assert n.OwnsChild(child);
      MinimumLeaf(child)
  }

  /** The leaf reached by always following the largest occupied byte. */
  ghost function MaximumLeaf<T(0)>(n: Node<T>): (l: Node<T>)
    reads n, n.Repr
    requires n.Valid() && n.Populated()
    ensures l.kind == Leaf && l.Valid()
    ensures l == n || l in n.Repr
    decreases n.Repr
  {
    if n.kind == Leaf then n
    else
      HasOccupied(n);
      var b := LastIn(n.Occupied(), 0, 256);
      var child := n.Lookup(b as byte);
      assert n.OwnsChild(child);
      MaximumLeaf(child)
  }

  /** The upward scan of `minimum`: the first entry of `a` that is not `empty`, or `a.Length`. */
  method FirstFilled<X(==)>(a: array<X>, empty: X) returns (idx: nat)
    ensures idx <= a.Length
    ensures forall b :: 0 <= b < idx ==> a[b] == empty
    ensures idx < a.Length ==> a[idx] != empty
  {
    idx := 0;
    while idx < a.Length && a[idx] == empty
      invariant idx <= a.Length
      invariant forall b :: 0 <= b < idx ==> a[b] == empty
    {
      idx := idx + 1;
    }
  }

  /** The downward scan of `maximum`: the last entry of `a` that is not `empty`, or -1. */
  method LastFilled<X(==)>(a: array<X>, empty: X) returns (idx: int)
    ensures -1 <= idx < a.Length
    ensures forall b :: idx < b < a.Length ==> a[b] == empty
    ensures idx >= 0 ==> a[idx] != empty
  {
    idx := a.Length - 1;
    while idx >= 0 && a[idx] == empty
      invariant -1 <= idx < a.Length
      invariant forall b :: idx < b < a.Length ==> a[b] == empty
    {
      idx := idx - 1;
    }
  }

  /** In a Node48 a byte is occupied when its index entry is non-zero; in a Node256 when its slot is non-nil. */
  lemma OccupiedEntries<T(0)>(n: Node<T>)
    requires n.WellFormed() && (n.kind == Node48 || n.kind == Node256)
    ensures n.kind == Node48 ==> forall b :: 0 <= b < 256 ==> (b in n.Occupied() <==> n.keys[b] != 0)
    ensures n.kind == Node256 ==> forall b :: 0 <= b < 256 ==> (b in n.Occupied() <==> n.children[b] != null)
  {
    forall b | 0 <= b < 256
      ensures n.kind == Node48 ==> (n.Lookup(b) != null <==> n.keys[b] != 0)
    {
      assert n.kind == Node48 ==> n.keys[..][b] == n.keys[b];
    }
  }

  /**
   * The slot of `children` holding the child under the smallest occupied
   * byte, as each branch of `minimum` finds it (Node4/Node16: slot 0;
   * Node48: the index entry of the first byte whose entry is non-zero;
   * Node256: the first non-nil slot).
   */
  method FirstChildSlot<T(0)>(n: Node<T>) returns (slot: nat)
    requires n.WellFormed() && n.kind != Leaf && n.numChildren > 0
    ensures FirstIn(n.Occupied(), 0, 256) < 256
    ensures slot < n.children.Length
    ensures n.children[slot] == n.Lookup(FirstIn(n.Occupied(), 0, 256) as byte) != null
  {
    HasOccupied(n);
    ghost var first := FirstIn(n.Occupied(), 0, 256);
    if n.kind == Node4 || n.kind == Node16 {
      SortedEnds(n);
      return 0;
    }
    OccupiedEntries(n);
    if n.kind == Node48 {
      var idx := FirstFilled(n.keys, 0);
      assert n.keys[first] != 0;
      assert idx in n.Occupied();
      assert idx == first;
      assert n.keys[..][idx] == n.keys[idx];
      return n.keys[idx] - 1;
    } else {
      var idx := FirstFilled(n.children, null);
      assert n.children[first] != null;
      assert idx in n.Occupied();
      assert idx == first;
      return idx;
    }
  }

  /**
   * The slot of `children` holding the child under the largest occupied
   * byte (Node4/Node16: slot numChildren - 1; Node48: through the index
   * entry of the last byte whose entry is non-zero; Node256: the last
   * non-nil slot).
   */
  method LastChildSlot<T(0)>(n: Node<T>) returns (slot: nat)
    requires n.WellFormed() && n.kind != Leaf && n.numChildren > 0
    ensures LastIn(n.Occupied(), 0, 256) >= 0
    ensures slot < n.children.Length
    ensures n.children[slot] == n.Lookup(LastIn(n.Occupied(), 0, 256) as byte) != null
  {
    HasOccupied(n);
    ghost var last := LastIn(n.Occupied(), 0, 256);
    if n.kind == Node4 || n.kind == Node16 {
      SortedEnds(n);
      return n.numChildren - 1;
    }
    OccupiedEntries(n);
    if n.kind == Node48 {
      var idx := LastFilled(n.keys, 0);
      assert n.keys[last] != 0;
      assert idx in n.Occupied();
      assert idx == last;
      assert n.keys[..][idx] == n.keys[idx];
      return n.keys[idx] - 1;
    } else {
      var idx := LastFilled(n.children, null);
      assert n.children[last] != null;
      assert idx in n.Occupied();
      assert idx == last;
      return idx;
    }
  }

  /** The child under the smallest occupied byte is owned by `n` and leads to the same minimum leaf. */
  lemma MinimumStep<T(0)>(n: Node<T>, slot: nat)
    requires n.Valid() && n.Populated() && n.kind != Leaf
    requires FirstIn(n.Occupied(), 0, 256) < 256 && slot < n.children.Length
    requires n.children[slot] == n.Lookup(FirstIn(n.Occupied(), 0, 256) as byte) != null
    ensures n.children[slot].Valid() && n.children[slot].Populated() && n.children[slot].Repr < n.Repr
    ensures MinimumLeaf(n) == MinimumLeaf(n.children[slot])
  {
    assert n.OwnsChild(n.Lookup(FirstIn(n.Occupied(), 0, 256) as byte));
  }

  /**
   * The child under the largest occupied byte is owned by `n`, leads to the
   * same maximum leaf and, unless `n` is a Node48, meets a Node48 on the
   * descent exactly when `n`'s descent does.
   */
  lemma MaximumStep<T(0)>(n: Node<T>, slot: nat)
    requires n.Valid() && n.Populated() && n.kind != Leaf
    requires LastIn(n.Occupied(), 0, 256) >= 0 && slot < n.children.Length
    requires n.children[slot] == n.Lookup(LastIn(n.Occupied(), 0, 256) as byte)
    ensures n.children[slot] != null
    ensures n.children[slot].Valid() && n.children[slot].Populated() && n.children[slot].Repr < n.Repr
    ensures MaximumLeaf(n) == MaximumLeaf(n.children[slot])
    ensures n.kind != Node48 ==> MaxPathMeetsNode48(n) == MaxPathMeetsNode48(n.children[slot])
  {
    var last := LastIn(n.Occupied(), 0, 256);
    assert last in n.Occupied();
    assert n.OwnsChild(n.Lookup(last as byte));
  }

  /**
   * `minimum`: nil for a nil reference, the node itself for a leaf, and
   * otherwise the minimum of the child under the smallest occupied byte.
   */
  method Minimum<T(0)>(n: Node?<T>) returns (l: Node?<T>)
    requires n != null ==> n.Valid() && n.Populated()
    ensures n == null ==> l == null
    ensures n != null ==> l == MinimumLeaf(n)
    decreases if n == null then {} else n.Repr
  {
    if n == null {
      return null;
    }
    if n.kind == Leaf {
      return n;
    }
    var slot := FirstChildSlot(n);
    MinimumStep(n, slot);
    l := Minimum(n.children[slot]);
  }

  /**
   * `maximum` with its Node48 branch going through the byte index, as the
   * Node48 branch of `minimum` does: nil for nil, the leaf itself for a
   * leaf, otherwise the maximum of the child under the largest occupied
   * byte.
   */
  method Maximum<T(0)>(n: Node?<T>) returns (l: Node?<T>)
    requires n != null ==> n.Valid() && n.Populated()
    ensures n == null ==> l == null
    ensures n != null ==> l == MaximumLeaf(n)
    decreases if n == null then {} else n.Repr
  {
    if n == null {
      return null;
    }
    if n.kind == Leaf {
      return n;
    }
    var slot := LastChildSlot(n);
    MaximumStep(n, slot);
    l := Maximum(n.children[slot]);
  }

  /**
   * `prefixMismatch`: like `checkPrefix` over the stored prefix bytes; when
   * the logical prefix is longer than what is stored, the comparison goes on
   * against the key of the node's minimum leaf, up to the shorter of that key
   * and `keyLen`.
   */
  method PrefixMismatch<T(0)>(n: Node<T>, key: seq<byte>, keyLen: int, depth: int) returns (r: int)
    requires n.partial.Length == MaxPrefixLen
    requires 0 <= depth && keyLen <= |key|
    requires n.partialLen > MaxPrefixLen ==> n.Valid() && n.Populated()
    ensures var bound := Clamp(Min(Min(MaxPrefixLen, n.partialLen), keyLen - depth));
      && 0 <= r
      && (forall j :: 0 <= j < r && j < bound ==> n.partial[j] == key[depth + j])
      && (r < bound ==> n.partial[r] != key[depth + r])
      && (n.partialLen <= MaxPrefixLen ==> r <= bound)
    ensures n.partialLen > MaxPrefixLen ==>
      var bound := Clamp(Min(MaxPrefixLen, keyLen - depth));
      var leaf := MinimumLeaf(n);
      var leafBound := Min(|leaf.key|, keyLen) - depth;
      && r <= Max(bound, leafBound)
      && (forall i :: depth + bound <= i < depth + r ==> leaf.key[i] == key[i])
      && (bound <= r < leafBound ==> leaf.key[depth + r] != key[depth + r])
  {
    var maxCmp := Min(Min(MaxPrefixLen, n.partialLen), keyLen - depth);
    var idx := CheckPrefix(n, key, keyLen, depth);
    if idx < maxCmp {
      return idx;
    }
    if n.partialLen > MaxPrefixLen {
      // The stored bytes all match; continue against a leaf below `n`.
      var l := Minimum(n);
      ghost var bound := idx;
      maxCmp := Min(|l.key|, keyLen) - depth;
      while idx < maxCmp
        invariant bound <= idx <= Max(bound, maxCmp)
        invariant forall i :: depth + bound <= i < depth + idx ==> l.key[i] == key[i]
      {
        if l.key[idx + depth] != key[depth + idx] {
          return idx;
        }
        idx := idx + 1;
      }
    }
    return idx;
  }

  /** What the descent of `maximum` as written ends in: a leaf (or nil), or an index-out-of-range panic. */
  datatype Descent<T(0)> = Reached(leaf: Node?<T>) | IndexOutOfRange

  /** The outcome of scanning an array downwards with Go's bounds check on each probe. */
  datatype Probe = OutOfRange | Stop(idx: int)

  /**
   * The downward scan of `maximum`'s Node48 and Node256 branches: from
   * `start`, step down while the slot is nil; the first probe beyond the
   * array's length panics.
   */
  method ScanDown<T(0)>(children: array<Node?<T>>, start: int) returns (p: Probe)
    requires start >= -1
    ensures 0 <= start && children.Length <= start ==> p == OutOfRange
    ensures start < children.Length ==>
      && p.Stop? && -1 <= p.idx <= start
      && (p.idx >= 0 ==> children[p.idx] != null)
      && forall j :: p.idx < j <= start ==> children[j] == null
  {
    var idx := start;
    while idx >= 0
      invariant -1 <= idx <= start
      invariant children.Length <= start ==> idx == start
      invariant forall j :: idx < j <= start ==> children[j] == null
    {
      if idx >= children.Length {
        return OutOfRange;
      }
      if children[idx] != null {
        return Stop(idx);
      }
      idx := idx - 1;
    }
    return Stop(idx);
  }

  /** The descent that follows the largest byte meets a Node48 somewhere. */
  ghost predicate MaxPathMeetsNode48<T(0)>(n: Node<T>)
    reads n, n.Repr
    requires n.Valid() && n.Populated()
    decreases n.Repr
  {
    if n.kind == Leaf then false
    else if n.kind == Node48 then true
    else
      HasOccupied(n);
      var child := n.Lookup(LastIn(n.Occupied(), 0, 256) as byte);
      assert n.OwnsChild(child);
      MaxPathMeetsNode48(child)
  }

  /**
   * The child slot `maximum` as written descends into: slot numChildren - 1
   * for Node4/Node16, and for Node48 and Node256 the result of scanning
   * `children` down from index 255 (`None` when that scan panics).
   */
  method LastChildSlotAsWritten<T(0)>(n: Node<T>) returns (slot: Option<nat>)
    requires n.WellFormed() && n.kind != Leaf && n.numChildren > 0
    ensures LastIn(n.Occupied(), 0, 256) >= 0
    ensures slot.None? <==> n.kind == Node48
    ensures slot.Some? ==>
      slot.value < n.children.Length
      && n.children[slot.value] == n.Lookup(LastIn(n.Occupied(), 0, 256) as byte)
  {
    if n.kind == Node4 || n.kind == Node16 {
      SortedEnds(n);
      return Some(n.numChildren - 1);
    }
    var probe := ScanDown(n.children, 255);
    if probe.OutOfRange? {
      HasOccupied(n);
      return None;
    }
    // Only a Node256 has a slot 255 to probe.
    LastNonNil(n, probe.idx);
    return Some(probe.idx);
  }

  /** In a Node256, the last non-nil slot is the largest occupied byte. */
  lemma LastNonNil<T(0)>(n: Node<T>, idx: int)
    requires n.WellFormed() && n.kind == Node256 && n.numChildren > 0
    requires -1 <= idx <= 255 && (idx >= 0 ==> n.children[idx] != null)
    requires forall j :: idx < j <= 255 ==> n.children[j] == null
    ensures 0 <= idx == LastIn(n.Occupied(), 0, 256)
    ensures n.children[idx] == n.Lookup(idx as byte)
  {
    HasOccupied(n);
    var last := LastIn(n.Occupied(), 0, 256);
    assert n.Lookup(last as byte) == n.children[last];
    assert idx >= 0;
    assert n.Lookup(idx as byte) == n.children[idx];
    assert idx in n.Occupied();
  }

  /**
   * `maximum` as written: Node48 and Node256 both scan `children` down from
   * index 255, but a Node48 has only 48 child slots, so any descent that
   * reaches a Node48 ends in an index-out-of-range panic. Elsewhere it is
   * `Maximum`.
   */
  method MaximumAsWritten<T(0)>(n: Node?<T>) returns (r: Descent<T>)
    requires n != null ==> n.Valid() && n.Populated()
    ensures n == null ==> r == Reached(null)
    ensures n != null && n.kind == Node48 ==> r == IndexOutOfRange
    ensures n != null && MaxPathMeetsNode48(n) ==> r == IndexOutOfRange
    ensures n != null && !MaxPathMeetsNode48(n) ==> r == Reached(MaximumLeaf(n))
    decreases if n == null then {} else n.Repr
  {
    if n == null {
      return Reached(null);
    }
    if n.kind == Leaf {
      return Reached(n);
    }
    var slot := LastChildSlotAsWritten(n);
    if slot.None? {
      return IndexOutOfRange;
    }
    MaximumStep(n, slot.value);
    r := MaximumAsWritten(n.children[slot.value]);
  }
}
