/**
 * Read-only node operations of the adaptive radix tree
 * (internal/radix/adaptive/helpers.go): child lookup per node kind and the
 * mismatch-index computations used while descending.
 */
module ArtSearch {
  import opened Bytes
  import opened ArtNode

  function Clamp(x: int): nat {
    if x < 0 then 0 else x
  }

  /** The lowest set position of a non-empty bit set (`bits.TrailingZeros`). */
  method TrailingZeros(bitfield: set<int>, width: nat) returns (idx: nat)
    requires bitfield != {}
    requires forall i :: i in bitfield ==> 0 <= i < width
    ensures idx in bitfield && forall i :: i in bitfield ==> idx <= i
  {
    ghost var lowest := FirstIn(bitfield, 0, width);
    assert exists e :: e in bitfield;
    assert lowest < width;
    idx := 0;
    while idx !in bitfield
      invariant idx <= lowest < width
      invariant forall i :: 0 <= i < idx ==> i !in bitfield
      decreases lowest - idx
    {
      idx := idx + 1;
    }
  }

  /**
   * `findChild`: the slot of `n.children` that holds the child for `c`, if
   * any. Node4 scans its first numChildren keys, Node16 compares all sixteen
   * keys into a bit set masked to numChildren, Node48 goes through its byte
   * index, Node256 indexes directly, and a leaf has no children.
   */
  method FindChild<T(0)>(n: Node<T>, c: byte) returns (slot: Option<nat>)
    requires n.WellFormed()
    ensures slot.Some? <==> n.Lookup(c) != null
    ensures slot.Some? ==> slot.value < n.children.Length && n.children[slot.value] == n.Lookup(c)
    ensures slot.Some? && (n.kind == Node4 || n.kind == Node16) ==>
      slot.value < n.numChildren && n.keys[slot.value] == c
  {
    match n.kind
    case Leaf =>
      return None;
    case Node4 =>
      var i := 0;
      while i < n.numChildren
        invariant 0 <= i <= n.numChildren
        invariant c !in n.keys[..i]
      {
        if n.keys[i] == c {
          return Some(i);
        }
        i := i + 1;
      }
      assert n.keys[..n.numChildren] == n.keys[..i];
      return None;
    case Node16 =>
      // The bit set of positions whose key equals c, over all 16 keys.
      var bitfield: set<int> := {};
      var i := 0;
      while i < 16
        invariant 0 <= i <= 16
        invariant bitfield == set j | 0 <= j < i && n.keys[j] == c
      {
        if n.keys[i] == c {
          bitfield := bitfield + {i};
        }
        i := i + 1;
      }
      // Mask out the positions beyond numChildren.
      bitfield := set j | j in bitfield && j < n.numChildren;
      if bitfield != {} {
        var idx := TrailingZeros(bitfield, 16);
        return Some(idx);
      }
      assert c !in n.keys[..n.numChildren] by {
        forall j | 0 <= j < n.numChildren ensures n.keys[j] != c {
          assert j !in bitfield;
        }
      }
      return None;
    case Node48 =>
      var i := n.keys[c];
      if i != 0 {
        return Some(i - 1);
      }
      return None;
    case Node256 =>
      if n.children[c] != null {
        return Some(c);
      }
      return None;
  }

  /**
   * `checkPrefix`: the number of leading bytes of the node's stored prefix
   * that match `key` from `depth`, comparing at most min(partialLen,
   * MaxPrefixLen, keyLen - depth) bytes.
   */
  method CheckPrefix<T(0)>(n: Node<T>, key: seq<byte>, keyLen: int, depth: int) returns (r: int)
    requires n.partial.Length == MaxPrefixLen
    requires 0 <= depth && keyLen <= |key|
    ensures var bound := Clamp(Min(Min(n.partialLen, MaxPrefixLen), keyLen - depth));
      && 0 <= r <= bound
      && (forall j :: 0 <= j < r ==> n.partial[j] == key[depth + j])
      && (r < bound ==> n.partial[r] != key[depth + r])
  {
    var maxCmp := Min(Min(n.partialLen, MaxPrefixLen), keyLen - depth);
    var idx := 0;
    while idx < maxCmp
      invariant 0 <= idx <= Clamp(maxCmp)
      invariant forall j :: 0 <= j < idx ==> n.partial[j] == key[depth + j]
    {
      if n.partial[idx] != key[depth + idx] {
        return idx;
      }
      idx := idx + 1;
    }
    return idx;
  }

  /**
   * `longestCommonPrefix`: the number of bytes from `depth` on that the keys
   * of two leaves share, comparing up to the shorter key.
   */
  method LongestCommonPrefix<T(0)>(l1: Node<T>, l2: Node<T>, depth: int) returns (r: int)
    requires l1.kind == Leaf && l2.kind == Leaf
    requires 0 <= depth
    ensures var bound := Clamp(Min(|l1.key|, |l2.key|) - depth);
      && 0 <= r <= bound
      && (forall i :: depth <= i < depth + r ==> l1.key[i] == l2.key[i])
      && (r < bound ==> l1.key[depth + r] != l2.key[depth + r])
  {
    var maxCmp := |l2.key| - depth;
    if |l1.key| < |l2.key| {
      maxCmp := |l1.key| - depth;
    }
    var idx := 0;
    while idx < maxCmp
      invariant 0 <= idx <= Clamp(maxCmp)
      invariant forall i :: depth <= i < depth + idx ==> l1.key[i] == l2.key[i]
    {
      if l1.key[depth + idx] != l2.key[depth + idx] {
        return idx;
      }
      idx := idx + 1;
    }
    return idx;
  }
}
