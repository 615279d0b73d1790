/**
 * Child insertion in the adaptive radix tree
 * (internal/radix/adaptive/helpers.go): `addChild` and its four variants,
 * with promotion Node4 -> Node16 -> Node48 -> Node256 when a node is full.
 * The Go `ref` slot becomes the returned node: the node itself below
 * capacity, a fresh node of the next kind on promotion.
 */
module ArtGrow {
  import opened Bytes
  import opened ArtNode
  import opened ArtSearch

  /** The kind a full node is promoted to. */
  function Grown(k: Kind): Kind {
    match k
    case Node4 => Node16
    case Node16 => Node48
    case Node48 => Node256
    case _ => k
  }

  /** Inserting `c` with `x` at position `idx` adds exactly the mapping c -> x. */
  lemma SeqLookupInsert<T(0)>(ks: seq<byte>, cs: seq<Node?<T>>, idx: nat, c: byte, x: Node?<T>, b: byte)
    requires |ks| == |cs| && idx <= |ks| && c !in ks
    ensures SeqLookup(ks[..idx] + [c] + ks[idx..], cs[..idx] + [x] + cs[idx..], b)
         == if b == c then x else SeqLookup(ks, cs, b)
  {
    var ks2, cs2 := ks[..idx] + [c] + ks[idx..], cs[..idx] + [x] + cs[idx..];
    var p := IndexOf(ks, b);
    if b == c {
      assert ks2[idx] == c;
      assert forall j :: 0 <= j < idx ==> ks2[j] == ks[j];
    } else if p < idx {
      assert ks2[p] == b && cs2[p] == cs[p];
      assert forall j :: 0 <= j < p ==> ks2[j] == ks[j];
    } else if p < |ks| {
      assert ks2[p + 1] == b && cs2[p + 1] == cs[p];
      assert forall j :: 0 <= j < idx ==> ks2[j] == ks[j];
      assert forall j :: idx < j <= p ==> ks2[j] == ks[j - 1];
    } else {
      assert b !in ks2;
    }
  }

  /** Lookup in a node whose sorted storage is `ks`, `cs` with `c` and `x` inserted at `idx`. */
  lemma InsertedLookup<T(0)>(n: Node<T>, ks: seq<byte>, cs: seq<Node?<T>>, idx: nat, c: byte, x: Node<T>)
    requires n.WellFormed() && (n.kind == Node4 || n.kind == Node16)
    requires |ks| == |cs| && idx <= |ks| && c !in ks
    requires n.keys[..n.numChildren] == ks[..idx] + [c] + ks[idx..]
    requires n.children[..n.numChildren] == cs[..idx] + [x] + cs[idx..]
    ensures forall b: byte :: n.Lookup(b) == if b == c then x else SeqLookup(ks, cs, b)
  {
    forall b: byte
      ensures n.Lookup(b) == if b == c then x else SeqLookup(ks, cs, b)
    {
      SeqLookupInsert(ks, cs, idx, c, x, b);
    }
  }

  /** `idx` is where `c` goes among the keys `ks`: every key before it is smaller and every key from it on is larger. */
  ghost predicate InsertionPoint(ks: seq<byte>, idx: nat, c: byte) {
    && idx <= |ks|
    && (forall j :: 0 <= j < idx ==> ks[j] < c)
    && (forall j :: idx <= j < |ks| ==> c < ks[j])
  }

  lemma AscendingInsert(ks: seq<byte>, idx: nat, c: byte)
    requires StrictlyAscending(ks) && InsertionPoint(ks, idx, c)
    ensures StrictlyAscending(ks[..idx] + [c] + ks[idx..])
  {
  }

  /**
   * Go's `copy(a[idx+1:], a[idx:used])` followed by `a[idx] = x`: the
   * first `used` elements with `x` inserted at `idx`; the rest of the array
   * beyond `used + 1` keeps its elements.
   */
  method ShiftUp<X>(a: array<X>, used: nat, idx: nat, x: X)
    requires idx <= used < a.Length
    modifies a
    ensures a[..used + 1] == old(a[..used])[..idx] + [x] + old(a[..used])[idx..]
    ensures a[used + 1..] == old(a[used + 1..])
  {
    ghost var before := a[..used];
    ghost var rest := a[used + 1..];
    ghost var after := before[..idx] + [x] + before[idx..];
    forall k | idx < k <= used {
      a[k] := a[k - 1];
    }
    a[idx] := x;
    assert forall k | 0 <= k < idx :: a[k] == before[k] == after[k];
    assert forall k | idx < k <= used :: a[k] == before[k - 1] == after[k];
    assert a[..used + 1] == after;
    assert forall k | used + 1 <= k < a.Length :: a[k] == rest[k - used - 1];
    assert a[used + 1..] == rest;
  }

  /**
   * The insertion step of `addChild4` and `addChild16` below capacity: the
   * keys and children from `idx` on move one slot up and `c`, `child` go
   * into slot `idx`, which keeps the keys ascending.
   */
  method InsertAt<T(0)>(n: Node<T>, idx: nat, c: byte, child: Node<T>)
    requires n.WellFormed() && (n.kind == Node4 || n.kind == Node16)
    requires n.numChildren < n.keys.Length && InsertionPoint(n.keys[..n.numChildren], idx, c)
    modifies n`numChildren, n.keys, n.children
    ensures n.WellFormed()
    ensures n.numChildren == old(n.numChildren) + 1
    ensures forall b: byte :: n.Lookup(b) == if b == c then child else old(n.Lookup(b))
  {
    ghost var ks, cs := n.keys[..n.numChildren], n.children[..n.numChildren];
    assert c !in ks;
    assert forall b: byte :: n.Lookup(b) == SeqLookup(ks, cs, b);
    assert null !in cs;
    ShiftUp(n.keys, n.numChildren, idx, c);
    ShiftUp(n.children, n.numChildren, idx, child);
    n.numChildren := n.numChildren + 1;
    AscendingInsert(ks, idx, c);
    assert n.keys[..n.numChildren] == ks[..idx] + [c] + ks[idx..];
    assert n.children[..n.numChildren] == cs[..idx] + [child] + cs[idx..];
    assert n.SortedStorage();
    InsertedLookup(n, ks, cs, idx, c, child);
  }

  /** `addChild256`: the slot for `c` receives the child. */
  method AddChild256<T(0)>(n: Node<T>, c: byte, child: Node<T>) returns (r: Node<T>)
    requires n.Valid() && n.kind == Node256
    requires n.Lookup(c) == null && Attachable(n, child)
    modifies n, n.children
    ensures r == n && r.kind == Node256 && r.Valid()
    ensures forall b: byte :: r.Lookup(b) == if b == c then child else old(n.Lookup(b))
    ensures r.numChildren == old(n.numChildren) + 1 <= 256
    ensures r.partial == old(n.partial) && r.partialLen == old(n.partialLen)
    ensures r.Repr == old(n.Repr) + child.Repr
  {
    ghost var used := n.UsedSlots();
    n.numChildren := n.numChildren + 1;
    n.children[c] := child;
    n.Repr := n.Repr + child.Repr;
    assert n.UsedSlots() == used + {c as int};
    BoundedCard(n.UsedSlots(), 256);
    forall b: byte | n.Lookup(b) != null
      ensures n.OwnsChild(n.Lookup(b))
    {
      if b != c {
        assert old(n.OwnsChild(n.Lookup(b)));
      }
    }
    r := n;
  }

  /** The scan of `addChild48` for the first nil child slot, which exists below 48 children. */
  method FreeSlot<T(0)>(n: Node<T>) returns (pos: nat)
    requires n.WellFormed() && n.kind == Node48 && n.numChildren < 48
    ensures pos < 48 && n.children[pos] == null
    ensures forall j :: 0 <= j < pos ==> n.children[j] != null
  {
    ghost var free := FreeIndex(n.UsedSlots(), 48);
    pos := 0;
    while n.children[pos] != null
      invariant 0 <= pos <= free
      invariant forall j :: 0 <= j < pos ==> n.children[j] != null
      decreases free - pos
    {
      pos := pos + 1;
    }
  }

  /** Pointing the free index entry of `c` at the free slot `pos` keeps the Node48 invariant. */
  lemma Place48Index<T(0)>(ks: seq<byte>, cs: seq<Node?<T>>, count: nat, c: byte, pos: nat, x: Node<T>)
    requires Index48(ks, cs, count) && ks[c] == 0 && pos < 48 && cs[pos] == null
    ensures Index48(ks[c := pos + 1], cs[pos := x], count + 1)
  {
    var ks2, cs2 := ks[c := pos + 1], cs[pos := x];
    assert forall b :: 0 <= b < 256 && ks[b] != 0 ==> ks[b] != pos + 1;
    assert |NonZero(ks2)| == count + 1 by {
      assert NonZero(ks2) == NonZero(ks) + {c as int};
    }
    assert |NonNull(cs2)| == count + 1 by {
      assert NonNull(cs2) == NonNull(cs) + {pos};
    }
  }

  /** ... and adds exactly the mapping c -> x. */
  lemma Place48Lookup<T(0)>(ks: seq<byte>, cs: seq<Node?<T>>, count: nat, c: byte, pos: nat, x: Node<T>)
    requires Index48(ks, cs, count) && ks[c] == 0 && pos < 48 && cs[pos] == null
    ensures forall b: byte :: Lookup48(ks[c := pos + 1], cs[pos := x], b) == if b == c then x else Lookup48(ks, cs, b)
  {
    forall b: byte
      ensures Lookup48(ks[c := pos + 1], cs[pos := x], b) == if b == c then x else Lookup48(ks, cs, b)
    {
      if b != c && ks[b] != 0 {
        assert ks[b] - 1 != pos;
      }
    }
  }

  /**
   * The in-place step of `addChild48` below capacity: the first nil child
   * slot receives the child and the index entry for `c` points at it.
   */
  method Place48<T(0)>(n: Node<T>, c: byte, child: Node<T>)
    requires n.WellFormed() && n.kind == Node48 && n.numChildren < 48
    requires n.Lookup(c) == null
    modifies n`numChildren, n.keys, n.children
    ensures n.WellFormed()
    ensures n.numChildren == old(n.numChildren) + 1
    ensures forall b: byte :: n.Lookup(b) == if b == c then child else old(n.Lookup(b))
  {
    ghost var ks, cs := n.keys[..], n.children[..];
    var pos := FreeSlot(n);
    n.children[pos] := child;
    n.keys[c] := pos + 1;
    n.numChildren := n.numChildren + 1;
    assert n.keys[..] == ks[c := pos + 1];
    assert n.children[..] == cs[pos := child];
    Place48Index(ks, cs, n.numChildren - 1, c, pos, child);
    Place48Lookup(ks, cs, n.numChildren - 1, c, pos, child);
  }

  /** `Place48` on a valid node, with the child's footprint taken into the node's. */
  method Attach48<T(0)>(n: Node<T>, c: byte, child: Node<T>)
    requires n.Valid() && n.kind == Node48 && n.numChildren < 48
    requires n.Lookup(c) == null && Attachable(n, child)
    modifies n, n.keys, n.children
    ensures n.Valid() && n.kind == Node48
    ensures forall b: byte :: n.Lookup(b) == if b == c then child else old(n.Lookup(b))
    ensures n.numChildren == old(n.numChildren) + 1
    ensures n.partial == old(n.partial) && n.partialLen == old(n.partialLen)
    ensures n.Repr == old(n.Repr) + child.Repr
  {
    n.Repr := n.Repr + child.Repr;
    Place48(n, c, child);
    forall b: byte | n.Lookup(b) != null
      ensures n.OwnsChild(n.Lookup(b))
    {
      if b != c {
        assert old(n.OwnsChild(n.Lookup(b)));
      }
    }
  }

  /**
   * `addChild48`: below 48 children the child goes into the first free
   * slot; a full Node48 is promoted to a Node256 that receives the child.
   */
  method AddChild48<T(0)>(n: Node<T>, c: byte, child: Node<T>) returns (r: Node<T>)
    requires n.Valid() && n.kind == Node48
    requires n.Lookup(c) == null && Attachable(n, child)
    modifies n, n.keys, n.children
    ensures r.Valid()
    ensures forall b: byte :: r.Lookup(b) == if b == c then child else old(n.Lookup(b))
    ensures r.numChildren == old(n.numChildren) + 1
    ensures r.partialLen == old(n.partialLen) && r.Prefix() == old(n.Prefix())
    ensures old(n.numChildren) < 48 ==> r == n && r.kind == Node48 && r.Repr == old(n.Repr) + child.Repr
    ensures old(n.numChildren) >= 48 ==> fresh(r) && r.kind == Node256 && unchanged(n) && unchanged(n.keys, n.children)
    ensures fresh(r.Repr - old(n.Repr) - child.Repr)
  {
    if n.numChildren < 48 {
      Attach48(n, c, child);
      r := n;
    } else {
      r := Promote48(n, c, child);
    }
  }

  /** The full-node branch of `addChild48`: a Node256 with the children of `n` and `child` added. */
  method Promote48<T(0)>(n: Node<T>, c: byte, child: Node<T>) returns (r: Node<T>)
    requires n.Valid() && n.kind == Node48
    requires n.Lookup(c) == null && Attachable(n, child)
    ensures fresh(r) && r.kind == Node256 && r.Valid()
    ensures forall b: byte :: r.Lookup(b) == if b == c then child else n.Lookup(b)
    ensures r.numChildren == n.numChildren + 1
    ensures r.partialLen == n.partialLen && r.Prefix() == n.Prefix()
    ensures fresh(r.Repr - n.Repr - child.Repr)
  {
    var grown := Grow48To256(n);
    ghost var added := grown.Repr - n.Repr;
    r := AddChild256(grown, c, child);
    assert r.Repr - n.Repr - child.Repr <= added;
  }

  /**
   * The slot-filling loop of `addChild48`'s promotion: the slot of each
   * byte receives the child the index gives it.
   */
  method SpreadInto<T(0)>(index: array<byte>, slots: array<Node?<T>>, out: array<Node?<T>>)
    requires index.Length == 256 && slots.Length == 48 && out.Length == 256 && out != slots
    requires forall b :: 0 <= b < 256 ==> index[b] <= 48
    requires forall b :: 0 <= b < 256 ==> out[b] == null
    modifies out
    ensures forall b: byte :: out[b] == Lookup48(index[..], slots[..], b)
  {
    var i := 0;
    while i < 256
      invariant 0 <= i <= 256
      invariant forall b: byte :: b < i ==> out[b] == Lookup48(index[..], slots[..], b)
      invariant forall b :: i <= b < 256 ==> out[b] == null
    {
      if index[i] != 0 {
        out[i] := slots[index[i] - 1];
      }
      i := i + 1;
    }
  }

  /**
   * The storage of `addChild48`'s promotion: a fresh Node256 whose slot for
   * each byte holds the child the Node48's index gives it, with the header
   * copied.
   */
  method Spread48<T(0)>(n: Node<T>) returns (m: Node<T>)
    requires n.WellFormed() && n.kind == Node48
    ensures fresh(m) && fresh(m.partial) && fresh(m.keys) && fresh(m.children)
    ensures m.WellFormed() && m.kind == Node256
    ensures forall b: byte :: m.Lookup(b) == n.Lookup(b)
    ensures m.numChildren == n.numChildren
    ensures m.partialLen == n.partialLen && m.Prefix() == n.Prefix()
  {
    m := new Node<T>.Alloc(Node256);
    SpreadInto(n.keys, n.children, m.children);
    CopyHeader(m, n);
    assert m.UsedSlots() == n.UsedKeys();
  }

  /** The promotion step of `addChild48`: the Node256 built by `Spread48` holds exactly the Node48's children. */
  method Grow48To256<T(0)>(n: Node<T>) returns (m: Node<T>)
    requires n.Valid() && n.kind == Node48
    ensures fresh(m) && fresh(m.partial) && fresh(m.keys) && fresh(m.children)
    ensures m.Valid() && m.kind == Node256
    ensures forall b: byte :: m.Lookup(b) == n.Lookup(b)
    ensures m.numChildren == n.numChildren
    ensures m.partialLen == n.partialLen && m.Prefix() == n.Prefix()
    ensures m.Repr == {m, m.partial, m.keys, m.children} + (n.Repr - {n, n.partial, n.keys, n.children})
    ensures fresh(m.Repr - n.Repr)
  {
    m := Spread48(n);
    m.Repr := {m, m.partial, m.keys, m.children} + (n.Repr - {n, n.partial, n.keys, n.children});
    AdoptChildren(n, m);
  }

  /** The Node48 index entry a sorted key sequence gives byte `b`: its position + 1, or 0. */
  function SlotOf(ks: seq<byte>, b: byte): (r: nat)
    ensures r <= |ks|
    ensures r != 0 <==> b in ks
    ensures r != 0 ==> ks[r - 1] == b
  {
    var i := IndexOf(ks, b);
    if i < |ks| then i + 1 else 0
  }

  /** Appending a new byte gives it the next entry and leaves the other entries alone. */
  lemma SlotOfAppend(ks: seq<byte>, x: byte, b: byte)
    requires x !in ks
    ensures SlotOf(ks + [x], b) == if b == x then |ks| + 1 else SlotOf(ks, b)
  {
    var t := ks + [x];
    var p, q := IndexOf(ks, b), IndexOf(t, b);
    assert forall j :: 0 <= j < |ks| ==> t[j] == ks[j];
    if p < |ks| {
      assert t[p] == b;
      assert q == p;
    } else if b == x {
      assert t[|ks|] == b;
      assert q == |ks|;
    } else {
      assert b !in t;
    }
  }

  /**
   * The index built from sorted storage `ks`, `cs` (children copied to the
   * first slots) satisfies the Node48 invariant and gives every byte the
   * child the sorted storage gave it.
   */
  lemma IndexFromSorted<T(0)>(ks: seq<byte>, cs: seq<Node?<T>>, ks48: seq<byte>, cs48: seq<Node?<T>>)
    requires StrictlyAscending(ks) && |ks| == |cs| <= 48 && null !in cs
    requires |ks48| == 256 && |cs48| == 48
    requires forall b :: 0 <= b < 256 ==> ks48[b] == SlotOf(ks, b)
    requires cs48[..|cs|] == cs && forall j :: |cs| <= j < 48 ==> cs48[j] == null
    requires |NonZero(ks48)| == |ks|
    ensures Index48(ks48, cs48, |ks|)
    ensures forall b: byte :: Lookup48(ks48, cs48, b) == SeqLookup(ks, cs, b)
  {
    assert forall j :: 0 <= j < |cs| ==> cs48[j] == cs[j];
    assert NonNull(cs48) == Range(|cs|);
  }

  /** Two sorted nodes with the same used keys and children map every byte alike. */
  lemma SameSortedStorage<T(0)>(n: Node<T>, m: Node<T>)
    requires n.WellFormed() && (n.kind == Node4 || n.kind == Node16)
    requires m.partial.Length == MaxPrefixLen && m.partial != m.keys
    requires (m.kind == Node4 || m.kind == Node16) && m.keys.Length == m.children.Length == KeySlots(m.kind)
    requires m.numChildren == n.numChildren <= m.keys.Length
    requires m.keys[..m.numChildren] == n.keys[..n.numChildren]
    requires m.children[..m.numChildren] == n.children[..n.numChildren]
    ensures m.WellFormed() && forall b: byte :: m.Lookup(b) == n.Lookup(b)
  {
  }

  /** A Node48 whose index reproduces a sorted node's storage maps every byte alike. */
  lemma IndexedLikeSorted<T(0)>(n: Node<T>, m: Node<T>)
    requires n.WellFormed() && n.kind == Node16 && m.WellFormed() && m.kind == Node48
    requires forall b: byte ::
      Lookup48(m.keys[..], m.children[..], b) == SeqLookup(n.keys[..n.numChildren], n.children[..n.numChildren], b)
    ensures forall b: byte :: m.Lookup(b) == n.Lookup(b)
  {
  }

  /**
   * The storage of `addChild4`'s promotion: a fresh Node16 holding the
   * Node4's used keys and children in the same order, with the header
   * copied.
   */
  method Copy4To16<T(0)>(n: Node<T>) returns (m: Node<T>)
    requires n.WellFormed() && n.kind == Node4
    ensures fresh(m) && fresh(m.partial) && fresh(m.keys) && fresh(m.children)
    ensures m.WellFormed() && m.kind == Node16
    ensures m.keys[..m.numChildren] == n.keys[..n.numChildren]
    ensures forall b: byte :: m.Lookup(b) == n.Lookup(b)
    ensures m.numChildren == n.numChildren
    ensures m.partialLen == n.partialLen && m.Prefix() == n.Prefix()
  {
    m := new Node<T>.Alloc(Node16);
    CopyPrefix(n.children, m.children, n.numChildren);
    CopyPrefix(n.keys, m.keys, n.numChildren);
    CopyHeader(m, n);
    SameSortedStorage(n, m);
  }

  /** The promotion step of `addChild4`: the Node16 built by `Copy4To16` holds exactly the Node4's children. */
  method Grow4To16<T(0)>(n: Node<T>) returns (m: Node<T>)
    requires n.Valid() && n.kind == Node4
    ensures fresh(m) && fresh(m.partial) && fresh(m.keys) && fresh(m.children)
    ensures m.Valid() && m.kind == Node16
    ensures m.keys[..m.numChildren] == n.keys[..n.numChildren]
    ensures forall b: byte :: m.Lookup(b) == n.Lookup(b)
    ensures m.numChildren == n.numChildren
    ensures m.partialLen == n.partialLen && m.Prefix() == n.Prefix()
    ensures m.Repr == {m, m.partial, m.keys, m.children} + (n.Repr - {n, n.partial, n.keys, n.children})
    ensures fresh(m.Repr - n.Repr)
  {
    m := Copy4To16(n);
    m.Repr := {m, m.partial, m.keys, m.children} + (n.Repr - {n, n.partial, n.keys, n.children});
    AdoptChildren(n, m);
  }

  /** After `i` steps of the index-building loop: keys[..i] have their entries and nothing else does. */
  ghost predicate FilledTo(ks: seq<byte>, i: nat, index: seq<byte>) {
    && i <= |ks| && |index| == 256
    && (forall b :: 0 <= b < 256 ==> index[b] == SlotOf(ks[..i], b))
    && |NonZero(index)| == i
  }

  /** One step of the index-building loop: key `i` takes entry i + 1 and the count of used entries grows by one. */
  lemma FillStep(ks: seq<byte>, i: nat, index: seq<byte>)
    requires StrictlyAscending(ks) && i < |ks| <= 48
    requires FilledTo(ks, i, index)
    ensures FilledTo(ks, i + 1, index[ks[i] := (i + 1) as byte])
  {
    var next := index[ks[i] := (i + 1) as byte];
    assert ks[i] !in ks[..i];
    forall b | 0 <= b < 256 ensures next[b] == SlotOf(ks[..i + 1], b) {
      SlotOfPrefix(ks, i, b);
    }
    NonZeroSet(index, ks[i], i + 1);
  }

  /** Extending a prefix of the keys by a new byte gives it the next entry and leaves the other entries alone. */
  lemma SlotOfPrefix(ks: seq<byte>, i: nat, b: byte)
    requires i < |ks| && ks[i] !in ks[..i]
    ensures SlotOf(ks[..i + 1], b) == if b == ks[i] then i + 1 else SlotOf(ks[..i], b)
  {
    assert ks[..i + 1] == ks[..i] + [ks[i]];
    SlotOfAppend(ks[..i], ks[i], b);
  }

  /**
   * The index-building loop of `addChild16`'s promotion: entry `keys[i]` of
   * the zero-filled index becomes i + 1 for each used position i.
   */
  method FillIndex(keys: array<byte>, count: nat, index: array<byte>)
    requires count <= keys.Length && count <= 48 && StrictlyAscending(keys[..count])
    requires index.Length == 256 && index != keys
    requires forall b :: 0 <= b < 256 ==> index[b] == 0
    modifies index
    ensures forall b :: 0 <= b < 256 ==> index[b] == SlotOf(keys[..count], b)
    ensures |NonZero(index[..])| == count
  {
    ghost var ks := keys[..count];
    ghost var cur := index[..];
    assert NonZero(cur) == {};
    var i := 0;
    while i < count
      invariant 0 <= i <= count
      invariant index[..] == cur && FilledTo(ks, i, cur)
    {
      FillStep(ks, i, cur);
      index[keys[i]] := i + 1;
      cur := cur[ks[i] := (i + 1) as byte];
      assert index[..] == cur;
      i := i + 1;
    }
    assert ks[..i] == ks;
  }

  /**
   * The Node48 storage of `addChild16`'s promotion: the used children go
   * to the first slots in order and the index maps each used key to its
   * position + 1.
   */
  method BuildIndex48<T(0)>(keys: array<byte>, children: array<Node?<T>>, count: nat, index: array<byte>, slots: array<Node?<T>>)
    requires count <= keys.Length && count <= children.Length && count <= 16
    requires StrictlyAscending(keys[..count]) && null !in children[..count]
    requires index.Length == 256 && slots.Length == 48
    requires index != keys && slots != children
    requires forall b :: 0 <= b < 256 ==> index[b] == 0
    requires forall j :: 0 <= j < 48 ==> slots[j] == null
    modifies index, slots
    ensures Index48(index[..], slots[..], count)
    ensures forall b: byte :: Lookup48(index[..], slots[..], b) == SeqLookup(keys[..count], children[..count], b)
  {
    ghost var ks, cs := keys[..count], children[..count];
    CopyPrefix(children, slots, count);
    FillIndex(keys, count, index);
    assert keys[..count] == ks;
    assert forall b :: 0 <= b < 256 ==> index[..][b] == SlotOf(ks, b);
    IndexFromSorted(ks, cs, index[..], slots[..]);
  }

  /**
   * The storage of `addChild16`'s promotion: a fresh Node48 whose first
   * slots hold the Node16's children in order and whose index maps each key
   * to its position + 1, with the header copied.
   */
  method Index16As48<T(0)>(n: Node<T>) returns (m: Node<T>)
    requires n.WellFormed() && n.kind == Node16
    ensures fresh(m) && fresh(m.partial) && fresh(m.keys) && fresh(m.children)
    ensures m.WellFormed() && m.kind == Node48
    ensures forall b: byte ::
      Lookup48(m.keys[..], m.children[..], b) == SeqLookup(n.keys[..n.numChildren], n.children[..n.numChildren], b)
    ensures m.numChildren == n.numChildren
    ensures m.partialLen == n.partialLen && m.Prefix() == n.Prefix()
  {
    m := new Node<T>.Alloc(Node48);
    CopyHeader(m, n);
    BuildIndex48(n.keys, n.children, n.numChildren, m.keys, m.children);
  }

  /**
   * The promotion step of `addChild16`: the Node48 built by `Index16As48`
   * holds exactly the Node16's children.
   */
  method Grow16To48<T(0)>(n: Node<T>) returns (m: Node<T>)
    requires n.Valid() && n.kind == Node16
    ensures fresh(m) && fresh(m.partial) && fresh(m.keys) && fresh(m.children)
    ensures m.Valid() && m.kind == Node48
    ensures forall b: byte :: m.Lookup(b) == n.Lookup(b)
    ensures m.numChildren == n.numChildren
    ensures m.partialLen == n.partialLen && m.Prefix() == n.Prefix()
    ensures m.Repr == {m, m.partial, m.keys, m.children} + (n.Repr - {n, n.partial, n.keys, n.children})
    ensures fresh(m.Repr - n.Repr)
  {
    m := Index16As48(n);
    IndexedLikeSorted(n, m);
    m.Repr := {m, m.partial, m.keys, m.children} + (n.Repr - {n, n.partial, n.keys, n.children});
    AdoptChildren(n, m);
  }

  /** Taking an attachable child's footprint into a valid node's keeps the node valid. */
  method TakeFootprint<T(0)>(n: Node<T>, child: Node<T>)
    requires n.Valid() && Attachable(n, child)
    modifies n`Repr
    ensures n.Valid() && n.Repr == old(n.Repr) + child.Repr
  {
    n.Repr := n.Repr + child.Repr;
    forall b: byte | n.Lookup(b) != null
      ensures n.OwnsChild(n.Lookup(b))
    {
      assert old(n.OwnsChild(n.Lookup(b)));
    }
  }

  /** `InsertAt` on a valid node whose footprint already holds the child's. */
  method InsertOwned<T(0)>(n: Node<T>, idx: nat, c: byte, child: Node<T>)
    requires n.Valid() && (n.kind == Node4 || n.kind == Node16)
    requires n.numChildren < n.keys.Length && InsertionPoint(n.keys[..n.numChildren], idx, c)
    requires Attachable(n, child) && child.Repr <= n.Repr
    modifies n`numChildren, n.keys, n.children
    ensures n.Valid()
    ensures forall b: byte :: n.Lookup(b) == if b == c then child else old(n.Lookup(b))
    ensures n.numChildren == old(n.numChildren) + 1
  {
    InsertAt(n, idx, c, child);
    forall b: byte | n.Lookup(b) != null
      ensures n.OwnsChild(n.Lookup(b))
    {
      if b == c {
        assert n.Lookup(b) == child;
      } else {
        assert old(n.OwnsChild(n.Lookup(b)));
      }
    }
  }

  /** `InsertAt` on a valid node, with the child's footprint taken into the node's. */
  method AttachSorted<T(0)>(n: Node<T>, idx: nat, c: byte, child: Node<T>)
    requires n.Valid() && (n.kind == Node4 || n.kind == Node16)
    requires n.numChildren < n.keys.Length && InsertionPoint(n.keys[..n.numChildren], idx, c)
    requires Attachable(n, child)
    modifies n, n.keys, n.children
    ensures n.Valid() && n.kind == old(n.kind)
    ensures forall b: byte :: n.Lookup(b) == if b == c then child else old(n.Lookup(b))
    ensures n.numChildren == old(n.numChildren) + 1
    ensures n.partial == old(n.partial) && n.partialLen == old(n.partialLen)
    ensures n.Repr == old(n.Repr) + child.Repr
  {
    TakeFootprint(n, child);
    InsertOwned(n, idx, c, child);
  }

  /**
   * The position scan of `addChild4`: the first used position whose key
   * is greater than `c`, or numChildren.
   */
  method InsertionIndex4<T(0)>(n: Node<T>, c: byte) returns (idx: nat)
    requires n.WellFormed() && n.kind == Node4 && n.Lookup(c) == null
    ensures InsertionPoint(n.keys[..n.numChildren], idx, c)
  {
    idx := 0;
    while idx < n.numChildren
      invariant idx <= n.numChildren
      invariant forall j :: 0 <= j < idx ==> n.keys[j] < c
    {
      if c < n.keys[idx] {
        break;
      }
      assert n.keys[idx] != c by {
        assert n.keys[..n.numChildren][idx] == n.keys[idx];
      }
      idx := idx + 1;
    }
    assert forall j :: idx < j < n.numChildren ==> n.keys[..n.numChildren][idx] < n.keys[..n.numChildren][j];
  }

  /**
   * The position computation of `addChild16`: the bit set of the positions
   * among all sixteen keys whose key is greater than `c`, masked to
   * numChildren; its lowest member, or numChildren when it is empty.
   */
  method InsertionIndex16<T(0)>(n: Node<T>, c: byte) returns (idx: nat)
    requires n.WellFormed() && n.kind == Node16 && n.Lookup(c) == null
    ensures InsertionPoint(n.keys[..n.numChildren], idx, c)
  {
    var bitfield: set<int> := {};
    var i := 0;
    while i < 16
      invariant 0 <= i <= 16
      invariant bitfield == set j | 0 <= j < i && c < n.keys[j]
    {
      if c < n.keys[i] {
        bitfield := bitfield + {i};
      }
      i := i + 1;
    }
    bitfield := set j | j in bitfield && j < n.numChildren;
    if bitfield != {} {
      idx := TrailingZeros(bitfield, 16);
    } else {
      idx := n.numChildren;
    }
    ghost var ks := n.keys[..n.numChildren];
    assert c !in ks;
    assert forall j :: 0 <= j < |ks| ==> (j in bitfield <==> c < ks[j]);
    LowestGreater(ks, c, bitfield, idx);
  }

  /** The lowest position whose key exceeds `c` (or the end, when none does) is where `c` goes. */
  lemma LowestGreater(ks: seq<byte>, c: byte, bits: set<int>, idx: nat)
    requires StrictlyAscending(ks) && c !in ks
    requires forall j :: j in bits ==> 0 <= j < |ks|
    requires forall j :: 0 <= j < |ks| ==> (j in bits <==> c < ks[j])
    requires bits != {} ==> idx in bits && forall j :: j in bits ==> idx <= j
    requires bits == {} ==> idx == |ks|
    ensures InsertionPoint(ks, idx, c)
  {
    forall j | 0 <= j < idx ensures ks[j] < c {
      assert j !in bits;
    }
    forall j | idx <= j < |ks| ensures c < ks[j] {
      if j != idx {
        assert ks[idx] < ks[j];
      }
    }
  }

  /**
   * `addChild16`: below 16 children the child is inserted at its sorted
   * position; a full Node16 is promoted to a Node48 that receives the child.
   */
  method AddChild16<T(0)>(n: Node<T>, c: byte, child: Node<T>) returns (r: Node<T>)
    requires n.Valid() && n.kind == Node16
    requires n.Lookup(c) == null && Attachable(n, child)
    modifies n, n.keys, n.children
    ensures r.Valid()
    ensures forall b: byte :: r.Lookup(b) == if b == c then child else old(n.Lookup(b))
    ensures r.numChildren == old(n.numChildren) + 1
    ensures r.partialLen == old(n.partialLen) && r.Prefix() == old(n.Prefix())
    ensures old(n.numChildren) < 16 ==> r == n && r.kind == Node16 && r.Repr == old(n.Repr) + child.Repr
    ensures old(n.numChildren) >= 16 ==> fresh(r) && r.kind == Node48 && unchanged(n) && unchanged(n.keys, n.children)
    ensures fresh(r.Repr - old(n.Repr) - child.Repr)
  {
    if n.numChildren < 16 {
      var idx := InsertionIndex16(n, c);
      AttachSorted(n, idx, c, child);
      r := n;
    } else {
      r := Promote16(n, c, child);
    }
  }

  /** The full-node branch of `addChild16`: a Node48 with the children of `n` and `child` added. */
  method Promote16<T(0)>(n: Node<T>, c: byte, child: Node<T>) returns (r: Node<T>)
    requires n.Valid() && n.kind == Node16
    requires n.Lookup(c) == null && Attachable(n, child)
    ensures fresh(r) && r.kind == Node48 && r.Valid()
    ensures forall b: byte :: r.Lookup(b) == if b == c then child else n.Lookup(b)
    ensures r.numChildren == n.numChildren + 1
    ensures r.partialLen == n.partialLen && r.Prefix() == n.Prefix()
    ensures fresh(r.Repr - n.Repr - child.Repr)
  {
    var grown := Grow16To48(n);
    ghost var added := grown.Repr - n.Repr;
    r := AddChild48(grown, c, child);
    assert r == grown && r.Repr - n.Repr - child.Repr <= added;
  }

  /**
   * `addChild4`: below 4 children the child is inserted at its sorted
   * position; a full Node4 is promoted to a Node16 that receives the child.
   */
  method AddChild4<T(0)>(n: Node<T>, c: byte, child: Node<T>) returns (r: Node<T>)
    requires n.Valid() && n.kind == Node4
    requires n.Lookup(c) == null && Attachable(n, child)
    modifies n, n.keys, n.children
    ensures r.Valid()
    ensures forall b: byte :: r.Lookup(b) == if b == c then child else old(n.Lookup(b))
    ensures r.numChildren == old(n.numChildren) + 1
    ensures r.partialLen == old(n.partialLen) && r.Prefix() == old(n.Prefix())
    ensures old(n.numChildren) < 4 ==> r == n && r.kind == Node4 && r.Repr == old(n.Repr) + child.Repr
    ensures old(n.numChildren) >= 4 ==> fresh(r) && r.kind == Node16 && unchanged(n) && unchanged(n.keys, n.children)
    ensures fresh(r.Repr - old(n.Repr) - child.Repr)
  {
    if n.numChildren < 4 {
      var idx := InsertionIndex4(n, c);
      AttachSorted(n, idx, c, child);
      r := n;
    } else {
      r := Promote4(n, c, child);
    }
  }

  /** The full-node branch of `addChild4`: a Node16 with the children of `n` and `child` added. */
  method Promote4<T(0)>(n: Node<T>, c: byte, child: Node<T>) returns (r: Node<T>)
    requires n.Valid() && n.kind == Node4
    requires n.Lookup(c) == null && Attachable(n, child)
    ensures fresh(r) && r.kind == Node16 && r.Valid()
    ensures forall b: byte :: r.Lookup(b) == if b == c then child else n.Lookup(b)
    ensures r.numChildren == n.numChildren + 1
    ensures r.partialLen == n.partialLen && r.Prefix() == n.Prefix()
    ensures fresh(r.Repr - n.Repr - child.Repr)
  {
    var grown := Grow4To16(n);
    ghost var added := grown.Repr - n.Repr;
    r := AddChild16(grown, c, child);
    assert r == grown && r.Repr - n.Repr - child.Repr <= added;
  }

  /**
   * `addChild`: dispatches on the node kind. The node that takes `n`'s
   * place holds every child `n` held plus `child` under `c`, and keeps the
   * header; it is `n` itself while `n` has a free slot, otherwise a fresh
   * node of the next kind.
   */
  method AddChild<T(0)>(n: Node<T>, c: byte, child: Node<T>) returns (r: Node<T>)
    requires n.Valid() && n.kind != Leaf
    requires n.Lookup(c) == null && Attachable(n, child)
    modifies n, n.keys, n.children
    ensures r.Valid()
    ensures forall b: byte :: r.Lookup(b) == if b == c then child else old(n.Lookup(b))
    ensures r.numChildren == old(n.numChildren) + 1
    ensures r.partialLen == old(n.partialLen) && r.Prefix() == old(n.Prefix())
    ensures old(n.numChildren) < ChildSlots(old(n.kind)) ==> r == n && r.kind == old(n.kind)
    ensures old(n.numChildren) >= ChildSlots(old(n.kind)) ==>
      fresh(r) && r.kind == Grown(old(n.kind)) && unchanged(n) && unchanged(n.keys, n.children)
    ensures fresh(r.Repr - old(n.Repr) - child.Repr)
  {
    match n.kind
    case Node4 => r := AddChild4(n, c, child);
    case Node16 => r := AddChild16(n, c, child);
    case Node48 => r := AddChild48(n, c, child);
    case Node256 => r := AddChild256(n, c, child);
  }
}
