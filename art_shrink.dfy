/**
 * Child removal in the adaptive radix tree
 * (internal/radix/adaptive/helpers.go): `removeChild` and its four
 * variants, with demotion Node256 -> Node48 -> Node16 -> Node4 when a node
 * drops to a threshold, and the collapse of a Node4 left with one child
 * into that child. The Go `ref` slot becomes the returned node.
 */
module ArtShrink {
  import opened Bytes
  import opened ArtNode
  import opened ArtSearch
  import opened ArtGrow

  /** The kind a node is demoted to. */
  function Shrunk(k: Kind): Kind {
    match k
    case Node16 => Node4
    case Node48 => Node16
    case Node256 => Node48
    case _ => k
  }

  /**
   * The child count at which a node is replaced after a removal: 1 for
   * Node4 (collapse into the last child), 3 for Node16, 12 for Node48 and 37
   * for Node256 (not 48, so that a node on the 48/49 boundary is not
   * resized back and forth).
   */
  function ShrinkAt(k: Kind): nat {
    match k
    case Node4 => 1
    case Node16 => 3
    case Node48 => 12
    case Node256 => 37
    case Leaf => 0
  }

  /** Removing position `pos` from distinct keys removes exactly the mapping for its key. */
  lemma SeqLookupRemove<T(0)>(ks: seq<byte>, cs: seq<Node?<T>>, pos: nat, b: byte)
    requires |ks| == |cs| && pos < |ks| && ks[pos] !in ks[..pos] + ks[pos + 1..]
    ensures SeqLookup(ks[..pos] + ks[pos + 1..], cs[..pos] + cs[pos + 1..], b)
         == if b == ks[pos] then null else SeqLookup(ks, cs, b)
  {
    var ks2, cs2 := ks[..pos] + ks[pos + 1..], cs[..pos] + cs[pos + 1..];
    assert |ks2| == |ks| - 1;
    var p := IndexOf(ks, b);
    if b == ks[pos] {
    } else if p < pos {
      assert ks2[p] == ks[p] && cs2[p] == cs[p];
      forall j | 0 <= j < p ensures ks2[j] != b {
        assert ks2[j] == ks[j];
      }
    } else if p < |ks| {
      assert ks2[p - 1] == ks[p] && cs2[p - 1] == cs[p];
      forall j | 0 <= j < p - 1 ensures ks2[j] != b {
        if j < pos { assert ks2[j] == ks[j]; } else { assert ks2[j] == ks[j + 1]; }
      }
    } else {
      forall j | 0 <= j < |ks2| ensures ks2[j] != b {
        if j < pos { assert ks2[j] == ks[j]; } else { assert ks2[j] == ks[j + 1]; }
      }
    }
  }

  /** Lookup in a node whose sorted storage is `ks`, `cs` with position `pos` removed. */
  lemma RemovedLookup<T(0)>(n: Node<T>, ks: seq<byte>, cs: seq<Node?<T>>, pos: nat)
    requires n.WellFormed() && (n.kind == Node4 || n.kind == Node16)
    requires StrictlyAscending(ks) && |ks| == |cs| && pos < |ks|
    requires n.keys[..n.numChildren] == ks[..pos] + ks[pos + 1..]
    requires n.children[..n.numChildren] == cs[..pos] + cs[pos + 1..]
    ensures forall b: byte :: n.Lookup(b) == if b == ks[pos] then null else SeqLookup(ks, cs, b)
  {
    assert ks[pos] !in ks[..pos] + ks[pos + 1..] by {
      forall j | 0 <= j < |ks| && j != pos ensures ks[j] != ks[pos] {
        if j < pos { assert ks[j] < ks[pos]; } else { assert ks[pos] < ks[j]; }
      }
    }
    forall b: byte
      ensures n.Lookup(b) == if b == ks[pos] then null else SeqLookup(ks, cs, b)
    {
      SeqLookupRemove(ks, cs, pos, b);
    }
  }

  lemma AscendingRemove(ks: seq<byte>, pos: nat)
    requires StrictlyAscending(ks) && pos < |ks|
    ensures StrictlyAscending(ks[..pos] + ks[pos + 1..])
  {
    var ks2 := ks[..pos] + ks[pos + 1..];
    forall i, j | 0 <= i < j < |ks2| ensures ks2[i] < ks2[j] {
      var i', j' := if i < pos then i else i + 1, if j < pos then j else j + 1;
      assert ks2[i] == ks[i'] && ks2[j] == ks[j'];
    }
  }

  /**
   * Go's `copy(a[pos:], a[pos+1:])`: the elements after `pos` move one
   * slot down and the last slot keeps its element; within the first `used`
   * elements this removes position `pos`.
   */
  method ShiftDown<X>(a: array<X>, pos: nat, ghost used: nat)
    requires pos < used <= a.Length
    modifies a
    ensures forall k | 0 <= k < a.Length :: a[k] == if pos <= k < a.Length - 1 then old(a[k + 1]) else old(a[k])
    ensures a[..used - 1] == old(a[..used])[..pos] + old(a[..used])[pos + 1..]
  {
    ghost var before := a[..used];
    ghost var after := before[..pos] + before[pos + 1..];
    forall k | pos <= k < a.Length - 1 {
      a[k] := a[k + 1];
    }
    assert forall k | 0 <= k < used - 1 :: after[k] == if k < pos then before[k] else before[k + 1];
    assert forall k | 0 <= k < used - 1 :: a[k] == after[k];
    assert a[..used - 1] == after;
  }

  /**
   * The removal step of `removeChild4` and `removeChild16`: the keys and
   * children after `pos` move one slot down and the count drops by one.
   */
  method RemoveAt<T(0)>(n: Node<T>, pos: nat)
    requires n.WellFormed() && (n.kind == Node4 || n.kind == Node16)
    requires pos < n.numChildren
    modifies n`numChildren, n.keys, n.children
    ensures n.WellFormed()
    ensures n.numChildren == old(n.numChildren) - 1
    ensures forall b: byte :: n.Lookup(b) == if b == old(n.keys[pos]) then null else old(n.Lookup(b))
  {
    ghost var ks, cs := n.keys[..n.numChildren], n.children[..n.numChildren];
    assert forall b: byte :: n.Lookup(b) == SeqLookup(ks, cs, b);
    ShiftDown(n.keys, pos, n.numChildren);
    ShiftDown(n.children, pos, n.numChildren);
    n.numChildren := n.numChildren - 1;
    AscendingRemove(ks, pos);
    assert n.WellFormed();
    RemovedLookup(n, ks, cs, pos);
  }

  /** Clearing one used index entry removes exactly its position from the used ones. */
  lemma NonZeroClear(ks: seq<byte>, p: int)
    requires 0 <= p < |ks| && ks[p] != 0
    ensures NonZero(ks) == NonZero(ks[p := 0]) + {p}
    ensures |NonZero(ks[p := 0])| == |NonZero(ks)| - 1
  {
    assert NonZero(ks) == NonZero(ks[p := 0]) + {p};
  }

  /** Clearing one non-nil slot removes exactly its position from the used ones. */
  lemma NonNullClear<T(0)>(cs: seq<Node?<T>>, p: int)
    requires 0 <= p < |cs| && cs[p] != null
    ensures NonNull(cs) == NonNull(cs[p := null]) + {p}
    ensures |NonNull(cs[p := null])| == |NonNull(cs)| - 1
  {
    assert NonNull(cs) == NonNull(cs[p := null]) + {p};
  }

  /** After clearing the index entry of `c` and its slot, `c` has no child and every other byte keeps its own. */
  lemma Clear48Lookup<T(0)>(ks: seq<byte>, cs: seq<Node?<T>>, count: nat, c: byte, ks2: seq<byte>, cs2: seq<Node?<T>>)
    requires Index48(ks, cs, count) && ks[c] != 0
    requires ks2 == ks[c := 0] && cs2 == cs[ks[c] - 1 := null]
    ensures forall b :: 0 <= b < 256 ==> ks2[b] <= 48
    ensures forall b: byte :: Lookup48(ks2, cs2, b) == if b == c then null else Lookup48(ks, cs, b)
  {
    forall b: byte
      ensures Lookup48(ks2, cs2, b) == if b == c then null else Lookup48(ks, cs, b)
    {
      if b != c && ks[b] != 0 {
        assert ks[b] != ks[c];
      }
    }
  }

  /** Clearing the index entry of `c` and its slot keeps the Node48 invariant with one child fewer. */
  lemma Clear48Index<T(0)>(ks: seq<byte>, cs: seq<Node?<T>>, count: nat, c: byte, ks2: seq<byte>, cs2: seq<Node?<T>>)
    requires Index48(ks, cs, count) && ks[c] != 0
    requires ks2 == ks[c := 0] && cs2 == cs[ks[c] - 1 := null]
    ensures count > 0
    ensures Index48(ks2, cs2, count - 1)
    ensures forall b: byte :: Lookup48(ks2, cs2, b) == if b == c then null else Lookup48(ks, cs, b)
  {
    NonZeroClear(ks, c);
    NonNullClear(cs, ks[c] - 1);
    Clear48Lookup(ks, cs, count, c, ks2, cs2);
  }

  /** The removal step of `removeChild48`: the index entry of `c` and its slot are cleared. */
  method Clear48<T(0)>(n: Node<T>, c: byte)
    requires n.WellFormed() && n.kind == Node48 && n.Lookup(c) != null
    modifies n`numChildren, n.keys, n.children
    ensures n.WellFormed()
    ensures n.numChildren == old(n.numChildren) - 1
    ensures forall b: byte :: n.Lookup(b) == if b == c then null else old(n.Lookup(b))
  {
    ghost var ks, cs := n.keys[..], n.children[..];
    var pos := n.keys[c];
    ghost var ks2, cs2 := ks[c := 0], cs[pos - 1 := null];
    Clear48Index(ks, cs, n.numChildren, c, ks2, cs2);
    n.keys[c] := 0;
    n.children[pos - 1] := null;
    n.numChildren := n.numChildren - 1;
    assert n.keys[..] == ks2;
    assert n.children[..] == cs2;
  }

  /** The removal step of `removeChild256`: the slot of `c` is cleared. */
  method Clear256<T(0)>(n: Node<T>, c: byte)
    requires n.WellFormed() && n.kind == Node256 && n.Lookup(c) != null
    modifies n`numChildren, n.children
    ensures n.WellFormed()
    ensures n.numChildren == old(n.numChildren) - 1
    ensures forall b: byte :: n.Lookup(b) == if b == c then null else old(n.Lookup(b))
  {
    ghost var used := n.UsedSlots();
    assert c as int in used;
    n.children[c] := null;
    n.numChildren := n.numChildren - 1;
    assert used == n.UsedSlots() + {c as int};
  }

  /**
   * The storage of `removeChild16`'s demotion: a fresh Node4 with the first
   * four keys and children of the Node16 and its header.
   */
  method Copy16To4<T(0)>(n: Node<T>) returns (m: Node<T>)
    requires n.WellFormed() && n.kind == Node16 && n.numChildren <= 4
    ensures fresh(m) && fresh(m.partial) && fresh(m.keys) && fresh(m.children)
    ensures m.WellFormed() && m.kind == Node4
    ensures forall b: byte :: m.Lookup(b) == n.Lookup(b)
    ensures m.numChildren == n.numChildren
    ensures m.partialLen == n.partialLen && m.Prefix() == n.Prefix()
  {
    m := new Node<T>.Alloc(Node4);
    CopyHeader(m, n);
    CopyPrefix(n.keys, m.keys, 4);
    CopyPrefix(n.children, m.children, 4);
    assert m.keys[..m.numChildren] == m.keys[..4][..m.numChildren] == n.keys[..4][..n.numChildren];
    assert m.children[..m.numChildren] == m.children[..4][..m.numChildren] == n.children[..4][..n.numChildren];
    SameSortedStorage(n, m);
  }

  /** The bytes below `i` that have an index entry. */
  ghost function IndexedBelow(ks: seq<byte>, i: int): set<int>
    requires |ks| == 256
  {
    set b | 0 <= b < i && b < 256 && ks[b] != 0
  }

  /**
   * The state of `removeChild48`'s collection loop after the bytes below
   * `i`: `sk`, `sc` hold, in ascending byte order, each of those bytes that
   * has an index entry, and its child.
   */
  ghost predicate Collected<T(0)>(ks: seq<byte>, cs: seq<Node?<T>>, count: nat, i: int, sk: seq<byte>, sc: seq<Node?<T>>) {
    && |ks| == 256 && |cs| == 48 && (forall b :: 0 <= b < 256 ==> ks[b] <= 48)
    && count == |NonZero(ks)| && 0 <= i <= 256
    && |sk| == |sc| == |IndexedBelow(ks, i)|
    && StrictlyAscending(sk)
    && (forall j :: 0 <= j < |sk| ==> sk[j] < i && ks[sk[j]] != 0 && sc[j] == cs[ks[sk[j]] - 1])
    && (forall b :: 0 <= b < i && ks[b] != 0 ==> b in sk)
  }

  lemma CollectStart<T(0)>(ks: seq<byte>, cs: seq<Node?<T>>, count: nat)
    requires Index48(ks, cs, count)
    ensures Collected(ks, cs, count, 0, [], [])
  {
    assert IndexedBelow(ks, 0) == {};
  }

  /** A step of the collection loop at a byte without an index entry changes nothing. */
  lemma CollectSkip<T(0)>(ks: seq<byte>, cs: seq<Node?<T>>, count: nat, i: int, sk: seq<byte>, sc: seq<Node?<T>>)
    requires Collected(ks, cs, count, i, sk, sc) && i < 256 && ks[i] == 0
    ensures Collected(ks, cs, count, i + 1, sk, sc)
  {
    assert IndexedBelow(ks, i + 1) == IndexedBelow(ks, i);
  }

  /** A byte with an index entry adds one to the count of indexed bytes below the next one. */
  lemma IndexedBelowStep(ks: seq<byte>, i: int)
    requires |ks| == 256 && 0 <= i < 256 && ks[i] != 0
    ensures |IndexedBelow(ks, i + 1)| == |IndexedBelow(ks, i)| + 1 <= |NonZero(ks)|
  {
    assert IndexedBelow(ks, i + 1) == IndexedBelow(ks, i) + {i};
    SubsetCard(IndexedBelow(ks, i + 1), NonZero(ks));
  }

  lemma AscendingAppend(sk: seq<byte>, x: byte)
    requires StrictlyAscending(sk) && forall j :: 0 <= j < |sk| ==> sk[j] < x
    ensures StrictlyAscending(sk + [x])
  {
    var sk2 := sk + [x];
    forall a, a' | 0 <= a < a' < |sk2| ensures sk2[a] < sk2[a'] {
      assert sk2[a] == sk[a];
      if a' < |sk| {
        assert sk2[a'] == sk[a'];
      }
    }
  }

  /** Appending byte `i` and its child keeps every collected byte paired with the child its index entry names. */
  lemma AppendEntries<T(0)>(ks: seq<byte>, cs: seq<Node?<T>>, i: int, sk: seq<byte>, sc: seq<Node?<T>>)
    requires |ks| == 256 && |cs| == 48 && 0 <= i < 256 && 0 < ks[i] <= 48 && |sk| == |sc|
    requires forall j :: 0 <= j < |sk| ==> sk[j] < i && 0 < ks[sk[j]] <= 48 && sc[j] == cs[ks[sk[j]] - 1]
    ensures forall j :: 0 <= j < |sk| + 1 ==>
      (sk + [i])[j] < i + 1 && ks[(sk + [i])[j]] != 0 && (sc + [cs[ks[i] - 1]])[j] == cs[ks[(sk + [i])[j]] - 1]
  {
    var sk2, sc2 := sk + [i], sc + [cs[ks[i] - 1]];
    forall j | 0 <= j < |sk2| ensures sk2[j] < i + 1 && ks[sk2[j]] != 0 && sc2[j] == cs[ks[sk2[j]] - 1] {
      if j < |sk| {
        assert sk2[j] == sk[j] && sc2[j] == sc[j];
      }
    }
  }

  /** Appending byte `i` keeps every indexed byte below `i + 1` among the collected ones. */
  lemma AppendCovers(ks: seq<byte>, i: int, sk: seq<byte>)
    requires |ks| == 256 && 0 <= i < 256
    requires forall b :: 0 <= b < i && ks[b] != 0 ==> b in sk
    ensures forall b :: 0 <= b < i + 1 && ks[b] != 0 ==> b in sk + [i]
  {
    var sk2 := sk + [i];
    forall b | 0 <= b < i + 1 && ks[b] != 0 ensures b in sk2 {
      if b < i {
        assert b in sk;
      } else {
        assert sk2[|sk|] == b;
      }
    }
  }

  /** A step of the collection loop at a byte with an index entry appends the byte and its child. */
  lemma CollectTake<T(0)>(ks: seq<byte>, cs: seq<Node?<T>>, count: nat, i: int, sk: seq<byte>, sc: seq<Node?<T>>)
    requires Collected(ks, cs, count, i, sk, sc) && i < 256 && ks[i] != 0
    ensures |sk| < count && Collected(ks, cs, count, i + 1, sk + [i], sc + [cs[ks[i] - 1]])
  {
    IndexedBelowStep(ks, i);
    AscendingAppend(sk, i);
    AppendEntries(ks, cs, i, sk, sc);
    AppendCovers(ks, i, sk);
  }

  /**
   * Once every byte is visited, the collected storage holds all the
   * children and maps every byte as the index does.
   */
  lemma CollectDone<T(0)>(ks: seq<byte>, cs: seq<Node?<T>>, count: nat, sk: seq<byte>, sc: seq<Node?<T>>)
    requires Index48(ks, cs, count) && Collected(ks, cs, count, 256, sk, sc)
    ensures |sk| == count && null !in sc
    ensures forall b: byte :: SeqLookup(sk, sc, b) == Lookup48(ks, cs, b)
  {
    assert IndexedBelow(ks, 256) == NonZero(ks);
    forall b: byte ensures SeqLookup(sk, sc, b) == Lookup48(ks, cs, b) {
      var p := IndexOf(sk, b);
      if p < |sk| {
        assert sk[p] == b;
      }
    }
  }

  /**
   * The collection loop of `removeChild48`'s demotion: each byte with an
   * index entry, in ascending order, goes into the next position of `keys`
   * and its child into the same position of `children`.
   */
  method CollectInto<T(0)>(index: array<byte>, slots: array<Node?<T>>, count: nat, keys: array<byte>, children: array<Node?<T>>)
    requires Collected(index[..], slots[..], count, 0, [], []) && count <= 16
    requires keys.Length == 16 && children.Length == 16
    requires keys != index && children != slots
    modifies keys, children
    ensures Collected(index[..], slots[..], count, 256, keys[..count], children[..count])
  {
    ghost var ks, cs := index[..], slots[..];
    ghost var sk: seq<byte>, sc: seq<Node?<T>> := [], [];
    var child := 0;
    var i := 0;
    while i < 256
      invariant 0 <= i <= 256 && child == |sk| <= 16
      invariant index[..] == ks && slots[..] == cs
      invariant Collected(ks, cs, count, i, sk, sc)
      invariant forall j :: 0 <= j < child ==> keys[j] == sk[j] && children[j] == sc[j]
    {
      var pos := index[i];
      assert pos == ks[i];
      if pos != 0 {
        CollectTake(ks, cs, count, i, sk, sc);
        PutEntry(keys, children, child, sk, sc, i, slots[pos - 1]);
        sk, sc := sk + [i], sc + [cs[pos - 1]];
        child := child + 1;
      } else {
        CollectSkip(ks, cs, count, i, sk, sc);
      }
      i := i + 1;
    }
    assert IndexedBelow(ks, 256) == NonZero(ks);
    assert keys[..count] == sk && children[..count] == sc;
  }

  /** Appends one entry after the `at` entries already stored in `keys` and `children`. */
  method PutEntry<T(0)>(keys: array<byte>, children: array<Node?<T>>, at: nat, ghost sk: seq<byte>, ghost sc: seq<Node?<T>>, k: byte, c: Node?<T>)
    requires at == |sk| == |sc| < keys.Length == children.Length
    requires forall j :: 0 <= j < |sk| ==> keys[j] == sk[j] && children[j] == sc[j]
    modifies keys, children
    ensures forall j :: 0 <= j <= |sk| ==> keys[j] == (sk + [k])[j] && children[j] == (sc + [c])[j]
  {
    keys[at] := k;
    children[at] := c;
  }

  /**
   * The storage of `removeChild48`'s demotion: a fresh Node16 that receives,
   * in ascending byte order, each byte with an index entry and its child.
   */
  method Collect48<T(0)>(n: Node<T>) returns (m: Node<T>)
    requires n.WellFormed() && n.kind == Node48 && n.numChildren <= 16
    ensures fresh(m) && fresh(m.partial) && fresh(m.keys) && fresh(m.children)
    ensures m.WellFormed() && m.kind == Node16
    ensures StrictlyAscending(m.keys[..m.numChildren])
    ensures forall b: byte ::
      SeqLookup(m.keys[..m.numChildren], m.children[..m.numChildren], b) == Lookup48(n.keys[..], n.children[..], b)
    ensures m.numChildren == n.numChildren
    ensures m.partialLen == n.partialLen && m.Prefix() == n.Prefix()
  {
    m := new Node<T>.Alloc(Node16);
    CollectStart(n.keys[..], n.children[..], n.numChildren);
    CollectInto(n.keys, n.children, n.numChildren, m.keys, m.children);
    CollectDone(n.keys[..], n.children[..], n.numChildren, m.keys[..n.numChildren], m.children[..n.numChildren]);
    CopyHeader(m, n);
  }

  /** The child slots below `i` that hold a child. */
  ghost function UsedBelow<T(0)>(cs: seq<Node?<T>>, i: int): set<int>
    requires |cs| == 256
  {
    set b | 0 <= b < i && b < 256 && cs[b] != null
  }

  /**
   * The state of `removeChild256`'s packing loop after the slots below
   * `i`: each child among them went, in byte order, into the next of the
   * first `pos` slots of `cs48`, and the index entry of its byte points at
   * that slot.
   */
  ghost predicate Packed<T(0)>(cs: seq<Node?<T>>, i: int, ks48: seq<byte>, cs48: seq<Node?<T>>, pos: nat) {
    && |cs| == 256 && |ks48| == 256 && |cs48| == 48 && 0 <= i <= 256
    && pos == |UsedBelow(cs, i)| && pos <= 48
    && (forall b :: 0 <= b < 256 ==> ks48[b] <= pos)
    && (forall b :: 0 <= b < i ==> (ks48[b] != 0 <==> cs[b] != null))
    && (forall b :: 0 <= b < i && ks48[b] != 0 ==> cs48[ks48[b] - 1] == cs[b])
    && (forall b :: i <= b < 256 ==> ks48[b] == 0)
    && (forall s :: 0 <= s < 48 ==> (cs48[s] != null <==> s < pos))
    && (forall b, b' :: 0 <= b < b' < 256 && ks48[b] != 0 && ks48[b'] != 0 ==> ks48[b] < ks48[b'])
    && NonZero(ks48) == UsedBelow(cs, i)
  }

  lemma PackStart<T(0)>(cs: seq<Node?<T>>, ks48: seq<byte>, cs48: seq<Node?<T>>)
    requires |cs| == 256 && |ks48| == 256 && |cs48| == 48
    requires forall b :: 0 <= b < 256 ==> ks48[b] == 0
    requires forall s :: 0 <= s < 48 ==> cs48[s] == null
    ensures Packed(cs, 0, ks48, cs48, 0)
  {
    assert UsedBelow(cs, 0) == {};
    assert NonZero(ks48) == {};
  }

  /** A child in slot `i` of the packing loop takes the next free slot, which its byte's index entry then points at. */
  lemma PackTake<T(0)>(cs: seq<Node?<T>>, i: int, ks48: seq<byte>, cs48: seq<Node?<T>>, pos: nat)
    requires Packed(cs, i, ks48, cs48, pos) && i < 256 && |NonNull(cs)| <= 48
    requires cs[i] != null
    ensures pos < 48 && Packed(cs, i + 1, ks48[i := (pos + 1) as byte], cs48[pos := cs[i]], pos + 1)
  {
    assert UsedBelow(cs, i + 1) == UsedBelow(cs, i) + {i};
    SubsetCard(UsedBelow(cs, i + 1), NonNull(cs));
    var ks2 := ks48[i := (pos + 1) as byte];
    assert NonZero(ks2) == NonZero(ks48) + {i};
  }

  /** A nil slot `i` leaves the packed index and slots as they are. */
  lemma PackSkip<T(0)>(cs: seq<Node?<T>>, i: int, ks48: seq<byte>, cs48: seq<Node?<T>>, pos: nat)
    requires Packed(cs, i, ks48, cs48, pos) && i < 256
    requires cs[i] == null
    ensures Packed(cs, i + 1, ks48, cs48, pos)
  {
    assert UsedBelow(cs, i + 1) == UsedBelow(cs, i);
  }

  /**
   * Once every slot is visited, the packed index satisfies the Node48
   * invariant and maps every byte to the child the Node256 slot held.
   */
  lemma PackDone<T(0)>(cs: seq<Node?<T>>, ks48: seq<byte>, cs48: seq<Node?<T>>, pos: nat)
    requires Packed(cs, 256, ks48, cs48, pos)
    ensures pos == |NonNull(cs)|
    ensures Index48(ks48, cs48, pos)
    ensures forall b: byte :: Lookup48(ks48, cs48, b) == cs[b]
  {
    assert UsedBelow(cs, 256) == NonNull(cs);
    assert NonNull(cs48) == Range(pos);
  }

  /**
   * The packing loop of `removeChild256`'s demotion: each non-nil slot, in
   * byte order, goes into the next free slot of `slots` and its byte's
   * index entry becomes that slot + 1.
   */
  method PackInto<T(0)>(children: array<Node?<T>>, index: array<byte>, slots: array<Node?<T>>) returns (pos: nat)
    requires children.Length == 256 && |NonNull(children[..])| <= 48
    requires Packed(children[..], 0, index[..], slots[..], 0)
    requires slots != children
    modifies index, slots
    ensures Packed(children[..], 256, index[..], slots[..], pos)
  {
    ghost var cs := children[..];
    pos := 0;
    var i := 0;
    while i < 256
      invariant 0 <= i <= 256
      invariant children[..] == cs
      invariant Packed(cs, i, index[..], slots[..], pos)
    {
      if children[i] != null {
        ghost var ks48, cs48 := index[..], slots[..];
        PackTake(cs, i, ks48, cs48, pos);
        slots[pos] := children[i];
        index[i] := pos + 1;
        assert index[..] == ks48[i := (pos + 1) as byte] && slots[..] == cs48[pos := cs[i]];
        pos := pos + 1;
      } else {
        PackSkip(cs, i, index[..], slots[..], pos);
      }
      i := i + 1;
    }
  }

  /**
   * The storage of `removeChild256`'s demotion: a fresh Node48 that
   * receives the children in byte order into consecutive slots, with the
   * index entry of each byte pointing at its slot.
   */
  method Pack256<T(0)>(n: Node<T>) returns (m: Node<T>)
    requires n.WellFormed() && n.kind == Node256 && n.numChildren <= 48
    ensures fresh(m) && fresh(m.partial) && fresh(m.keys) && fresh(m.children)
    ensures m.WellFormed() && m.kind == Node48
    ensures forall b: byte :: Lookup48(m.keys[..], m.children[..], b) == n.children[b]
    ensures m.numChildren == n.numChildren
    ensures m.partialLen == n.partialLen && m.Prefix() == n.Prefix()
  {
    m := new Node<T>.Alloc(Node48);
    CopyHeader(m, n);
    PackStart(n.children[..], m.keys[..], m.children[..]);
    var pos := PackInto(n.children, m.keys, m.children);
    PackDone(n.children[..], m.keys[..], m.children[..], pos);
  }

  /** A Node16 whose storage reproduces a Node48's index maps every byte alike. */
  lemma SortedLikeIndexed<T(0)>(n: Node<T>, m: Node<T>)
    requires n.WellFormed() && n.kind == Node48 && m.WellFormed() && m.kind == Node16
    requires forall b: byte ::
      SeqLookup(m.keys[..m.numChildren], m.children[..m.numChildren], b) == Lookup48(n.keys[..], n.children[..], b)
    ensures forall b: byte :: m.Lookup(b) == n.Lookup(b)
  {
  }

  /** A Node48 whose index reproduces a Node256's slots maps every byte alike. */
  lemma IndexedLikeSlots<T(0)>(n: Node<T>, m: Node<T>)
    requires n.WellFormed() && n.kind == Node256 && m.WellFormed() && m.kind == Node48
    requires forall b: byte :: Lookup48(m.keys[..], m.children[..], b) == n.children[b]
    ensures forall b: byte :: m.Lookup(b) == n.Lookup(b)
  {
  }

  /** The demotion step of `removeChild16`: a fresh Node4 holding the Node16's children. */
  method Shrink16To4<T(0)>(n: Node<T>) returns (m: Node<T>)
    requires n.Valid() && n.kind == Node16 && n.numChildren <= 4
    ensures fresh(m) && fresh(m.partial) && fresh(m.keys) && fresh(m.children)
    ensures m.Valid() && m.kind == Node4
    ensures forall b: byte :: m.Lookup(b) == n.Lookup(b)
    ensures m.numChildren == n.numChildren
    ensures m.partialLen == n.partialLen && m.Prefix() == n.Prefix()
    ensures m.Repr == {m, m.partial, m.keys, m.children} + (n.Repr - {n, n.partial, n.keys, n.children})
    ensures fresh(m.Repr - n.Repr)
  {
    m := Copy16To4(n);
    m.Repr := {m, m.partial, m.keys, m.children} + (n.Repr - {n, n.partial, n.keys, n.children});
    AdoptChildren(n, m);
  }

  /**
   * The demotion step of `removeChild48`: a fresh Node16 holding the
   * Node48's children with its keys in ascending order.
   */
  method Shrink48To16<T(0)>(n: Node<T>) returns (m: Node<T>)
    requires n.Valid() && n.kind == Node48 && n.numChildren <= 16
    ensures fresh(m) && fresh(m.partial) && fresh(m.keys) && fresh(m.children)
    ensures m.Valid() && m.kind == Node16
    ensures StrictlyAscending(m.keys[..m.numChildren])
    ensures forall b: byte :: m.Lookup(b) == n.Lookup(b)
    ensures m.numChildren == n.numChildren
    ensures m.partialLen == n.partialLen && m.Prefix() == n.Prefix()
    ensures m.Repr == {m, m.partial, m.keys, m.children} + (n.Repr - {n, n.partial, n.keys, n.children})
    ensures fresh(m.Repr - n.Repr)
  {
    m := Collect48(n);
    SortedLikeIndexed(n, m);
    m.Repr := {m, m.partial, m.keys, m.children} + (n.Repr - {n, n.partial, n.keys, n.children});
    AdoptChildren(n, m);
  }

  /** The demotion step of `removeChild256`: a fresh Node48 holding the Node256's children. */
  method Shrink256To48<T(0)>(n: Node<T>) returns (m: Node<T>)
    requires n.Valid() && n.kind == Node256 && n.numChildren <= 48
    ensures fresh(m) && fresh(m.partial) && fresh(m.keys) && fresh(m.children)
    ensures m.Valid() && m.kind == Node48
    ensures forall b: byte :: m.Lookup(b) == n.Lookup(b)
    ensures m.numChildren == n.numChildren
    ensures m.partialLen == n.partialLen && m.Prefix() == n.Prefix()
    ensures m.Repr == {m, m.partial, m.keys, m.children} + (n.Repr - {n, n.partial, n.keys, n.children})
    ensures fresh(m.Repr - n.Repr)
  {
    m := Pack256(n);
    IndexedLikeSlots(n, m);
    m.Repr := {m, m.partial, m.keys, m.children} + (n.Repr - {n, n.partial, n.keys, n.children});
    AdoptChildren(n, m);
  }

  /** `RemoveAt` on a valid node: it stays valid over the same footprint. */
  method DetachSorted<T(0)>(n: Node<T>, pos: nat)
    requires n.Valid() && (n.kind == Node4 || n.kind == Node16) && pos < n.numChildren
    modifies n, n.keys, n.children
    ensures n.Valid() && n.kind == old(n.kind) && n.Repr == old(n.Repr)
    ensures forall b: byte :: n.Lookup(b) == if b == old(n.keys[pos]) then null else old(n.Lookup(b))
    ensures n.numChildren == old(n.numChildren) - 1
    ensures n.partial == old(n.partial) && n.partialLen == old(n.partialLen)
    ensures n.keys == old(n.keys) && n.children == old(n.children)
  {
    RemoveAt(n, pos);
    forall b: byte | n.Lookup(b) != null
      ensures n.OwnsChild(n.Lookup(b))
    {
      assert old(n.OwnsChild(n.Lookup(b)));
    }
  }

  /** `Clear48` on a valid node: it stays valid over the same footprint. */
  method Detach48<T(0)>(n: Node<T>, c: byte)
    requires n.Valid() && n.kind == Node48 && n.Lookup(c) != null
    modifies n, n.keys, n.children
    ensures n.Valid() && n.kind == Node48 && n.Repr == old(n.Repr)
    ensures forall b: byte :: n.Lookup(b) == if b == c then null else old(n.Lookup(b))
    ensures n.numChildren == old(n.numChildren) - 1
    ensures n.partial == old(n.partial) && n.partialLen == old(n.partialLen)
    ensures n.keys == old(n.keys) && n.children == old(n.children)
  {
    Clear48(n, c);
    forall b: byte | n.Lookup(b) != null
      ensures n.OwnsChild(n.Lookup(b))
    {
      assert old(n.OwnsChild(n.Lookup(b)));
    }
  }

  /** `Clear256` on a valid node: it stays valid over the same footprint. */
  method Detach256<T(0)>(n: Node<T>, c: byte)
    requires n.Valid() && n.kind == Node256 && n.Lookup(c) != null
    modifies n, n.children
    ensures n.Valid() && n.kind == Node256 && n.Repr == old(n.Repr)
    ensures forall b: byte :: n.Lookup(b) == if b == c then null else old(n.Lookup(b))
    ensures n.numChildren == old(n.numChildren) - 1
    ensures n.partial == old(n.partial) && n.partialLen == old(n.partialLen)
    ensures n.keys == old(n.keys) && n.children == old(n.children)
  {
    Clear256(n, c);
    forall b: byte | n.Lookup(b) != null
      ensures n.OwnsChild(n.Lookup(b))
    {
      assert old(n.OwnsChild(n.Lookup(b)));
    }
  }

  /**
   * `removeChild16`: the child for `c` is removed; a Node16 left with 3
   * children is demoted to a Node4.
   */
  method RemoveChild16<T(0)>(n: Node<T>, c: byte) returns (r: Node<T>)
    requires n.Valid() && n.kind == Node16 && n.Lookup(c) != null
    modifies n, n.keys, n.children
    ensures r.Valid()
    ensures forall b: byte :: r.Lookup(b) == if b == c then null else old(n.Lookup(b))
    ensures r.numChildren == old(n.numChildren) - 1
    ensures r.partialLen == old(n.partialLen) && r.Prefix() == old(n.Prefix())
    ensures old(n.numChildren) - 1 == 3 ==> fresh(r) && r.kind == Node4
    ensures old(n.numChildren) - 1 != 3 ==> r == n && r.kind == Node16
    ensures fresh(r.Repr - old(n.Repr))
    ensures n.keys == old(n.keys) && n.children == old(n.children) && n.partial == old(n.partial)
  {
    var slot := FindChild(n, c);
    DetachSorted(n, slot.value);
    assert forall b: byte :: n.Lookup(b) == if b == c then null else old(n.Lookup(b));
    if n.numChildren == 3 {
      r := Shrink16To4(n);
    } else {
      r := n;
    }
  }

  /**
   * `removeChild48`: the index entry of `c` and its slot are cleared; a
   * Node48 left with 12 children is demoted to a Node16.
   */
  method RemoveChild48<T(0)>(n: Node<T>, c: byte) returns (r: Node<T>)
    requires n.Valid() && n.kind == Node48 && n.Lookup(c) != null
    modifies n, n.keys, n.children
    ensures r.Valid()
    ensures forall b: byte :: r.Lookup(b) == if b == c then null else old(n.Lookup(b))
    ensures r.numChildren == old(n.numChildren) - 1
    ensures r.partialLen == old(n.partialLen) && r.Prefix() == old(n.Prefix())
    ensures old(n.numChildren) - 1 == 12 ==> fresh(r) && r.kind == Node16
    ensures old(n.numChildren) - 1 != 12 ==> r == n && r.kind == Node48
    ensures fresh(r.Repr - old(n.Repr))
    ensures n.keys == old(n.keys) && n.children == old(n.children) && n.partial == old(n.partial)
  {
    Detach48(n, c);
    if n.numChildren == 12 {
      r := Shrink48To16(n);
    } else {
      r := n;
    }
  }

  /**
   * `removeChild256`: the slot of `c` is cleared; a Node256 left with 37
   * children is demoted to a Node48.
   */
  method RemoveChild256<T(0)>(n: Node<T>, c: byte) returns (r: Node<T>)
    requires n.Valid() && n.kind == Node256 && n.Lookup(c) != null
    modifies n, n.children
    ensures r.Valid()
    ensures forall b: byte :: r.Lookup(b) == if b == c then null else old(n.Lookup(b))
    ensures r.numChildren == old(n.numChildren) - 1
    ensures r.partialLen == old(n.partialLen) && r.Prefix() == old(n.Prefix())
    ensures old(n.numChildren) - 1 == 37 ==> fresh(r) && r.kind == Node48
    ensures old(n.numChildren) - 1 != 37 ==> r == n && r.kind == Node256
    ensures fresh(r.Repr - old(n.Repr))
    ensures n.keys == old(n.keys) && n.children == old(n.children) && n.partial == old(n.partial)
  {
    Detach256(n, c);
    if n.numChildren == 37 {
      r := Shrink256To48(n);
    } else {
      r := n;
    }
  }

  /**
   * The prefix concatenation of `removeChild4`'s collapse, on the parent's
   * prefix buffer: the byte `k` follows the parent's stored prefix, then as
   * much of the child's stored prefix as fits; the result is the first
   * `length` bytes of the buffer.
   */
  method ConcatInto(buf: array<byte>, len: nat, k: byte, sub: array<byte>, subLen: nat) returns (length: nat)
    requires buf.Length == MaxPrefixLen && sub.Length == MaxPrefixLen && buf != sub
    modifies buf
    ensures length == Min(len + subLen + 1, MaxPrefixLen)
    ensures buf[..length]
      == (old(buf[..Min(len, MaxPrefixLen)]) + [k] + sub[..Min(subLen, MaxPrefixLen)])[..length]
  {
    ghost var stored := Min(len, MaxPrefixLen);
    ghost var target := buf[..stored] + [k] + sub[..Min(subLen, MaxPrefixLen)];
    var prefix := len;
    if prefix < MaxPrefixLen {
      buf[prefix] := k;
      prefix := prefix + 1;
    }
    assert forall i | 0 <= i < Min(prefix, MaxPrefixLen) :: buf[i] == target[i];
    if prefix < MaxPrefixLen {
      var subPrefix := Min(subLen, MaxPrefixLen - prefix);
      forall i | 0 <= i < subPrefix {
        buf[prefix + i] := sub[i];
      }
      assert forall i | prefix <= i < prefix + subPrefix :: buf[i] == sub[i - prefix] == target[i];
      prefix := prefix + subPrefix;
    }
    length := Min(prefix, MaxPrefixLen);
    assert length == Min(len + subLen + 1, MaxPrefixLen);
    assert buf[..length] == target[..length];
  }

  /**
   * The prefix concatenation of `removeChild4`'s collapse: `n.partial` is
   * scratch space that receives n's prefix, the byte `n.keys[0]` and as much
   * of the child's prefix as fits; its first bytes are copied into the
   * child's prefix, and the child's logical prefix length grows by n's
   * plus one.
   */
  method ConcatPrefix<T(0)>(n: Node<T>, child: Node<T>)
    requires n != child && n.keys.Length > 0
    requires n.partial.Length == MaxPrefixLen && child.partial.Length == MaxPrefixLen
    requires n.partial != child.partial && n.keys != n.partial && n.keys != child.partial
    modifies n.partial, child`partialLen, child.partial
    ensures child.partialLen == old(child.partialLen) + n.partialLen + 1
    ensures child.Prefix() == (old(n.Prefix()) + [n.keys[0]] + old(child.Prefix()))[..Min(child.partialLen, MaxPrefixLen)]
  {
    ghost var target := n.Prefix() + [n.keys[0]] + child.Prefix();
    var length := ConcatInto(n.partial, n.partialLen, n.keys[0], child.partial, child.partialLen);
    assert n.partial[..length] == target[..length];
    forall i | 0 <= i < length {
      child.partial[i] := n.partial[i];
    }
    child.partialLen := child.partialLen + n.partialLen + 1;
    assert child.Prefix() == n.partial[..length];
  }

  /** `ConcatPrefix` on a child of a valid node: the child stays a valid subtree with the same children. */
  method MergePrefix<T(0)>(n: Node<T>, child: Node<T>)
    requires n.Valid() && n.OwnsChild(child) && n.keys.Length > 0
    modifies n.partial, child`partialLen, child.partial
    ensures child.Valid() && child.Populated() && child.Repr == old(child.Repr)
    ensures forall b: byte :: child.Lookup(b) == old(child.Lookup(b))
    ensures child.partialLen == old(child.partialLen) + n.partialLen + 1
    ensures child.Prefix() == (old(n.Prefix()) + [n.keys[0]] + old(child.Prefix()))[..Min(child.partialLen, MaxPrefixLen)]
  {
    ConcatPrefix(n, child);
    forall b: byte | child.Lookup(b) != null
      ensures child.OwnsChild(child.Lookup(b))
    {
      assert old(child.OwnsChild(child.Lookup(b)));
    }
  }

  /**
   * The collapse of `removeChild4` once one child is left: the node is
   * replaced by its only child; an inner child first takes n's prefix and
   * the child's key byte in front of its own prefix, while a leaf is taken
   * as it is.
   */
  method Collapse4<T(0)>(n: Node<T>) returns (r: Node<T>)
    requires n.Valid() && n.kind == Node4 && n.numChildren == 1
    modifies n.partial, (n.children[0] as Node<T>)`partialLen, n.children[0].partial
    ensures unchanged(n) && unchanged(old(n.keys), old(n.children))
    ensures r == old(n.children[0]) == old(n.Lookup(n.keys[0])) && old(n.OwnsChild(r))
    ensures r.Valid() && r.kind == old(r.kind) && r.Repr == old(r.Repr)
    ensures forall b: byte :: r.Lookup(b) == old(r.Lookup(b))
    ensures r.kind == Leaf ==> unchanged(r) && unchanged(r.partial)
    ensures r.kind != Leaf ==>
      && r.partialLen == old(r.partialLen) + old(n.partialLen) + 1
      && r.Prefix() == (old(n.Prefix()) + [n.keys[0]] + old(r.Prefix()))[..Min(r.partialLen, MaxPrefixLen)]
  {
    var child := n.children[0];
    assert n.Lookup(n.keys[0]) == child;
    assert n.OwnsChild(child) && child.partial in child.Repr;
    if child.kind != Leaf {
      MergePrefix(n, child);
    }
    r := child;
  }

  /** The key of a two-child Node4 other than `c`. */
  ghost function OtherKey<T(0)>(n: Node<T>, c: byte): byte
    reads n`keys, n.keys
    requires n.keys.Length >= 2
  {
    if n.keys[0] == c then n.keys[1] else n.keys[0]
  }

  /**
   * `removeChild4`: the child for `c` is removed. A Node4 left with one
   * child is replaced by that child; an inner child first takes n's prefix
   * and the child's key byte in front of its own prefix, while a leaf is
   * taken as it is.
   */
  method RemoveChild4<T(0)>(n: Node<T>, c: byte) returns (r: Node<T>)
    requires n.Valid() && n.kind == Node4 && n.Lookup(c) != null
    modifies n.Repr
    ensures r.Valid()
    ensures n.WellFormed() && n.numChildren == old(n.numChildren) - 1
    ensures forall b: byte :: n.Lookup(b) == if b == c then null else old(n.Lookup(b))
    ensures old(n.numChildren) != 2 ==> r == n && r.kind == Node4 && r.partialLen == old(n.partialLen) && r.Prefix() == old(n.Prefix())
    ensures old(n.numChildren) == 2 ==>
      var k := old(OtherKey(n, c));
      && k != c && r == old(n.Lookup(k)) && old(n.OwnsChild(r))
      && r.kind == old(r.kind) && r.Repr == old(r.Repr)
      && (forall b: byte :: r.Lookup(b) == old(r.Lookup(b)))
      && (r.kind == Leaf ==> unchanged(r) && unchanged(r.partial))
      && (r.kind != Leaf ==>
            && r.partialLen == old(r.partialLen) + old(n.partialLen) + 1
            && r.Prefix() == (old(n.Prefix()) + [k] + old(r.Prefix()))[..Min(r.partialLen, MaxPrefixLen)])
    ensures fresh(r.Repr - old(n.Repr))
    ensures forall o: object :: o in old(n.Repr) && o !in {n, n.keys, n.children, n.partial, r, r.partial} ==> unchanged(o)
  {
    ghost var ks := n.keys[..n.numChildren];
    var slot := FindChild(n, c);
    DetachSorted(n, slot.value);
    if n.numChildren == 1 {
      ghost var k := n.keys[0];
      assert k != c && n.Lookup(k) == old(n.Lookup(k)) != null;
      assert k == old(OtherKey(n, c)) by {
        assert k in ks && c in ks && ks[0] < ks[1];
      }
      r := Collapse4(n);
    } else {
      r := n;
    }
  }

  /**
   * `removeChild`: dispatches on the node kind. Unless a two-child Node4
   * collapses into its other child, the node that takes `n`'s place holds
   * every child `n` held except the one for `c` and keeps the header; it
   * is a fresh node of the next smaller kind exactly when the count drops
   * to the kind's threshold, and `n` itself otherwise.
   */
  method RemoveChild<T(0)>(n: Node<T>, c: byte) returns (r: Node<T>)
    requires n.Valid() && n.kind != Leaf && n.Lookup(c) != null
    modifies n.Repr
    ensures r.Valid()
    ensures !(old(n.kind) == Node4 && old(n.numChildren) == 2) ==>
      && (forall b: byte :: r.Lookup(b) == if b == c then null else old(n.Lookup(b)))
      && r.numChildren == old(n.numChildren) - 1
      && r.partialLen == old(n.partialLen) && r.Prefix() == old(n.Prefix())
      && (old(n.numChildren) - 1 == ShrinkAt(old(n.kind)) ==> fresh(r) && r.kind == Shrunk(old(n.kind)))
      && (old(n.numChildren) - 1 != ShrinkAt(old(n.kind)) ==> r == n && r.kind == old(n.kind))
    ensures old(n.kind) == Node4 && old(n.numChildren) == 2 ==>
      var k := old(OtherKey(n, c));
      && k != c && r == old(n.Lookup(k)) && old(n.OwnsChild(r))
      && r.kind == old(r.kind) && r.Repr == old(r.Repr)
      && (forall b: byte :: r.Lookup(b) == old(r.Lookup(b)))
      && (r.kind == Leaf ==> unchanged(r) && unchanged(r.partial))
      && (r.kind != Leaf ==>
            && r.partialLen == old(r.partialLen) + old(n.partialLen) + 1
            && r.Prefix() == (old(n.Prefix()) + [k] + old(r.Prefix()))[..Min(r.partialLen, MaxPrefixLen)])
    ensures fresh(r.Repr - old(n.Repr))
    ensures forall o: object :: o in old(n.Repr) && o !in {n, n.keys, n.children, n.partial, r, r.partial} ==> unchanged(o)
  {
    match n.kind
    case Node4 => r := RemoveChild4(n, c);
    case Node16 => r := RemoveChild16(n, c);
    case Node48 => r := RemoveChild48(n, c);
    case Node256 => r := RemoveChild256(n, c);
  }
}
