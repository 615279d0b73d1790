/**
 * The node representation of the adaptive radix tree
 * (internal/radix/adaptive/helpers.go): one class for the five node kinds,
 * the per-kind storage invariants, the byte -> child abstraction `Lookup`,
 * allocation, header copy, child lookup and leaf comparison.
 */
module ArtNode {
  import opened Bytes

  /**
   * `maxPrefixLen`: how many prefix bytes a node stores explicitly. Its value
   * is declared in a file that is not part of this model; the proofs only use
   * that it is positive.
   */
  const MaxPrefixLen: nat := 10

  datatype Kind = Leaf | Node4 | Node16 | Node48 | Node256

  /** Length of the `keys` array of each kind (Node48's is the byte index). */
  function KeySlots(k: Kind): nat {
    match k
    case Node4 => 4
    case Node16 => 16
    case Node48 => 256
    case _ => 0
  }

  /** Length of the `children` array of each kind. */
  function ChildSlots(k: Kind): nat {
    match k
    case Leaf => 0
    case Node4 => 4
    case Node16 => 16
    case Node48 => 48
    case Node256 => 256
  }

  predicate StrictlyAscending(s: seq<byte>) {
    forall i, j :: 0 <= i < j < |s| ==> s[i] < s[j]
  }

  /** First position of `c` in `s`, or `|s|`. */
  function IndexOf(s: seq<byte>, c: byte): (r: nat)
    ensures r <= |s|
    ensures r < |s| ==> s[r] == c
    ensures r == |s| <==> c !in s
    ensures forall j :: 0 <= j < r ==> s[j] != c
  {
    if s == [] then 0
    else if s[0] == c then 0
    else 1 + IndexOf(s[1..], c)
  }

  /** The child paired with the first occurrence of `c` in parallel key and child sequences. */
  ghost function SeqLookup<T(0)>(ks: seq<byte>, cs: seq<Node?<T>>, c: byte): Node?<T>
    requires |ks| <= |cs|
  {
    var i := IndexOf(ks, c);
    if i < |ks| then cs[i] else null
  }

  /** Positions of the non-zero entries of an index. */
  ghost function NonZero(ks: seq<byte>): set<int> {
    set b | 0 <= b < |ks| && ks[b] != 0
  }

  /** Setting one unused index entry adds exactly its position to the used ones. */
  lemma NonZeroSet(ks: seq<byte>, p: int, v: byte)
    requires 0 <= p < |ks| && ks[p] == 0 && v != 0
    ensures NonZero(ks[p := v]) == NonZero(ks) + {p}
    ensures |NonZero(ks[p := v])| == |NonZero(ks)| + 1
  {
    assert NonZero(ks[p := v]) == NonZero(ks) + {p};
  }

  /** Positions of the non-nil child slots. */
  ghost function NonNull<T(0)>(cs: seq<Node?<T>>): set<int> {
    set s | 0 <= s < |cs| && cs[s] != null
  }

  /**
   * Node48's storage invariant: each non-zero index entry is a slot + 1 that
   * holds a child, no two bytes share a slot, and `count` is both the number
   * of indexed bytes and the number of occupied slots.
   */
  ghost predicate Index48<T(0)>(ks: seq<byte>, cs: seq<Node?<T>>, count: nat) {
    && |ks| == 256 && |cs| == 48
    && (forall b :: 0 <= b < 256 ==> ks[b] <= 48)
    && (forall b :: 0 <= b < 256 && ks[b] != 0 ==> cs[ks[b] - 1] != null)
    && (forall b, b' :: 0 <= b < 256 && 0 <= b' < 256 && ks[b] != 0 && ks[b] == ks[b'] ==> b == b')
    && count == |NonZero(ks)|
    && count == |NonNull(cs)|
  }

  /** Node48's lookup: through the index entry, 0 meaning no child. */
  ghost function Lookup48<T(0)>(ks: seq<byte>, cs: seq<Node?<T>>, c: byte): Node?<T>
    requires |ks| == 256 && |cs| == 48 && forall b :: 0 <= b < 256 ==> ks[b] <= 48
  {
    if ks[c] == 0 then null else cs[ks[c] - 1]
  }

  function Min(a: int, b: int): int {
    if a < b then a else b
  }

  function Max(a: int, b: int): int {
    if a < b then b else a
  }

  class Node<T(0)> {
    var kind: Kind
    /** Header: the explicitly stored prefix bytes (always MaxPrefixLen long). */
    var partial: array<byte>
    /** Header: the logical prefix length; may exceed MaxPrefixLen. */
    var partialLen: nat
    var numChildren: nat
    /** Node4/Node16: sorted key bytes; Node48: byte -> slot + 1 (0 = unused). */
    var keys: array<byte>
    var children: array<Node?<T>>
    /** Leaf payload. */
    var key: seq<byte>
    var value: T
    ghost var Repr: set<object>

    /** The bytes of `partial` that are meaningful: the first min(partialLen, MaxPrefixLen). */
    ghost function Prefix(): seq<byte>
      reads this`partial, this`partialLen, partial
      requires partial.Length == MaxPrefixLen
    {
      partial[..Min(partialLen, MaxPrefixLen)]
    }

    /** Bytes with an entry in Node48's index. */
    ghost function UsedKeys(): set<int>
      reads this`keys, keys
    {
      NonZero(keys[..])
    }

    /** Occupied child slots. */
    ghost function UsedSlots(): set<int>
      reads this`children, children
    {
      NonNull(children[..])
    }

    /** The storage invariant of one node, without looking at its children. */
    ghost predicate WellFormed()
      reads this`kind, this`partial, this`numChildren, this`keys, this`children, keys, children
    {
      && partial.Length == MaxPrefixLen
      && keys.Length == KeySlots(kind)
      && children.Length == ChildSlots(kind)
      && partial != keys
      && match kind
         case Leaf => numChildren == 0
         case Node4 => SortedStorage()
         case Node16 => SortedStorage()
         case Node48 => Index48(keys[..], children[..], numChildren)
         case Node256 => numChildren == |UsedSlots()|
    }

    /** Node4/Node16: the first numChildren keys ascend strictly and have children. */
    ghost predicate SortedStorage()
      reads this`numChildren, this`keys, this`children, keys, children
    {
      && numChildren <= keys.Length == children.Length
      && StrictlyAscending(keys[..numChildren])
      && null !in children[..numChildren]
    }

    /** The abstraction of an inner node: the child stored for byte `c`, or null. */
    ghost function Lookup(c: byte): (r: Node?<T>)
      reads this`kind, this`partial, this`numChildren, this`keys, this`children, keys, children
      requires WellFormed()
      ensures kind == Node4 || kind == Node16 ==>
        && (r != null <==> c in keys[..numChildren])
        && forall i :: 0 <= i < numChildren && keys[i] == c ==> r == children[i]
    {
      match kind
      case Leaf => null
      case Node4 => SortedLookup(c)
      case Node16 => SortedLookup(c)
      case Node48 => Lookup48(keys[..], children[..], c)
      case Node256 => children[c]
    }

    ghost function SortedLookup(c: byte): (r: Node?<T>)
      reads this`kind, this`partial, this`numChildren, this`keys, this`children, keys, children
      requires WellFormed() && (kind == Node4 || kind == Node16)
      ensures r != null <==> c in keys[..numChildren]
      ensures forall i :: 0 <= i < numChildren && keys[i] == c ==> r == children[i]
    {
      SeqLookup(keys[..numChildren], children[..numChildren], c)
    }

    /** The bytes that have a child. */
    ghost function Occupied(): set<int>
      reads this`kind, this`partial, this`numChildren, this`keys, this`children, keys, children
      requires WellFormed()
    {
      set b: byte | Lookup(b) != null
    }

    /** A leaf, or an inner node with at least one child. */
    ghost predicate Populated()
      reads this`kind, this`numChildren
    {
      kind == Leaf || numChildren > 0
    }

    /**
     * The object invariant of a subtree: every node is well formed, every
     * child is a populated valid subtree that owns its own footprint, and no
     * child's footprint reaches back to its parent. The footprints of two
     * sibling children are not required to be disjoint: the trees the
     * source builds are trees, but no operation modelled here needs that,
     * so the invariant also admits shared subtrees.
     */
    ghost predicate Valid()
      reads this, Repr
      ensures Valid() ==> this in Repr && partial in Repr && keys in Repr && children in Repr && WellFormed()
      decreases Repr, 1
    {
      && this in Repr && partial in Repr && keys in Repr && children in Repr
      && WellFormed()
      && forall c: byte {:trigger Lookup(c)} :: Lookup(c) != null ==> OwnsChild(Lookup(c))
    }

    /** `x` is a child this node may hold: inside the footprint and separate from this node. */
    ghost predicate OwnsChild(x: Node<T>)
      reads this, Repr
      decreases Repr, 0
    {
      && this in Repr && x in Repr && x.Repr <= Repr && this !in x.Repr
      && partial !in x.Repr && keys !in x.Repr && children !in x.Repr
      && x.Valid() && x.Populated()
    }

    /** `allocNode`: a node of kind `k` with a zero-filled prefix and no children. */
    constructor Alloc(k: Kind)
      ensures kind == k && numChildren == 0
      ensures partialLen == MaxPrefixLen && partial[..] == seq(MaxPrefixLen, _ => 0)
      ensures key == []
      ensures fresh(Repr) && Repr == {this, partial, keys, children}
      ensures Valid() && forall c: byte :: Lookup(c) == null
      ensures forall i :: 0 <= i < keys.Length ==> keys[i] == 0
      ensures forall i :: 0 <= i < children.Length ==> children[i] == null
    {
      kind := k;
      partial := new byte[MaxPrefixLen](_ => 0);
      partialLen := MaxPrefixLen;
      numChildren := 0;
      keys := new byte[KeySlots(k)](_ => 0);
      children := new Node?<T>[ChildSlots(k)](_ => null);
      key := [];
      new;
      Repr := {this, partial, keys, children};
      assert UsedKeys() == {};
      assert UsedSlots() == {};
      assert WellFormed();
      assert forall c: byte :: Lookup(c) == null;
    }
  }

  /** `makeLeaf`: a fresh leaf holding a copy of `key` and the value. */
  method MakeLeaf<T(0)>(key: seq<byte>, value: T) returns (l: Node<T>)
    ensures fresh(l) && fresh(l.Repr)
    ensures l.Valid() && l.kind == Leaf && l.key == key && l.value == value
  {
    l := new Node.Alloc(Leaf);
    l.value := value;
    l.key := key;
  }

  /**
   * `leafMatches`: 0 exactly when the leaf holds `key` and `keyLen` is its
   * length; otherwise 1 for a length mismatch or the sign of `bytes.Compare`.
   */
  function LeafMatches<T(0)>(l: Node<T>, key: seq<byte>, keyLen: int): (r: int)
    reads l
    requires l.kind == Leaf
    ensures -1 <= r <= 1
    ensures r == 0 <==> l.key == key && keyLen == |key|
  {
    if |l.key| != keyLen then 1 else Compare(l.key, key)
  }

  /**
   * `copyHeader`: copies the child count, the logical prefix length and the
   * meaningful prefix bytes from `src` to `dest`; the rest of `dest.partial`
   * keeps its bytes.
   */
  method CopyHeader<T(0)>(dest: Node<T>, src: Node<T>)
    requires dest != src && dest.partial != src.partial
    requires dest.partial.Length == MaxPrefixLen && src.partial.Length == MaxPrefixLen
    modifies dest`numChildren, dest`partialLen, dest.partial
    ensures dest.numChildren == src.numChildren && dest.partialLen == src.partialLen
    ensures dest.Prefix() == src.Prefix()
    ensures var n := Min(MaxPrefixLen, src.partialLen);
      dest.partial[n..] == old(dest.partial[n..])
  {
    dest.numChildren := src.numChildren;
    dest.partialLen := src.partialLen;
    var length := Min(MaxPrefixLen, src.partialLen);
    forall i | 0 <= i < length {
      dest.partial[i] := src.partial[i];
    }
  }

  /** Go's `copy(dst, src[:count])`: the first `count` elements of `dst` become those of `src`, the rest stay. */
  method CopyPrefix<X>(src: array<X>, dst: array<X>, count: nat)
    requires count <= src.Length && count <= dst.Length && src != dst
    modifies dst
    ensures dst[..count] == src[..count]
    ensures forall j :: count <= j < dst.Length ==> dst[j] == old(dst[j])
  {
    forall i | 0 <= i < count {
      dst[i] := src[i];
    }
  }

  /** `child` may be hung below `n`: a populated valid subtree whose footprint avoids `n`'s own objects. */
  ghost predicate Attachable<T(0)>(n: Node<T>, child: Node<T>)
    reads n, child, child.Repr
  {
    && child.Valid() && child.Populated()
    && n !in child.Repr && n.partial !in child.Repr && n.keys !in child.Repr && n.children !in child.Repr
  }

  /**
   * A freshly built node that holds exactly the children of `n` is valid
   * once its footprint is its own objects plus the footprints of those
   * children.
   */
  lemma AdoptChildren<T(0)>(n: Node<T>, m: Node<T>)
    requires n.Valid() && m.WellFormed()
    requires m !in n.Repr && m.partial !in n.Repr && m.keys !in n.Repr && m.children !in n.Repr
    requires m.Repr == {m, m.partial, m.keys, m.children} + (n.Repr - {n, n.partial, n.keys, n.children})
    requires forall b: byte :: m.Lookup(b) == n.Lookup(b)
    ensures m.Valid()
  {
    forall b: byte | m.Lookup(b) != null
      ensures m.OwnsChild(m.Lookup(b))
    {
      assert n.OwnsChild(n.Lookup(b));
    }
  }
}
