/**
 * The key codec of the adaptive radix tree (internal/radix/adaptive/helpers.go):
 * an application key is stored with one terminator byte appended, and the
 * terminator is stripped again when a key is handed back.
 */
module Codec {
  import opened Bytes

  /** The terminator byte, `'$'`. */
  const Terminator: byte := 36

  /** `getTreeKey`: the key followed by the terminator. */
  function GetTreeKey(key: seq<byte>): (r: seq<byte>)
    ensures |r| == |key| + 1
    ensures r[..|key|] == key && r[|key|] == Terminator
  {
    key + [Terminator]
  }

  /** `getKey`: drops the last byte of a tree key; the empty key stays empty. */
  function GetKey(treeKey: seq<byte>): (r: seq<byte>)
    ensures treeKey == [] ==> r == []
    ensures treeKey != [] ==> |r| == |treeKey| - 1 && treeKey == r + [treeKey[|treeKey| - 1]]
  {
    if |treeKey| == 0 then [] else treeKey[..|treeKey| - 1]
  }

  /** Decoding an encoded key gives the key back. */
  lemma RoundTrip(key: seq<byte>)
    ensures GetKey(GetTreeKey(key)) == key
  {
  }

  /**
   * For keys without the terminator byte, no tree key is a proper prefix of
   * another: this is what the node-splitting code relies on.
   */
  lemma {:induction false} NoTreeKeyIsProperPrefix(k1: seq<byte>, k2: seq<byte>)
    requires Terminator !in k1 && Terminator !in k2
    requires |GetTreeKey(k1)| <= |GetTreeKey(k2)|
    requires GetTreeKey(k2)[..|GetTreeKey(k1)|] == GetTreeKey(k1)
    ensures k1 == k2
  {
    var t1, t2 := GetTreeKey(k1), GetTreeKey(k2);
    assert t2[|k1|] == t1[|k1|] == Terminator;
    assert |k1| == |k2|;
    assert k1 == t1[..|k1|] == t2[..|k1|] == t2[..|k2|] == k2;
  }

  /**
   * The terminator is an ordinary byte: once a key may contain `'$'`, one
   * tree key can be a proper prefix of another ("a" and "a$b").
   */
  lemma TerminatorInsideKey()
    ensures var k1, k2 := [97], [97, Terminator, 98];
      k1 != k2 && |GetTreeKey(k1)| < |GetTreeKey(k2)|
      && GetTreeKey(k2)[..|GetTreeKey(k1)|] == GetTreeKey(k1)
  {
  }
}
