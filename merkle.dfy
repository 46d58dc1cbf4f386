/**
 * `ManifestBuilder.merkleRoot(from:)`: leaves are the chunk hashes decoded
 * from hex; each level pairs adjacent nodes left to right and hashes the raw
 * concatenation, the last node of an odd level being paired with itself;
 * the single remaining node is returned in hex. An empty list gives the hex
 * hash of the empty byte string.
 */
module Merkle {
  import opened Crypto
  import opened HexCodec

  function HashPair(s: Suite, a: Bytes, b: Bytes): Digest
  {
    s.sha256(a + b)
  }

  /** The i-th parent of a level, with the duplicate-last rule. */
  function Parent(s: Suite, nodes: seq<Bytes>, i: int): Digest
    requires 0 <= 2 * i < |nodes|
  {
    if 2 * i + 1 < |nodes| then HashPair(s, nodes[2 * i], nodes[2 * i + 1])
    else HashPair(s, nodes[2 * i], nodes[2 * i])
  }

  /** One level of the tree: adjacent pairs hashed left to right. */
  function NextLevel(s: Suite, nodes: seq<Bytes>): (parents: seq<Digest>)
    ensures |parents| == (|nodes| + 1) / 2
    decreases |nodes|
  {
    if |nodes| == 0 then []
    else if |nodes| == 1 then [HashPair(s, nodes[0], nodes[0])]
    else [HashPair(s, nodes[0], nodes[1])] + NextLevel(s, nodes[2..])
  }

  /** Level by level, parent i hashes nodes 2i and 2i+1 (or 2i twice for an odd last node). */
  lemma {:induction false} NextLevelParents(s: Suite, nodes: seq<Bytes>)
    ensures forall i :: 0 <= i < |NextLevel(s, nodes)| ==> NextLevel(s, nodes)[i] == Parent(s, nodes, i)
    decreases |nodes|
  {
    if |nodes| > 1 {
      NextLevelParents(s, nodes[2..]);
      forall i | 0 <= i < |NextLevel(s, nodes)|
        ensures NextLevel(s, nodes)[i] == Parent(s, nodes, i)
      {
        if i > 0 {
          assert NextLevel(s, nodes)[i] == NextLevel(s, nodes[2..])[i - 1];
        }
      }
    }
  }

  /** The tree above a non-empty level; with more than one node the root is a digest. */
  function Fold(s: Suite, nodes: seq<Bytes>): (root: Bytes)
    requires |nodes| >= 1
    ensures |nodes| > 1 ==> |root| == DigestLength
    decreases |nodes|
  {
    if |nodes| == 1 then nodes[0] else Fold(s, NextLevel(s, nodes))
  }

  function Leaves(hashes: seq<string>): (leaves: seq<Bytes>)
    ensures |leaves| == |hashes|
  {
    seq(|hashes|, i requires 0 <= i < |hashes| => DecodeHex(hashes[i]))
  }

  /** The root `merkleRoot(from:)` returns. */
  function MerkleRootOf(s: Suite, hashes: seq<string>): (root: string)
  {
    if hashes == [] then Hex(s.sha256([])) else Hex(Fold(s, Leaves(hashes)))
  }

  /**
   * The empty list yields the hex hash of the empty byte string, and every list
   * except a single hash yields 64 lowercase hex characters.
   */
  lemma MerkleRootShape(s: Suite, hashes: seq<string>)
    ensures hashes == [] ==> MerkleRootOf(s, hashes) == Hex(s.sha256([]))
    ensures |hashes| != 1 ==> |MerkleRootOf(s, hashes)| == 64 && IsLowerHex(MerkleRootOf(s, hashes))
  {
  }

  /** A single hash is not re-hashed: the root is its hex re-encoding, which is itself for lowercase hex. */
  lemma MerkleRootSingle(s: Suite, d: Bytes)
    ensures MerkleRootOf(s, [Hex(d)]) == Hex(d)
  {
    HexRoundTrip(d);
    assert Leaves([Hex(d)]) == [d];
  }

  /** Two leaves: the root is the hash of their raw bytes, concatenated in order. */
  lemma MerkleRootPair(s: Suite, a: Bytes, b: Bytes)
    ensures MerkleRootOf(s, [Hex(a), Hex(b)]) == Hex(s.sha256(a + b))
  {
    LeavesOfPair(a, b);
    FoldPair(s, a, b);
  }

  lemma LeavesOfPair(a: Bytes, b: Bytes)
    ensures Leaves([Hex(a), Hex(b)]) == [a, b]
  {
    HexRoundTrip(a);
    HexRoundTrip(b);
  }

  lemma FoldPair(s: Suite, a: Bytes, b: Bytes)
    ensures Fold(s, [a, b]) == HashPair(s, a, b)
  {
    assert [a, b][2..] == [];
    assert NextLevel(s, [a, b]) == [HashPair(s, a, b)];
  }

  /**
   * Because of the duplicate-last rule, repeating the last hash of an odd list
   * of three or more does not change the root: the tree does not detect that
   * insertion.
   */
  lemma MerkleRootDuplicateLast(s: Suite, hashes: seq<string>)
    requires |hashes| >= 3 && |hashes| % 2 == 1
    ensures MerkleRootOf(s, hashes + [hashes[|hashes| - 1]]) == MerkleRootOf(s, hashes)
  {
    var longer := hashes + [hashes[|hashes| - 1]];
    var a, b := Leaves(hashes), Leaves(longer);
    assert b == a + [a[|a| - 1]];
    NextLevelParents(s, a);
    NextLevelParents(s, b);
    var na, nb := NextLevel(s, a), NextLevel(s, b);
    assert |na| == |nb|;
    forall j | 0 <= j < |na|
      ensures na[j] == nb[j]
    {
      assert na[j] == Parent(s, a, j);
      assert nb[j] == Parent(s, b, j);
    }
    assert na == nb;
    assert Fold(s, a) == Fold(s, na);
    assert Fold(s, b) == Fold(s, nb);
  }

  /** `merkleRoot(from:)`: the `while` loop over levels and the stride-2 loop building each level. */
  method MerkleRoot(s: Suite, hashes: seq<string>) returns (root: string)
    ensures root == MerkleRootOf(s, hashes)
  {
    var nodes: seq<Bytes> := [];
    for k := 0 to |hashes|
      invariant |nodes| == k
      invariant forall j :: 0 <= j < k ==> nodes[j] == DecodeHex(hashes[j])
    {
      var leaf := DataFromHex(hashes[k]);
      nodes := nodes + [leaf];
    }
    assert nodes == Leaves(hashes);
    if |nodes| == 0 {
      return Hex(s.sha256([]));
    }
    while |nodes| > 1
      invariant |nodes| >= 1
      invariant Fold(s, nodes) == Fold(s, Leaves(hashes))
      decreases |nodes|
    {
      var next: seq<Bytes> := [];
      var i := 0;
      while i < |nodes|
        invariant i == 2 * |next| <= |nodes| + 1
        invariant forall j :: 0 <= j < |next| ==> next[j] == Parent(s, nodes, j)
        decreases |nodes| - i
      {
        if i + 1 < |nodes| {
          next := next + [HashPair(s, nodes[i], nodes[i + 1])];
        } else {
          next := next + [HashPair(s, nodes[i], nodes[i])];
        }
        i := i + 2;
      }
      NextLevelParents(s, nodes);
      assert next == NextLevel(s, nodes);
      nodes := next;
    }
    root := Hex(nodes[0]);
  }
}
