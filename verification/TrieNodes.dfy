/**
 The three kinds of 64-byte trie nodes and the fields read back from them.
 `Node` is the decoded form; `Raw` is the 64-byte form that the source hashes and stores.
 */
module TrieNodes {
  import opened TrieKeys

  const HASH_SIZE := 32
  const NODE_BYTES := 64

  type Hash = h: seq<bv8> | |h| == HASH_SIZE witness seq(HASH_SIZE, _ => 0 as bv8)
  type RawNode = n: seq<bv8> | |n| == NODE_BYTES witness seq(NODE_BYTES, _ => 0 as bv8)

  function Zero(): Hash { seq(HASH_SIZE, _ => 0 as bv8) }

  datatype NodeType = BranchType | LeafType | EmbedLeafType

  /** `head` holds the type bits and the length of an embedded value, `payload` the value or its hash. */
  datatype LeafNode = LeafNode(head: bv8, key: Path, payload: Hash)

  /** A node refers to its sub-tries by hashes of some type `H`. */
  datatype Node<H> = Branch(left: H, right: H) | Leaf(leaf: LeafNode)

  /** A hash without its first bit. */
  function Masked(h: Hash): (m: Hash)
    ensures m[1..] == h[1..]
  {
    [h[0] & 0x7f] + h[1..]
  }

  lemma MaskedTwice(h: Hash)
    ensures Masked(Masked(h)) == Masked(h)
    ensures Masked(Zero()) == Zero()
  {
    var b := h[0];
    assert b & 0x7f & 0x7f == b & 0x7f;
    assert Masked(Zero()) == Zero();
  }

  /** `BranchNode.fromSubNodes`: the left hash loses its first bit. */
  function BranchOf(left: Hash, right: Hash): Node<Hash> {
    Branch(Masked(left), right)
  }

  function Padded(value: seq<bv8>): Hash
    requires |value| <= HASH_SIZE
  {
    value + seq(HASH_SIZE - |value|, _ => 0 as bv8)
  }

  /** `LeafNode.fromValue`: short values are embedded, long ones represented by their hash. */
  function LeafOf(key: Key, value: seq<bv8>, valueHash: Hash): LeafNode {
    if |value| <= HASH_SIZE
    then LeafNode(0x80 | (|value| as bv8), Unpack(key), Padded(value))
    else LeafNode(0xC0, Unpack(key), valueHash)
  }

  /** The nodes the source builds: the first bit tells branches from leaves. */
  predicate WellFormed(n: Node<Hash>) {
    match n
    case Branch(left, _) => left[0] & 0x80 == 0
    case Leaf(leaf) => leaf.head & 0x80 != 0
  }

  function Raw(n: Node<Hash>): RawNode {
    match n
    case Branch(left, right) => left + right
    case Leaf(leaf) => [leaf.head] + Pack(leaf.key) + leaf.payload
  }

  // ----- reading a raw node -----

  function GetNodeType(raw: RawNode): NodeType {
    if raw[0] & 0x80 == 0 then BranchType
    else if raw[0] & 0xC0 == 0xC0 then LeafType
    else EmbedLeafType
  }

  function GetLeft(raw: RawNode): Hash { raw[..HASH_SIZE] }

  function GetRight(raw: RawNode): Hash { raw[HASH_SIZE..] }

  function GetKey(raw: RawNode): Key { raw[1..KEY_BYTES + 1] }

  function GetValueLength(raw: RawNode): nat { (raw[0] & 0x3f) as nat }

  function GetValueHash(raw: RawNode): Hash { raw[HASH_SIZE..] }

  function GetValue(raw: RawNode): seq<bv8>
    requires GetValueLength(raw) <= HASH_SIZE
  {
    raw[HASH_SIZE..HASH_SIZE + GetValueLength(raw)]
  }

  function Parse(raw: RawNode): Node<Hash> {
    if GetNodeType(raw) == BranchType
    then Branch(GetLeft(raw), GetRight(raw))
    else Leaf(LeafNode(raw[0], Unpack(GetKey(raw)), GetValueHash(raw)))
  }

  /** The 64 bytes determine the node and the node determines the 64 bytes. */
  lemma RawRoundTrip(n: Node<Hash>)
    requires WellFormed(n)
    ensures Parse(Raw(n)) == n
  {
    match n
    case Branch(left, right) =>
      assert Raw(n)[..HASH_SIZE] == left && Raw(n)[HASH_SIZE..] == right;
    case Leaf(leaf) =>
      UnpackPack(leaf.key);
      assert Raw(n)[1..KEY_BYTES + 1] == Pack(leaf.key) && Raw(n)[HASH_SIZE..] == leaf.payload;
  }

  lemma ParseRoundTrip(raw: RawNode)
    ensures WellFormed(Parse(raw)) && Raw(Parse(raw)) == raw
  {
    if GetNodeType(raw) == BranchType {
      assert raw[..HASH_SIZE] + raw[HASH_SIZE..] == raw;
    } else {
      PackUnpack(GetKey(raw));
      assert [raw[0]] + raw[1..KEY_BYTES + 1] + raw[HASH_SIZE..] == raw;
    }
  }

  /** Different well-formed nodes have different bytes, so only the hash function can make them collide. */
  lemma RawInjective(a: Node<Hash>, b: Node<Hash>)
    requires WellFormed(a) && WellFormed(b) && Raw(a) == Raw(b)
    ensures a == b
  {
    RawRoundTrip(a);
    RawRoundTrip(b);
  }

  lemma HeadBits(len: nat)
    requires len <= HASH_SIZE
    ensures var head := 0x80 | (len as bv8);
            head & 0x80 != 0 && head & 0xC0 != 0xC0 && (head & 0x3f) as nat == len
  {
    var x := len as bv8;
    assert x <= 32;
    EmbedHead(x);
  }

  lemma EmbedHead(x: bv8)
    requires x <= 32
    ensures (0x80 | x) & 0x80 != 0 && (0x80 | x) & 0xC0 != 0xC0 && (0x80 | x) & 0x3f == x
  {
  }

  /** Whatever was put into a leaf is read back from its 64 bytes. */
  lemma LeafFieldsRoundTrip(key: Key, value: seq<bv8>, valueHash: Hash)
    ensures var leaf := LeafOf(key, value, valueHash);
            var raw := Raw(Leaf(leaf));
            && WellFormed(Leaf(leaf)) && GetKey(raw) == key
            && (|value| <= HASH_SIZE ==>
                  GetNodeType(raw) == EmbedLeafType && GetValueLength(raw) == |value| && GetValue(raw) == value)
            && (|value| > HASH_SIZE ==>
                  GetNodeType(raw) == LeafType && GetValueLength(raw) == 0 && GetValue(raw) == [] &&
                      GetValueHash(raw) == valueHash)
  {
    var leaf := LeafOf(key, value, valueHash);
    var raw := Raw(Leaf(leaf));
    PackUnpack(key);
    assert raw[1..KEY_BYTES + 1] == Pack(leaf.key) && raw[HASH_SIZE..] == leaf.payload;
    if |value| <= HASH_SIZE {
      HeadBits(|value|);
      assert raw[HASH_SIZE..HASH_SIZE + |value|] == value;
    }
  }

  /** A branch gives back the left hash without its first bit and the whole right hash. */
  lemma BranchFieldsRoundTrip(left: Hash, right: Hash)
    ensures var raw := Raw(BranchOf(left, right));
            && WellFormed(BranchOf(left, right)) && GetNodeType(raw) == BranchType
            && GetLeft(raw) == Masked(left) && GetRight(raw) == right
  {
    var raw := Raw(BranchOf(left, right));
    var b := left[0];
    assert b & 0x7f & 0x80 == 0;
    assert raw[..HASH_SIZE] == Masked(left) && raw[HASH_SIZE..] == right;
  }

  /** Leaves of one key hold the same payload without being equal: only the length in the head differs. */
  lemma PayloadDoesNotDetermineLeaf(key: Key, valueHash: Hash)
    ensures LeafOf(key, [], valueHash) != LeafOf(key, [0], valueHash)
    ensures LeafOf(key, [], valueHash).payload == LeafOf(key, [0], valueHash).payload
  {
    HeadBits(0);
    HeadBits(1);
    assert Padded([]) == Padded([0]);
  }

  // ----- building raw nodes in place -----

  method FromSubNodes(left: Hash, right: Hash) returns (raw: array<bv8>)
    ensures fresh(raw) && raw.Length == NODE_BYTES && raw[..] == Raw(BranchOf(left, right))
  {
    raw := new bv8[NODE_BYTES];
    Copy(raw, left, 0);
    Copy(raw, right, HASH_SIZE);
    raw[0] := raw[0] & 0x7f;
    assert raw[..] == Masked(left) + right;
  }

  method FromValue(key: Key, value: seq<bv8>, valueHash: Hash) returns (raw: array<bv8>)
    ensures fresh(raw) && raw.Length == NODE_BYTES && raw[..] == Raw(Leaf(LeafOf(key, value, valueHash)))
  {
    PackUnpack(key);
    raw := new bv8[NODE_BYTES](_ => 0);
    if |value| <= HASH_SIZE {
      raw[0] := 0x80 | (|value| as bv8);
      Copy(raw, key, 1);
      Copy(raw, value, KEY_BYTES + 1);
      assert raw[..] == [raw[0]] + key + Padded(value);
    } else {
      raw[0] := 0xC0;
      Copy(raw, key, 1);
      Copy(raw, valueHash, KEY_BYTES + 1);
      assert raw[..] == [raw[0]] + key + valueHash;
    }
  }

  /** `Uint8Array.set`. */
  method Copy(target: array<bv8>, bytes: seq<bv8>, offset: nat)
    requires offset + |bytes| <= target.Length
    modifies target
    ensures target[..] == old(target[..offset]) + bytes + old(target[offset + |bytes|..])
  {
    forall i | 0 <= i < |bytes| {
      target[offset + i] := bytes[i];
    }
  }
}
