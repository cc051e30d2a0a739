/** Arena and database nodes, the handles between them, and the database keys that name them. */
module Nodes {
  import opened Wrappers
  import opened BitStrings
  import opened Felts
  import opened PathCodec

  /** A slot map key. Keys are handed out once and never again. */
  type ArenaKey = int

  /** A child: a value or hash, or the arena key of a loaded node. */
  datatype NodeHandle = Hash(felt: Felt) | InMemory(key: ArenaKey) {
    function AsHash(): Option<Felt> {
      if Hash? then Some(felt) else None
    }
  }

  datatype Node =
    | Binary(hash: Option<Felt>, height: nat, left: NodeHandle, right: NodeHandle)
    | Edge(hash: Option<Felt>, height: nat, path: Bits, child: NodeHandle)
  {
    function GetChild(direction: bool): NodeHandle
      requires Binary?
    {
      if direction then right else left
    }

    function SetChild(direction: bool, handle: NodeHandle): Node
      requires Binary?
    {
      if direction then this.(right := handle) else this.(left := handle)
    }

    /** The node without its cached hash. */
    function Bare(): Node {
      this.(hash := None)
    }

    function WithHash(h: Felt): Node {
      this.(hash := Some(h))
    }

    /** Whether the edge agrees with the key, as far as the key goes. */
    predicate PathMatches(key: Bits, nodeHeight: nat)
      requires Edge? && height == nodeHeight
    {
      var lower := if nodeHeight < |key| then nodeHeight else |key|;
      var upper := if nodeHeight + |path| < |key| then nodeHeight + |path| else |key|;
      key[lower..upper] <= path
    }

    function CommonPath(key: Bits): Bits
      requires Edge?
    {
      var rest := if height <= |key| then key[height..] else [];
      path[..CommonLen(path, rest)]
    }
  }

  /** For a key that covers the whole edge, matching is being a prefix of the rest of the key. */
  lemma {:induction false} FullMatch(n: Node, key: Bits)
    requires n.Edge? && n.height + |n.path| <= |key|
    ensures n.PathMatches(key, n.height) <==> n.path <= key[n.height..]
  {
    var part := key[n.height..n.height + |n.path|];
    assert part == key[n.height..][..|n.path|];
  }

  /** For any key, matching is agreeing on every bit that the key has of the edge. */
  lemma {:induction false} MatchesExactly(n: Node, key: Bits)
    requires n.Edge?
    ensures n.PathMatches(key, n.height) <==>
              forall i :: n.height <= i < n.height + |n.path| && i < |key| ==> key[i] == n.path[i - n.height]
  {
    var h := n.height;
    var upper := if h + |n.path| < |key| then h + |n.path| else |key|;
    if h <= |key| {
      var part := key[h..upper];
      assert forall i :: h <= i < upper ==> part[i - h] == key[i];
      assert forall j :: 0 <= j < |part| ==> part[j] == key[h + j];
      if part <= n.path { assert forall j :: 0 <= j < |part| ==> part[j] == n.path[j]; }
    }
  }

  /** The arena: the loaded nodes by key. */
  type NodeMap = map<ArenaKey, Node>

  // ----- database keys (for the one tree, whose identifier is empty) -----

  datatype TrieKey = NodeEntry(bytes: ByteVec) | FlatEntry(bytes: ByteVec)

  function NodeKey(path: Bits): (k: TrieKey)
    ensures k.NodeEntry?
    ensures |path| < 256 ==> PathOf(k.bytes) == path
  {
    NodeEntry(EncodePath(path))
  }

  function FlatKey(key: Bits): (k: TrieKey)
    ensures 0 < |key| < 256 ==> PathOf(k.bytes) == key
  {
    FlatEntry(BitsliceToBytes(key))
  }

  /** What the database stores: an encoded node or an encoded leaf value. */
  datatype Stored = NodeValue(node: Node) | FeltValue(felt: Felt)

  type Database = map<TrieKey, Stored>

  datatype InsertOrRemove<+T> = Insert(value: T) | Remove

  /** The key that set puts on the death row for the edge it splits: the length-prefixed raw bytes. */
  function SplitDeathKey(path: Bits): (k: TrieKey)
    ensures k.NodeEntry?
    ensures |path| < 256 ==> PathOf(k.bytes) == path
  {
    NodeEntry(BitsliceToBytes(path))
  }

  /** Put in front of a tree identifier, that key is the split edge's own database key
      only for the empty identifier and away from the root. */
  lemma {:induction false} SplitDeathKeyIsNodeKey(identifier: ByteVec, path: Bits)
    ensures SplitDeathKey(path) == NodeEntry(identifier + EncodePath(path)) <==> identifier == [] && path != []
  {
    assert [] + EncodePath(path) == EncodePath(path);
  }
}
