/**
 * The node a program holds and changes in place: `add` grows it, and `Decode` / `LoadNode`
 * replace it with what a stream or buffer holds. Reading operations (`walk`, `match`, `Equals`,
 * `Encode`, `size`, `Data`) are the pure functions of the other modules, applied to `tree`.
 */
module Tries {
  import opened Bytes
  import opened Nodes
  import opened Builder
  import opened Walker
  import opened Wire
  import StreamCodec
  import PositionalCodec
  import opened Equality

  class Root {
    /** The tree rooted at this node. */
    var tree: Node

    /** `newValueNode(fragment, value)`: a childless node holding a value. */
    constructor (fragment: seq<u8>, value: u32)
      ensures tree == Leaf(fragment, value) && Valid(tree)
    {
      tree := Leaf(fragment, value);
    }

    /** `&Node{}`: an empty node, the target of `Decode` and `LoadNode`. */
    constructor Empty()
      ensures tree == Node([], false, 0, []) && Valid(tree)
    {
      tree := Node([], false, 0, []);
    }

    /**
     * `add(newValueNode(key, value), merge)`: stores `value` under this node's fragment followed
     * by `key`; every other key keeps its value, and the trie invariants are kept.
     */
    method Add(key: seq<u8>, value: u32, merge: Merge)
      requires |key| > 0
      modifies this
      ensures tree == Insert(old(tree), key, value, merge)
      ensures forall k :: Get(tree, k) ==
                          if k == old(tree).fragment + key then Some(Merged(Get(old(tree), k), value, merge)) else Get(old(tree), k)
      ensures Valid(old(tree)) ==> Valid(tree)
    {
      var t := tree;
      tree := Insert(t, key, value, merge);
      forall k
        ensures Get(tree, k) == if k == t.fragment + key then Some(Merged(Get(t, k), value, merge)) else Get(t, k)
      {
        InsertGet(t, key, value, merge, k);
      }
      if Valid(t) {
        InsertValid(t, key, value, merge);
      }
    }

    /** Adds `keys[i]` with value `i + 1`, in order, as every test builds its trie. */
    method AddAll(keys: seq<seq<u8>>, merge: Merge)
      requires NonEmptyKeys(keys) && |keys| < 0x1_0000_0000
      modifies this
      ensures tree == Build(old(tree), keys, merge)
      ensures Valid(old(tree)) ==> Valid(tree)
    {
      if Valid(tree) {
        BuildValid(tree, keys, merge);
      }
      var i := 0;
      while i < |keys|
        invariant 0 <= i <= |keys|
        invariant tree == Build(old(tree), keys[..i], merge)
      {
        assert keys[..i + 1][..i] == keys[..i];
        Add(keys[i], (i + 1) as u32, merge);
        i := i + 1;
      }
      assert keys[..i] == keys;
    }

    /**
     * `Decode(reader)`: on success this node becomes the tree at the head of `s`; on a format
     * error it is left as it was and the error is returned.
     */
    method Decode(s: seq<u8>) returns (err: Option<FormatError>)
      modifies this
      ensures err.None? <==> StreamCodec.Decode(s).Ok?
      ensures err.None? ==> tree == StreamCodec.Decode(s).value
      ensures err.None? ==> Valid(tree) && StreamCodec.Encode(tree) <= s
      ensures err.Some? ==> err.value == StreamCodec.Decode(s).error && tree == old(tree)
    {
      var r := StreamCodec.Decode(s);
      if r.Ok? {
        tree := r.value;
        err := None;
      } else {
        err := Some(r.error);
      }
    }

    /** `LoadNode(data)`: as `Decode`, from a buffer that must hold exactly one record. */
    method LoadNode(buf: seq<u8>) returns (err: Option<FormatError>)
      modifies this
      ensures err.None? <==> PositionalCodec.LoadNode(buf).Ok?
      ensures err.None? ==> tree == PositionalCodec.LoadNode(buf).value
      ensures err.None? ==> Valid(tree) && buf == PositionalCodec.Data(tree)
      ensures err.Some? ==> err.value == PositionalCodec.LoadNode(buf).error && tree == old(tree)
    {
      var r := PositionalCodec.LoadNode(buf);
      if r.Ok? {
        tree := r.value;
        err := None;
      } else {
        err := Some(r.error);
      }
    }
  }

  /** The positional round trip through objects: an empty node loaded from `src`'s `Data()` `Equals` `src`. */
  method CloneByData(src: Root) returns (clone: Root)
    requires Valid(src.tree)
    ensures fresh(clone)
    ensures Equals(clone.tree, src.tree)
  {
    clone := new Root.Empty();
    PositionalCodec.LoadNodeData(src.tree);
    var err := clone.LoadNode(PositionalCodec.Data(src.tree));
    assert err.None?;
  }

  /** The stream round trip through objects: an empty node decoded from `src`'s encoding `Equals` `src`. */
  method CloneByStream(src: Root) returns (clone: Root)
    requires Valid(src.tree)
    ensures fresh(clone)
    ensures Equals(clone.tree, src.tree)
  {
    clone := new Root.Empty();
    StreamCodec.DecodeEncode(src.tree);
    var err := clone.Decode(StreamCodec.Encode(src.tree));
    assert err.None?;
  }
}
