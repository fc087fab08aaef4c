/**
 * The trie node: the fragment of bytes on the edge into it, an optional value handle, and its
 * children, each addressed by the first byte of its fragment.
 */
module Nodes {
  import opened Bytes

  datatype Node = Node(fragment: seq<u8>, hasValue: bool, value: u32, children: seq<Node>)

  /** A stored key with its value, as `walk` and `match` report them. */
  datatype Entry = Entry(key: seq<u8>, value: u32)

  /** A node holding `fragment` and `value` and no children (what `newValueNode` builds). */
  function Leaf(fragment: seq<u8>, value: u32): Node {
    Node(fragment, true, value, [])
  }

  /** Whether `n` denotes a stored key. A node with an empty fragment (the root) never does. */
  predicate Reports(n: Node) {
    n.hasValue && |n.fragment| > 0
  }

  predicate StartsWith(c: Node, b: u8) {
    |c.fragment| > 0 && c.fragment[0] == b
  }

  /** Index of the first child whose fragment starts with `b`, or `|cs|` when there is none. */
  function ChildIndex(cs: seq<Node>, b: u8): (i: nat)
    ensures i <= |cs|
    ensures i < |cs| ==> StartsWith(cs[i], b)
    ensures forall j | 0 <= j < i :: !StartsWith(cs[j], b)
  {
    if cs == [] then 0
    else if StartsWith(cs[0], b) then 0
    else 1 + ChildIndex(cs[1..], b)
  }

  /** The child that an input byte `b` leads to. */
  function ChildFor(cs: seq<Node>, b: u8): (r: Option<Node>)
    ensures r.Some? ==> r.value in cs && StartsWith(r.value, b)
    ensures r.None? <==> forall j | 0 <= j < |cs| :: !StartsWith(cs[j], b)
  {
    var i := ChildIndex(cs, b);
    if i < |cs| then Some(cs[i]) else None
  }

  /** The trie invariant on a list of children: non-empty fragments with strictly increasing first bytes. */
  predicate Ordered(cs: seq<Node>) {
    && (forall i | 0 <= i < |cs| :: |cs[i].fragment| > 0)
    && (forall i, j | 0 <= i < j < |cs| :: cs[i].fragment[0] < cs[j].fragment[0])
  }

  /** A node below the root either holds a value or is a branching point of two or more children. */
  predicate Compact(c: Node) {
    c.hasValue || |c.children| >= 2
  }

  /** The trie invariant one level down: what a decoder checks of the children it has just read. */
  predicate WellFormedChildren(cs: seq<Node>) {
    Ordered(cs) && forall i | 0 <= i < |cs| :: Compact(cs[i])
  }

  /** The trie invariants, at every node of the tree. */
  ghost predicate Valid(n: Node) {
    && Ordered(n.children)
    && forall i | 0 <= i < |n.children| :: Compact(n.children[i]) && Valid(n.children[i])
  }

  /**
   * The value stored under `k`, where `k` starts with `n`'s own fragment: the map from keys
   * to values that the trie rooted at `n` denotes.
   */
  function Get(n: Node, k: seq<u8>): Option<u32> {
    if !(n.fragment <= k) then None
    else if |k| == |n.fragment| then (if Reports(n) then Some(n.value) else None)
    else
      match ChildFor(n.children, k[|n.fragment|])
      case None => None
      case Some(c) => Get(c, k[|n.fragment|..])
  }

  /** `m[k]` as an option, to compare a map with the map a trie denotes. */
  function Lookup(m: map<seq<u8>, u32>, k: seq<u8>): Option<u32> {
    if k in m then Some(m[k]) else None
  }

  /** Two maps that agree on every key are equal. */
  lemma LookupExtensional(a: map<seq<u8>, u32>, b: map<seq<u8>, u32>)
    requires forall k :: Lookup(a, k) == Lookup(b, k)
    ensures a == b
  {
    assert forall k :: k in a <==> Lookup(a, k).Some?;
    assert forall k :: k in b <==> Lookup(b, k).Some?;
    assert a.Keys == b.Keys;
  }

  /** `ChildIndex` is the first index whose child starts with `b`. */
  lemma {:induction false} ChildIndexIs(cs: seq<Node>, b: u8, i: nat)
    requires i <= |cs|
    requires i < |cs| ==> StartsWith(cs[i], b)
    requires forall j | 0 <= j < i :: !StartsWith(cs[j], b)
    ensures ChildIndex(cs, b) == i
  {
    if cs != [] && !StartsWith(cs[0], b) {
      ChildIndexIs(cs[1..], b, i - 1);
    }
  }

  /** In ordered children, the child a byte leads to is the one that starts with it. */
  lemma ChildForOrdered(cs: seq<Node>, j: nat)
    requires Ordered(cs) && j < |cs|
    ensures ChildFor(cs, cs[j].fragment[0]) == Some(cs[j])
  {
    ChildIndexIs(cs, cs[j].fragment[0], j);
  }

  /** Children that are each valid stay so with one more in front. */
  lemma ValidCons(c: Node, rest: seq<Node>)
    requires Valid(c) && forall i | 0 <= i < |rest| :: Valid(rest[i])
    ensures forall i | 0 <= i < |[c] + rest| :: Valid(([c] + rest)[i])
  {
    forall i | 0 <= i < |[c] + rest| ensures Valid(([c] + rest)[i]) {
      if i > 0 { assert ([c] + rest)[i] == rest[i - 1]; }
    }
  }

  lemma OrderedTail(cs: seq<Node>)
    requires Ordered(cs) && cs != []
    ensures Ordered(cs[1..])
  {
  }

  /** Taking a prefix of a prefix keeps it a prefix. */
  lemma PrefixTake(a: seq<u8>, p: nat, c: seq<u8>)
    requires p <= |a|
    ensures a <= c ==> a[..p] <= c
  {
  }

  /** No two entries share a key. */
  predicate DistinctKeys(es: seq<Entry>) {
    forall i, j | 0 <= i < j < |es| :: es[i].key != es[j].key
  }

  // ----- the map a caller collects from reported entries -----

  /** The map that `actual[string(key)] = valueIndex` builds from a list of entries (a later entry wins). */
  function Collect(es: seq<Entry>): map<seq<u8>, u32> {
    if es == [] then map[] else Collect(es[..|es| - 1])[es[|es| - 1].key := es[|es| - 1].value]
  }

  /** With distinct keys, the collected map holds exactly the entries of the list. */
  lemma {:induction false} CollectExact(es: seq<Entry>, e: Entry)
    requires DistinctKeys(es)
    ensures e in es <==> e.key in Collect(es) && Collect(es)[e.key] == e.value
  {
    if es != [] {
      var init := es[..|es| - 1];
      var last := es[|es| - 1];
      assert DistinctKeys(init);
      CollectExact(init, e);
      assert es == init + [last];
      if e.key == last.key && e != last {
        assert e !in init by {
          forall i | 0 <= i < |init| ensures init[i] != e {
            assert init[i].key == es[i].key != es[|es| - 1].key;
          }
        }
      }
    }
  }
}
