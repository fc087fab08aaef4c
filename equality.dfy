/**
 * Structural equality (`Equals`): same fragment, same value presence, same value where one is
 * present, and equal children. Children are compared in their stored order; in a valid trie that
 * order is fixed by their leading bytes, so two valid tries compare their children as sets keyed
 * by leading byte.
 */
module Equality {
  import opened Bytes
  import opened Nodes
  import opened Walker
  import opened Matcher

  /** `Equals`: fragments, presence flags, held values and children agree; equal trees have one canonical form. */
  predicate Equals(a: Node, b: Node): (r: bool)
    ensures r ==> Canonical(a) == Canonical(b)
    decreases a
  {
    && a.fragment == b.fragment
    && a.hasValue == b.hasValue
    && (a.hasValue ==> a.value == b.value)
    && |a.children| == |b.children|
    && forall i | 0 <= i < |a.children| :: Equals(a.children[i], b.children[i])
  }

  /** `n` with the value slot of every valueless node cleared: what the codecs give back. */
  function Canonical(n: Node): Node
    decreases n, 1
  {
    Node(n.fragment, n.hasValue, if n.hasValue then n.value else 0, CanonicalAll(n.children))
  }

  function CanonicalAll(cs: seq<Node>): (r: seq<Node>)
    ensures |r| == |cs|
    ensures forall i | 0 <= i < |cs| :: r[i] == Canonical(cs[i])
    decreases cs, 0
  {
    if cs == [] then [] else [Canonical(cs[0])] + CanonicalAll(cs[1..])
  }

  // ----- an equivalence -----

  lemma {:induction false} EqualsReflexive(a: Node)
    ensures Equals(a, a)
    decreases a
  {
    forall i | 0 <= i < |a.children| ensures Equals(a.children[i], a.children[i]) {
      EqualsReflexive(a.children[i]);
    }
  }

  lemma {:induction false} EqualsSymmetric(a: Node, b: Node)
    requires Equals(a, b)
    ensures Equals(b, a)
    decreases a
  {
    forall i | 0 <= i < |b.children| ensures Equals(b.children[i], a.children[i]) {
      EqualsSymmetric(a.children[i], b.children[i]);
    }
  }

  lemma {:induction false} EqualsTransitive(a: Node, b: Node, c: Node)
    requires Equals(a, b) && Equals(b, c)
    ensures Equals(a, c)
    decreases a
  {
    forall i | 0 <= i < |a.children| ensures Equals(a.children[i], c.children[i]) {
      EqualsTransitive(a.children[i], b.children[i], c.children[i]);
    }
  }

  /** Clearing unused value slots gives an equal tree. */
  lemma {:induction false} CanonicalEquals(n: Node)
    ensures Equals(Canonical(n), n)
    decreases n
  {
    forall i | 0 <= i < |n.children| ensures Equals(Canonical(n).children[i], n.children[i]) {
      CanonicalEquals(n.children[i]);
    }
  }

  // ----- equal trees behave alike -----

  /** Children lists that are pointwise equal lead each byte to equal children. */
  lemma {:induction false} ChildIndexEquals(xs: seq<Node>, ys: seq<Node>, x: u8)
    requires |xs| == |ys| && forall i | 0 <= i < |xs| :: Equals(xs[i], ys[i])
    ensures ChildIndex(xs, x) == ChildIndex(ys, x)
  {
    if xs != [] && !StartsWith(xs[0], x) {
      ChildIndexEquals(xs[1..], ys[1..], x);
    }
  }

  /** Equal trees store the same keys with the same values. */
  lemma {:induction false} EqualsGet(a: Node, b: Node, k: seq<u8>)
    requires Equals(a, b)
    ensures Get(a, k) == Get(b, k)
    decreases a
  {
    if a.fragment <= k && |k| > |a.fragment| {
      var x := k[|a.fragment|];
      ChildIndexEquals(a.children, b.children, x);
      var i := ChildIndex(a.children, x);
      if i < |a.children| {
        EqualsGet(a.children[i], b.children[i], k[|a.fragment|..]);
      }
    }
  }

  /** Equal trees are walked alike. */
  lemma {:induction false} EqualsWalk(a: Node, b: Node, parent: seq<u8>)
    requires Equals(a, b)
    ensures Walk(a, parent) == Walk(b, parent)
    decreases a, 1
  {
    EqualsWalkAll(a.children, b.children, parent + a.fragment);
  }

  lemma {:induction false} EqualsWalkAll(xs: seq<Node>, ys: seq<Node>, parent: seq<u8>)
    requires |xs| == |ys| && forall i | 0 <= i < |xs| :: Equals(xs[i], ys[i])
    ensures WalkAll(xs, parent) == WalkAll(ys, parent)
    decreases xs, 0
  {
    if xs != [] {
      EqualsWalk(xs[0], ys[0], parent);
      EqualsWalkAll(xs[1..], ys[1..], parent);
    }
  }

  /** Equal trees match alike, whatever the callback. */
  lemma {:induction false} EqualsMatchAt(a: Node, b: Node, input: seq<u8>, start: nat, pos: nat, cb: Callback)
    requires Equals(a, b) && start <= pos <= |input|
    ensures MatchAt(a, input, start, pos, cb) == MatchAt(b, input, start, pos, cb)
    decreases a
  {
    var end := pos + |a.fragment|;
    if FragmentAt(a, input, pos) && end < |input| {
      ChildIndexEquals(a.children, b.children, input[end]);
      var i := ChildIndex(a.children, input[end]);
      if i < |a.children| {
        EqualsMatchAt(a.children[i], b.children[i], input, start, end, cb);
        assert MatchBelow(a, input, start, pos, cb) == MatchBelow(b, input, start, pos, cb);
      }
    }
  }

  /** Equality preserves the trie invariants. */
  lemma {:induction false} EqualsValid(a: Node, b: Node)
    requires Equals(a, b) && Valid(a)
    ensures Valid(b)
    decreases a
  {
    forall i | 0 <= i < |b.children| ensures Compact(b.children[i]) && Valid(b.children[i]) {
      EqualsValid(a.children[i], b.children[i]);
    }
    assert forall i | 0 <= i < |b.children| :: b.children[i].fragment == a.children[i].fragment;
  }

  /** Clearing unused value slots keeps the trie invariant, and so does restoring them. */
  lemma CanonicalValid(n: Node)
    ensures Valid(Canonical(n)) <==> Valid(n)
  {
    CanonicalEquals(n);
    EqualsSymmetric(Canonical(n), n);
    if Valid(n) {
      EqualsValid(n, Canonical(n));
    }
    if Valid(Canonical(n)) {
      EqualsValid(Canonical(n), n);
    }
  }
}
