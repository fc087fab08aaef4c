/**
 * Anchored prefix matching (`match`): reports each stored key that is a prefix of
 * `input[offset..]`, following at each node the one child that the next input byte leads to.
 * The callback answers whether to go on; `false` stops the whole match after that key.
 */
module Matcher {
  import opened Bytes
  import opened Nodes

  /** What a call of `match` does: the entries passed to the callback, in order, and its result. */
  datatype Outcome = Outcome(reported: seq<Entry>, matched: bool)

  /** The `onMatch(key, value)` callback; its answer is whether to keep going. */
  type Callback = (seq<u8>, u32) -> bool

  /** The all-matches policy: the callback always asks to go on. */
  const MatchAll: Callback := (k, v) => true

  /** The first-match policy: the callback always asks to stop. */
  const FirstMatch: Callback := (k, v) => false

  /** `n`'s fragment occurs in `input` at `pos`. */
  predicate FragmentAt(n: Node, input: seq<u8>, pos: nat) {
    pos + |n.fragment| <= |input| && input[pos..pos + |n.fragment|] == n.fragment
  }

  /**
   * Matching at node `n` for input position `pos`, the match having been anchored at `start`.
   * A reported key is `input[start..end]`: the fragments from the root down to the matching node.
   */
  function MatchAt(n: Node, input: seq<u8>, start: nat, pos: nat, cb: Callback): (r: Outcome)
    requires start <= pos <= |input|
    ensures r.matched <==> |r.reported| > 0
    decreases n, 1
  {
    if !FragmentAt(n, input, pos) then Outcome([], false)
    else if !Reports(n) then MatchBelow(n, input, start, pos, cb)
    else
      var e := Entry(input[start..pos + |n.fragment|], n.value);
      if !cb(e.key, e.value) then Outcome([e], true)
      else Outcome([e] + MatchBelow(n, input, start, pos, cb).reported, true)
  }

  /** Matching goes on in the one child that the input byte after `n`'s fragment leads to. */
  function MatchBelow(n: Node, input: seq<u8>, start: nat, pos: nat, cb: Callback): (r: Outcome)
    requires start <= pos && FragmentAt(n, input, pos)
    ensures r.matched <==> |r.reported| > 0
    decreases n, 0
  {
    var end := pos + |n.fragment|;
    if end == |input| then Outcome([], false)
    else
      match ChildFor(n.children, input[end])
      case None => Outcome([], false)
      case Some(c) => MatchAt(c, input, start, end, cb)
  }

  /** `match(input, offset, onMatch)`: the entries passed to `onMatch` and whether there were any. */
  function Match(t: Node, input: seq<u8>, offset: nat, cb: Callback): (r: Outcome)
    requires offset <= |input|
    ensures r.matched <==> |r.reported| > 0
    ensures forall e | e in r.reported :: e.key <= input[offset..] && Get(t, e.key) == Some(e.value)
  {
    var r := MatchAt(t, input, offset, offset, cb);
    MatchAtSound(t, input, offset, offset, cb);
    forall e | e in r.reported ensures e.key <= input[offset..] && Get(t, e.key) == Some(e.value) {
      assert e.key == input[offset..offset + |e.key|];
    }
    r
  }

  /** `e` is the entry for the stored key ending at `q`, looked up below `n` from position `pos`. */
  ghost predicate Found(n: Node, input: seq<u8>, start: nat, pos: nat, e: Entry) {
    var q := start + |e.key|;
    && pos <= q <= |input|
    && e.key == input[start..q]
    && Get(n, input[pos..q]) == Some(e.value)
  }

  /** Only a non-empty key that starts with `n`'s fragment is stored below `n`. */
  lemma GetNonEmpty(n: Node, k: seq<u8>)
    requires Get(n, k).Some?
    ensures |k| > 0 && n.fragment <= k
  {
  }

  /** Looking up from `pos` past `n`'s fragment is looking up in the child the next byte leads to. */
  lemma StepGet(n: Node, input: seq<u8>, pos: nat, q: nat)
    requires FragmentAt(n, input, pos) && pos + |n.fragment| < q <= |input|
    ensures Get(n, input[pos..q]) ==
      match ChildFor(n.children, input[pos + |n.fragment|])
      case None => None
      case Some(c) => Get(c, input[pos + |n.fragment|..q])
  {
    var end := pos + |n.fragment|;
    var k := input[pos..q];
    assert k[..|n.fragment|] == n.fragment;
    GetUnfold(n, k);
    assert k[|n.fragment|] == input[end];
    assert k[|n.fragment|..] == input[end..q];
  }

  /** One step of `Get` past a node's own fragment. */
  lemma GetUnfold(n: Node, k: seq<u8>)
    requires |k| > |n.fragment| && k[..|n.fragment|] == n.fragment
    ensures Get(n, k) ==
      match ChildFor(n.children, k[|n.fragment|])
      case None => None
      case Some(c) => Get(c, k[|n.fragment|..])
  {
  }

  /** Every reported entry is stored in the trie under a key that is a prefix of the anchored input. */
  lemma {:induction false} MatchAtSound(n: Node, input: seq<u8>, start: nat, pos: nat, cb: Callback)
    requires start <= pos <= |input|
    ensures forall e | e in MatchAt(n, input, start, pos, cb).reported :: Found(n, input, start, pos, e)
    decreases n, 1
  {
    if FragmentAt(n, input, pos) {
      MatchBelowSound(n, input, start, pos, cb);
      assert input[pos..pos + |n.fragment|] == n.fragment;
    }
  }

  /** The keys found below `n` are stored in `n` too, and are longer than the key ending at `n`. */
  lemma {:induction false} MatchBelowSound(n: Node, input: seq<u8>, start: nat, pos: nat, cb: Callback)
    requires start <= pos && FragmentAt(n, input, pos)
    ensures forall e | e in MatchBelow(n, input, start, pos, cb).reported ::
      Found(n, input, start, pos, e) && start + |e.key| > pos + |n.fragment|
    decreases n, 0
  {
    var end := pos + |n.fragment|;
    if end < |input| && ChildFor(n.children, input[end]).Some? {
      var c := ChildFor(n.children, input[end]).value;
      MatchAtSound(c, input, start, end, cb);
      forall e | e in MatchAt(c, input, start, end, cb).reported
        ensures Found(n, input, start, pos, e) && start + |e.key| > end
      {
        var q := start + |e.key|;
        GetNonEmpty(c, input[end..q]);
        StepGet(n, input, pos, q);
      }
    }
  }

  /** Reported keys strictly grow in length, so no key is reported twice. */
  lemma {:induction false} MatchAtIncreasing(n: Node, input: seq<u8>, start: nat, pos: nat, cb: Callback)
    requires start <= pos <= |input|
    ensures Increasing(MatchAt(n, input, start, pos, cb).reported)
    decreases n, 1
  {
    if FragmentAt(n, input, pos) {
      MatchBelowIncreasing(n, input, start, pos, cb);
      if Reports(n) {
        MatchBelowSound(n, input, start, pos, cb);
        var e := Entry(input[start..pos + |n.fragment|], n.value);
        IncreasingCons(e, MatchBelow(n, input, start, pos, cb).reported);
      }
    }
  }

  lemma {:induction false} MatchBelowIncreasing(n: Node, input: seq<u8>, start: nat, pos: nat, cb: Callback)
    requires start <= pos && FragmentAt(n, input, pos)
    ensures Increasing(MatchBelow(n, input, start, pos, cb).reported)
    decreases n, 0
  {
    var end := pos + |n.fragment|;
    if end < |input| && ChildFor(n.children, input[end]).Some? {
      MatchAtIncreasing(ChildFor(n.children, input[end]).value, input, start, end, cb);
    }
  }

  /** Entries whose keys strictly grow in length. */
  predicate Increasing(es: seq<Entry>) {
    forall i, j | 0 <= i < j < |es| :: |es[i].key| < |es[j].key|
  }

  lemma IncreasingCons(e: Entry, es: seq<Entry>)
    requires Increasing(es) && forall x | x in es :: |e.key| < |x.key|
    ensures Increasing([e] + es)
  {
    var r := [e] + es;
    forall i, j | 0 <= i < j < |r| ensures |r[i].key| < |r[j].key| {
      assert r[j] == es[j - 1];
      if i > 0 {
        assert r[i] == es[i - 1];
      }
    }
  }

  lemma IncreasingDistinct(es: seq<Entry>)
    requires Increasing(es)
    ensures DistinctKeys(es)
  {
  }

  lemma MatchDistinct(t: Node, input: seq<u8>, offset: nat, cb: Callback)
    requires offset <= |input|
    ensures DistinctKeys(Match(t, input, offset, cb).reported)
  {
    MatchAtIncreasing(t, input, offset, offset, cb);
    IncreasingDistinct(Match(t, input, offset, cb).reported);
  }

  // ----- the all-matches policy -----

  /** Under the all-matches policy every stored key that is a prefix of the anchored input is reported. */
  lemma {:induction false} MatchAtComplete(n: Node, input: seq<u8>, start: nat, pos: nat, e: Entry)
    requires start <= pos <= |input| && Found(n, input, start, pos, e)
    ensures e in MatchAt(n, input, start, pos, MatchAll).reported
    decreases n, 1
  {
    var q := start + |e.key|;
    var end := pos + |n.fragment|;
    FoundFragmentAt(n, input, start, pos, e);
    if q > end {
      MatchBelowComplete(n, input, start, pos, e);
    }
  }

  /** A key found below `n` from `pos` passes through `n`'s fragment; if it ends there, `n` holds it. */
  lemma FoundFragmentAt(n: Node, input: seq<u8>, start: nat, pos: nat, e: Entry)
    requires Found(n, input, start, pos, e)
    ensures FragmentAt(n, input, pos) && start + |e.key| >= pos + |n.fragment|
    ensures start + |e.key| == pos + |n.fragment| ==> Reports(n) && e == Entry(input[start..pos + |n.fragment|], n.value)
  {
    var q := start + |e.key|;
    var k := input[pos..q];
    GetNonEmpty(n, k);
    assert k[..|n.fragment|] == input[pos..pos + |n.fragment|];
    if |k| == |n.fragment| {
      assert k == n.fragment;
    }
  }

  lemma {:induction false} MatchBelowComplete(n: Node, input: seq<u8>, start: nat, pos: nat, e: Entry)
    requires start <= pos && FragmentAt(n, input, pos) && Found(n, input, start, pos, e)
    requires start + |e.key| > pos + |n.fragment|
    ensures e in MatchBelow(n, input, start, pos, MatchAll).reported
    decreases n, 0
  {
    var end := pos + |n.fragment|;
    var q := start + |e.key|;
    StepGet(n, input, pos, q);
    var c := ChildFor(n.children, input[end]).value;
    assert Get(c, input[end..q]) == Some(e.value);
    MatchAtComplete(c, input, start, end, e);
    assert MatchBelow(n, input, start, pos, MatchAll) == MatchAt(c, input, start, end, MatchAll);
  }

  /** Under the all-matches policy, `match` reports exactly the stored keys that are prefixes of `input[offset..]`. */
  lemma MatchAllExact(t: Node, input: seq<u8>, offset: nat, e: Entry)
    requires offset <= |input|
    ensures e in Match(t, input, offset, MatchAll).reported <==>
      e.key <= input[offset..] && Get(t, e.key) == Some(e.value)
  {
    if e.key <= input[offset..] && Get(t, e.key) == Some(e.value) {
      assert e.key == input[offset..offset + |e.key|];
      MatchAtComplete(t, input, offset, offset, e);
    }
  }

  /** The stored keys that are prefixes of `input`, with their values: what `match` should report. */
  function PrefixesIn(t: Node, input: seq<u8>, k: seq<u8>): Option<u32> {
    if k <= input then Get(t, k) else None
  }

  /** What the all-matches tests collect: the stored keys that are prefixes of the input, with their values. */
  lemma MatchAllCollect(t: Node, input: seq<u8>, offset: nat)
    requires offset <= |input|
    ensures forall k :: Lookup(Collect(Match(t, input, offset, MatchAll).reported), k) == PrefixesIn(t, input[offset..], k)
  {
    var r := Match(t, input, offset, MatchAll).reported;
    MatchDistinct(t, input, offset, MatchAll);
    forall k ensures Lookup(Collect(r), k) == PrefixesIn(t, input[offset..], k) {
      if k in Collect(r) {
        CollectExact(r, Entry(k, Collect(r)[k]));
        MatchAllExact(t, input, offset, Entry(k, Collect(r)[k]));
      }
      if k <= input[offset..] && Get(t, k).Some? {
        MatchAllExact(t, input, offset, Entry(k, Get(t, k).value));
        CollectExact(r, Entry(k, Get(t, k).value));
      }
    }
  }

  // ----- any callback -----

  /** The first entries of `es`, up to and including the first one the callback refuses. */
  function TakeThrough(es: seq<Entry>, cb: Callback): seq<Entry> {
    if es == [] then []
    else if !cb(es[0].key, es[0].value) then [es[0]]
    else [es[0]] + TakeThrough(es[1..], cb)
  }

  /** With any callback, `match` reports the all-matches list up to and including the first refused entry. */
  lemma {:induction false} MatchAtTakeThrough(n: Node, input: seq<u8>, start: nat, pos: nat, cb: Callback)
    requires start <= pos <= |input|
    ensures MatchAt(n, input, start, pos, cb).reported ==
      TakeThrough(MatchAt(n, input, start, pos, MatchAll).reported, cb)
    decreases n, 1
  {
    if FragmentAt(n, input, pos) {
      MatchBelowTakeThrough(n, input, start, pos, cb);
      if Reports(n) {
        var all := MatchAt(n, input, start, pos, MatchAll).reported;
        assert all[1..] == MatchBelow(n, input, start, pos, MatchAll).reported;
      }
    }
  }

  lemma {:induction false} MatchBelowTakeThrough(n: Node, input: seq<u8>, start: nat, pos: nat, cb: Callback)
    requires start <= pos && FragmentAt(n, input, pos)
    ensures MatchBelow(n, input, start, pos, cb).reported ==
      TakeThrough(MatchBelow(n, input, start, pos, MatchAll).reported, cb)
    decreases n, 0
  {
    var end := pos + |n.fragment|;
    if end < |input| && ChildFor(n.children, input[end]).Some? {
      MatchAtTakeThrough(ChildFor(n.children, input[end]).value, input, start, end, cb);
    }
  }

  // ----- the first-match policy -----

  /**
   * Under the first-match policy `match` reports at most one key: when some stored key is a prefix
   * of `input[offset..]`, exactly one, the shortest such key; and the result says whether it did.
   */
  lemma MatchFirstShortest(t: Node, input: seq<u8>, offset: nat)
    requires offset <= |input|
    ensures |Match(t, input, offset, FirstMatch).reported| <= 1
    ensures forall k | k <= input[offset..] && Get(t, k).Some? ::
      && |Match(t, input, offset, FirstMatch).reported| == 1
      && |Match(t, input, offset, FirstMatch).reported[0].key| <= |k|
  {
    var all := MatchAt(t, input, offset, offset, MatchAll).reported;
    MatchAtTakeThrough(t, input, offset, offset, FirstMatch);
    MatchAtIncreasing(t, input, offset, offset, MatchAll);
    var r := Match(t, input, offset, FirstMatch).reported;
    assert r == if all == [] then [] else [all[0]];
    forall k | k <= input[offset..] && Get(t, k).Some?
      ensures |r| == 1 && |r[0].key| <= |k|
    {
      MatchAllExact(t, input, offset, Entry(k, Get(t, k).value));
      var i :| 0 <= i < |all| && all[i] == Entry(k, Get(t, k).value);
    }
  }
}
