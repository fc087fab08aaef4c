/**
 * Insertion (`add`): puts a key below a node, splitting an edge where the key and an existing
 * fragment share only part of their bytes, and merging or overwriting on a duplicate key.
 */
module Builder {
  import opened Bytes
  import opened Nodes

  /** The optional merge function of `add`, called with the previous value; `None` overwrites. */
  type Merge = Option<u32 -> u32>

  /** The value a key holds after inserting `v`, given what it held before. */
  function Merged(prev: Option<u32>, v: u32, merge: Merge): u32 {
    match prev
    case None => v
    case Some(p) => if merge.Some? then merge.value(p) else v
  }

  /** Length of the longest common prefix of `a` and `b`. */
  function CommonPrefix(a: seq<u8>, b: seq<u8>): (n: nat)
    ensures n <= |a| && n <= |b|
    ensures a[..n] == b[..n]
    ensures n < |a| && n < |b| ==> a[n] != b[n]
  {
    if |a| == 0 || |b| == 0 || a[0] != b[0] then 0
    else
      var m := CommonPrefix(a[1..], b[1..]);
      assert a[..m + 1] == [a[0]] + a[1..][..m];
      assert b[..m + 1] == [b[0]] + b[1..][..m];
      1 + m
  }

  /** Places `c` among ordered children, before the first child with a greater leading byte. */
  function InsertOrdered(cs: seq<Node>, c: Node): (r: seq<Node>)
    requires |c.fragment| > 0
    ensures |r| == |cs| + 1
  {
    if cs == [] || (|cs[0].fragment| > 0 && c.fragment[0] < cs[0].fragment[0]) then [c] + cs
    else [cs[0]] + InsertOrdered(cs[1..], c)
  }

  /** Two nodes with distinct leading bytes, in order. */
  function Pair(a: Node, b: Node): seq<Node>
    requires |a.fragment| > 0 && |b.fragment| > 0
  {
    if a.fragment[0] < b.fragment[0] then [a, b] else [b, a]
  }

  /**
   * Inserts `key` (relative to the end of `n`'s fragment) with value `v` below `n`.
   * The node's own fragment and value are left alone; children are only ever added or replaced.
   */
  function Insert(n: Node, key: seq<u8>, v: u32, merge: Merge): (r: Node)
    requires |key| > 0
    ensures r.fragment == n.fragment && r.hasValue == n.hasValue && r.value == n.value
    ensures |r.children| >= |n.children|
    decreases |key|, 1
  {
    var cs := n.children;
    var i := ChildIndex(cs, key[0]);
    if i == |cs| then
      // no child starts with the key's leading byte: attach a new leaf
      n.(children := InsertOrdered(cs, Leaf(key, v)))
    else
      n.(children := cs[i := Descend(cs[i], key, v, merge)])
  }

  /** The node that replaces child `c`, which shares the key's leading byte, once `key` is inserted through it. */
  function Descend(c: Node, key: seq<u8>, v: u32, merge: Merge): (c': Node)
    requires |key| > 0 && StartsWith(c, key[0])
    ensures StartsWith(c', key[0])
    decreases |key|, 0
  {
    var p := CommonPrefix(c.fragment, key);
    if p == |c.fragment| && p == |key| then
      // the key ends exactly at `c`
      c.(hasValue := true, value := Merged(if c.hasValue then Some(c.value) else None, v, merge))
    else if p == |c.fragment| then
      // `c`'s fragment is a proper prefix of the key: continue below `c`
      Insert(c, key[p..], v, merge)
    else if p == |key| then
      // the key is a proper prefix of `c`'s fragment: a new valued node above `c`
      Node(key, true, v, [c.(fragment := c.fragment[p..])])
    else
      // a strict partial common prefix: a branching node holding `c` and a new leaf
      Node(key[..p], false, 0, Pair(c.(fragment := c.fragment[p..]), Leaf(key[p..], v)))
  }

  // ----- child lists -----

  lemma {:induction false} InsertOrderedMembers(cs: seq<Node>, c: Node)
    requires |c.fragment| > 0
    ensures forall x :: x in InsertOrdered(cs, c) <==> x == c || x in cs
  {
    if cs != [] && !(|cs[0].fragment| > 0 && c.fragment[0] < cs[0].fragment[0]) {
      InsertOrderedMembers(cs[1..], c);
      assert cs == [cs[0]] + cs[1..];
    }
  }

  lemma {:induction false} InsertOrderedOrdered(cs: seq<Node>, c: Node)
    requires Ordered(cs) && |c.fragment| > 0 && ChildFor(cs, c.fragment[0]).None?
    ensures Ordered(InsertOrdered(cs, c))
  {
    var r := InsertOrdered(cs, c);
    if cs != [] && c.fragment[0] >= cs[0].fragment[0] {
      assert !StartsWith(cs[0], c.fragment[0]);
      assert Ordered(cs[1..]);
      InsertOrderedOrdered(cs[1..], c);
      InsertOrderedMembers(cs[1..], c);
      assert r == [cs[0]] + InsertOrdered(cs[1..], c);
      forall j | 1 <= j < |r|
        ensures cs[0].fragment[0] < r[j].fragment[0]
      {
        assert r[j] in InsertOrdered(cs[1..], c);
      }
    }
  }

  /** Inserting a child whose leading byte no other child has redirects only that byte. */
  lemma {:induction false} InsertOrderedChildFor(cs: seq<Node>, c: Node, b: u8)
    requires |c.fragment| > 0 && ChildFor(cs, c.fragment[0]).None?
    ensures ChildFor(InsertOrdered(cs, c), b) == if b == c.fragment[0] then Some(c) else ChildFor(cs, b)
  {
    var r := InsertOrdered(cs, c);
    if cs == [] || (|cs[0].fragment| > 0 && c.fragment[0] < cs[0].fragment[0]) {
      assert r[1..] == cs;
    } else {
      assert r[1..] == InsertOrdered(cs[1..], c);
      if !StartsWith(cs[0], b) {
        assert ChildFor(cs[1..], c.fragment[0]).None?;
        InsertOrderedChildFor(cs[1..], c, b);
      }
    }
  }

  /** The child a byte leads to among two children with distinct leading bytes. */
  lemma PairChildFor(a: Node, b: Node, x: u8)
    requires |a.fragment| > 0 && |b.fragment| > 0 && a.fragment[0] != b.fragment[0]
    ensures ChildFor(Pair(a, b), x) ==
      if StartsWith(a, x) then Some(a) else if StartsWith(b, x) then Some(b) else None
  {
    var cs := Pair(a, b);
    assert cs[1..] == [cs[1]];
    assert cs[1..][1..] == [];
  }

  /** Replacing the child a byte leads to by one with the same leading byte redirects only that byte. */
  lemma ChildForUpdate(cs: seq<Node>, c': Node, b0: u8, b: u8)
    requires ChildIndex(cs, b0) < |cs| && StartsWith(c', b0)
    ensures ChildFor(cs[ChildIndex(cs, b0) := c'], b) == if b == b0 then Some(c') else ChildFor(cs, b)
  {
    var i := ChildIndex(cs, b0);
    var cs' := cs[i := c'];
    if b == b0 {
      ChildIndexIs(cs', b, i);
    } else {
      ChildIndexIs(cs', b, ChildIndex(cs, b));
    }
  }

  // ----- invariants -----

  lemma {:induction false} InsertValid(n: Node, key: seq<u8>, v: u32, merge: Merge)
    requires Valid(n) && |key| > 0
    ensures Valid(Insert(n, key, v, merge))
    decreases |key|, 1
  {
    var cs := n.children;
    var i := ChildIndex(cs, key[0]);
    var r := Insert(n, key, v, merge);
    if i == |cs| {
      var leaf := Leaf(key, v);
      InsertOrderedOrdered(cs, leaf);
      InsertOrderedMembers(cs, leaf);
      forall j | 0 <= j < |r.children|
        ensures Compact(r.children[j]) && Valid(r.children[j])
      {
        assert r.children[j] in r.children;
      }
    } else {
      var c' := Descend(cs[i], key, v, merge);
      DescendValid(cs[i], key, v, merge);
      OrderedUpdate(cs, i, c');
      assert r.children == cs[i := c'];
    }
  }

  /** Replacing a child by one with the same leading byte keeps the children ordered. */
  lemma OrderedUpdate(cs: seq<Node>, i: nat, c': Node)
    requires Ordered(cs) && i < |cs| && |c'.fragment| > 0 && c'.fragment[0] == cs[i].fragment[0]
    ensures Ordered(cs[i := c'])
  {
  }

  lemma {:induction false} DescendValid(c: Node, key: seq<u8>, v: u32, merge: Merge)
    requires Valid(c) && Compact(c) && |key| > 0 && StartsWith(c, key[0])
    ensures Valid(Descend(c, key, v, merge)) && Compact(Descend(c, key, v, merge))
    decreases |key|, 0
  {
    var p := CommonPrefix(c.fragment, key);
    var c' := Descend(c, key, v, merge);
    if p == |c.fragment| && p == |key| {
    } else if p == |c.fragment| {
      InsertValid(c, key[p..], v, merge);
    } else if p == |key| {
      var d := c.(fragment := c.fragment[p..]);
      assert c'.children == [d];
      assert Valid(d) && Compact(d);
    } else {
      var d := c.(fragment := c.fragment[p..]);
      var leaf := Leaf(key[p..], v);
      assert c'.children == Pair(d, leaf);
      assert Valid(d) && Compact(d) && Valid(leaf);
    }
  }

  // ----- the map the trie denotes -----

  /** A node with fragment `a + f` answers for `k` (which starts with `a`) what the node with fragment `f` answers for the rest. */
  lemma GetShift(c: Node, a: seq<u8>, k: seq<u8>)
    requires |c.fragment| > |a| && c.fragment[..|a|] == a && a <= k
    ensures Get(c, k) == Get(c.(fragment := c.fragment[|a|..]), k[|a|..])
  {
    var f := c.fragment[|a|..];
    assert c.fragment == a + f;
    var k' := k[|a|..];
    assert k == a + k';
    assert c.fragment <= k <==> f <= k';
    if c.fragment <= k && |k| > |c.fragment| {
      assert k[|c.fragment|] == k'[|f|];
      assert k[|c.fragment|..] == k'[|f|..];
    }
  }

  /** What the replaced child answers once the key is inserted through it. */
  lemma {:induction false} DescendGet(c: Node, key: seq<u8>, v: u32, merge: Merge, rest: seq<u8>)
    requires |key| > 0 && StartsWith(c, key[0])
    ensures Get(Descend(c, key, v, merge), rest) ==
      if rest == key then Some(Merged(Get(c, rest), v, merge)) else Get(c, rest)
    decreases |key|, 0
  {
    var p := CommonPrefix(c.fragment, key);
    assert c.fragment[..1] == key[..1];
    if p == |c.fragment| && p == |key| {
      assert c.fragment == key;
    } else if p == |c.fragment| {
      assert key == c.fragment + key[p..];
      PrefixTake(c.fragment, p, rest);
      InsertGet(c, key[p..], v, merge, rest);
    } else if p == |key| {
      SplitAboveGet(c, key, v, rest);
    } else {
      SplitBranchGet(c, key, p, v, rest);
    }
  }

  /** A new valued node for `key` above `c`, whose fragment `key` properly prefixes, adds just `key`. */
  lemma SplitAboveGet(c: Node, key: seq<u8>, v: u32, rest: seq<u8>)
    requires 0 < |key| < |c.fragment| && c.fragment[..|key|] == key
    ensures Get(Node(key, true, v, [c.(fragment := c.fragment[|key|..])]), rest) ==
      if rest == key then Some(v) else Get(c, rest)
  {
    var p := |key|;
    var d := c.(fragment := c.fragment[p..]);
    var c' := Node(key, true, v, [d]);
    PrefixTake(c.fragment, p, rest);
    if key <= rest && |rest| > p {
      GetShift(c, key, rest);
      assert ChildFor(c'.children, rest[p]) == if StartsWith(d, rest[p]) then Some(d) else None;
    } else if key <= rest {
      assert rest == key;
      assert !(c.fragment <= rest);
    }
  }

  /** A branching node over `c` and a new leaf, split after `p` shared bytes, adds just `key`. */
  lemma SplitBranchGet(c: Node, key: seq<u8>, p: nat, v: u32, rest: seq<u8>)
    requires 0 < p < |key| && p < |c.fragment| && c.fragment[..p] == key[..p] && c.fragment[p] != key[p]
    ensures Get(Node(key[..p], false, 0, Pair(c.(fragment := c.fragment[p..]), Leaf(key[p..], v))), rest) ==
      if rest == key then Some(v) else Get(c, rest)
  {
    var a := key[..p];
    var d := c.(fragment := c.fragment[p..]);
    var leaf := Leaf(key[p..], v);
    PrefixTake(c.fragment, p, rest);
    if a <= rest && |rest| > p {
      GetShift(c, a, rest);
      PairChildFor(d, leaf, rest[p]);
      assert rest == a + rest[p..];
      assert key == a + leaf.fragment;
    } else if a <= rest {
      assert rest == a;
      assert !(c.fragment <= rest) && !(key <= rest);
    }
  }

  /** Insertion refines map update: only `n.fragment + key` changes, to the merged or new value. */
  lemma {:induction false} InsertGet(n: Node, key: seq<u8>, v: u32, merge: Merge, k: seq<u8>)
    requires |key| > 0
    ensures Get(Insert(n, key, v, merge), k) ==
      if k == n.fragment + key then Some(Merged(Get(n, k), v, merge)) else Get(n, k)
    decreases |key|, 1
  {
    var cs := n.children;
    var i := ChildIndex(cs, key[0]);
    var r := Insert(n, key, v, merge);
    var f := n.fragment;
    if f <= k && |k| > |f| {
      var b := k[|f|];
      var rest := k[|f|..];
      assert k == f + rest;
      assert k == f + key <==> rest == key;
      if i == |cs| {
        var leaf := Leaf(key, v);
        InsertOrderedChildFor(cs, leaf, b);
      } else {
        var c := cs[i];
        ChildForUpdate(cs, Descend(c, key, v, merge), key[0], b);
        if b == key[0] {
          DescendGet(c, key, v, merge, rest);
        }
      }
    } else {
      assert k != f + key;
    }
  }

  // ----- building a trie from a keyword list, as the tests do -----

  predicate NonEmptyKeys(keys: seq<seq<u8>>) {
    forall i | 0 <= i < |keys| :: |keys[i]| > 0
  }

  /** Inserts `keys[i]` with value `i + 1`, in order, below `root`. */
  function Build(root: Node, keys: seq<seq<u8>>, merge: Merge): (r: Node)
    requires NonEmptyKeys(keys) && |keys| < 0x1_0000_0000
    ensures r.fragment == root.fragment
  {
    if keys == [] then root
    else Insert(Build(root, keys[..|keys| - 1], merge), keys[|keys| - 1], |keys| as u32, merge)
  }

  /** Adding keywords one by one keeps the trie invariants. */
  lemma {:induction false} BuildValid(root: Node, keys: seq<seq<u8>>, merge: Merge)
    requires Valid(root) && NonEmptyKeys(keys) && |keys| < 0x1_0000_0000
    ensures Valid(Build(root, keys, merge))
  {
    if keys != [] {
      var init := keys[..|keys| - 1];
      assert NonEmptyKeys(init);
      BuildValid(root, init, merge);
      InsertValid(Build(root, init, merge), keys[|keys| - 1], |keys| as u32, merge);
    }
  }

  /** The map a caller expects after those insertions: `expect[keyword] = i + 1`, merged on duplicates. */
  function Expected(keys: seq<seq<u8>>, merge: Merge): map<seq<u8>, u32>
    requires |keys| < 0x1_0000_0000
  {
    if keys == [] then map[]
    else
      var m := Expected(keys[..|keys| - 1], merge);
      var k := keys[|keys| - 1];
      m[k := Merged(if k in m then Some(m[k]) else None, |keys| as u32, merge)]
  }

  /** The keys expected are exactly the keywords added. */
  lemma {:induction false} ExpectedKeys(keys: seq<seq<u8>>, merge: Merge, k: seq<u8>)
    requires |keys| < 0x1_0000_0000
    ensures k in Expected(keys, merge) <==> k in keys
  {
    if keys != [] {
      var init := keys[..|keys| - 1];
      ExpectedKeys(init, merge, k);
      assert keys == init + [keys[|keys| - 1]];
    }
  }

  /** Without a merge function, a keyword added more than once keeps the value of its last addition. */
  lemma {:induction false} ExpectedOverwrite(keys: seq<seq<u8>>, i: nat)
    requires |keys| < 0x1_0000_0000 && i < |keys|
    requires forall j | i < j < |keys| :: keys[j] != keys[i]
    ensures keys[i] in Expected(keys, None) && Expected(keys, None)[keys[i]] == (i + 1) as u32
  {
    if i < |keys| - 1 {
      var init := keys[..|keys| - 1];
      assert init[i] == keys[i];
      ExpectedOverwrite(init, i);
    }
  }

  /** With a merge function that returns the previous value, a keyword keeps the value of its first addition. */
  lemma {:induction false} ExpectedKeepFirst(keys: seq<seq<u8>>, merge: Merge, i: nat)
    requires |keys| < 0x1_0000_0000 && i < |keys|
    requires merge.Some? && forall p: u32 :: merge.value(p) == p
    requires forall j | 0 <= j < i :: keys[j] != keys[i]
    ensures keys[i] in Expected(keys, merge) && Expected(keys, merge)[keys[i]] == (i + 1) as u32
  {
    var init := keys[..|keys| - 1];
    if i == |keys| - 1 {
      ExpectedKeys(init, merge, keys[i]);
      assert keys[i] !in init by {
        forall j | 0 <= j < |init| ensures init[j] != keys[i] {
          assert init[j] == keys[j];
        }
      }
    } else {
      assert init[i] == keys[i];
      ExpectedKeepFirst(init, merge, i);
    }
  }

  /** Building from an empty-fragment, childless root gives a valid trie that stores exactly `Expected`. */
  lemma {:induction false} BuildGet(root: Node, keys: seq<seq<u8>>, merge: Merge)
    requires root.fragment == [] && root.children == []
    requires NonEmptyKeys(keys) && |keys| < 0x1_0000_0000
    ensures Valid(Build(root, keys, merge))
    ensures forall k :: Get(Build(root, keys, merge), k) == Lookup(Expected(keys, merge), k)
  {
    if keys != [] {
      var init := keys[..|keys| - 1];
      var last := keys[|keys| - 1];
      BuildGet(root, init, merge);
      var t := Build(root, init, merge);
      var v := |keys| as u32;
      InsertValid(t, last, v, merge);
      var m := Expected(init, merge);
      assert Build(root, keys, merge) == Insert(t, last, v, merge);
      assert Expected(keys, merge) == m[last := Merged(Lookup(m, last), v, merge)];
      assert t.fragment + last == last;
      forall k
        ensures Get(Insert(t, last, v, merge), k) == Lookup(m[last := Merged(Lookup(m, last), v, merge)], k)
      {
        InsertGet(t, last, v, merge, k);
      }
    }
  }
}
