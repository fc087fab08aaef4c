/** Enumeration (`walk`): every stored key with its value, depth first. */
module Walker {
  import opened Bytes
  import opened Nodes
  import opened Builder

  /** The entries `walk(parent, visit)` passes to `visit`, in order. */
  function Walk(n: Node, parent: seq<u8>): (r: seq<Entry>)
    ensures forall i | 0 <= i < |r| :: parent + n.fragment <= r[i].key && |parent| < |r[i].key|
    decreases n
  {
    var key := parent + n.fragment;
    (if Reports(n) then [Entry(key, n.value)] else []) + WalkAll(n.children, key)
  }

  function WalkAll(cs: seq<Node>, parent: seq<u8>): (r: seq<Entry>)
    ensures forall i | 0 <= i < |r| :: parent <= r[i].key && |parent| < |r[i].key|
    decreases cs
  {
    if cs == [] then [] else Walk(cs[0], parent) + WalkAll(cs[1..], parent)
  }

  /** The map a list of children denotes, for keys that start just below their parent. */
  function GetBelow(cs: seq<Node>, k: seq<u8>): Option<u32> {
    if k == [] then None
    else match ChildFor(cs, k[0])
      case None => None
      case Some(c) => Get(c, k)
  }

  ghost predicate AllValid(cs: seq<Node>) {
    forall i | 0 <= i < |cs| :: Valid(cs[i])
  }

  /** `walk` reports an entry exactly when the trie stores its key with its value. */
  lemma {:induction false} WalkExact(n: Node, parent: seq<u8>, e: Entry)
    requires Valid(n)
    ensures e in Walk(n, parent) <==> parent <= e.key && Get(n, e.key[|parent|..]) == Some(e.value)
    decreases n, 1
  {
    var key := parent + n.fragment;
    WalkAllExact(n.children, key, e);
    if parent <= e.key {
      var k' := e.key[|parent|..];
      assert e.key == parent + k';
      assert n.fragment <= k' <==> key <= e.key;
      if key <= e.key && |e.key| > |key| {
        assert k'[|n.fragment|..] == e.key[|key|..];
        assert k'[|n.fragment|] == e.key[|key|];
        assert Get(n, k') == GetBelow(n.children, e.key[|key|..]);
      } else if key <= e.key {
        assert e.key == key;
        assert e.key[|key|..] == [];
      }
    }
  }

  lemma {:induction false} WalkAllExact(cs: seq<Node>, parent: seq<u8>, e: Entry)
    requires Ordered(cs) && AllValid(cs)
    ensures e in WalkAll(cs, parent) <==> parent <= e.key && GetBelow(cs, e.key[|parent|..]) == Some(e.value)
    decreases cs, 0
  {
    if cs != [] {
      OrderedTail(cs);
      WalkExact(cs[0], parent, e);
      WalkAllExact(cs[1..], parent, e);
      if parent <= e.key {
        GetBelowCons(cs, e.key[|parent|..]);
      }
    }
  }

  /** Among ordered children, a key is looked up in the first child or else among the others. */
  lemma GetBelowCons(cs: seq<Node>, k: seq<u8>)
    requires Ordered(cs) && cs != []
    ensures GetBelow(cs, k) == if k != [] && StartsWith(cs[0], k[0]) then Get(cs[0], k) else GetBelow(cs[1..], k)
  {
    if k != [] {
      var b := k[0];
      if b == cs[0].fragment[0] {
        ChildForOrdered(cs, 0);
        assert ChildFor(cs[1..], b).None? by {
          forall j | 0 <= j < |cs[1..]| ensures !StartsWith(cs[1..][j], b) {
            assert cs[1..][j] == cs[j + 1];
          }
        }
      } else {
        assert ChildIndex(cs, b) == 1 + ChildIndex(cs[1..], b);
      }
    }
  }

  lemma {:induction false} DistinctConcat(a: seq<Entry>, b: seq<Entry>)
    requires DistinctKeys(a) && DistinctKeys(b)
    requires forall i, j | 0 <= i < |a| && 0 <= j < |b| :: a[i].key != b[j].key
    ensures DistinctKeys(a + b)
  {
    var c := a + b;
    forall i, j | 0 <= i < j < |c| ensures c[i].key != c[j].key {
      if j < |a| {
        assert c[i] == a[i] && c[j] == a[j];
      } else if i >= |a| {
        assert c[i] == b[i - |a|] && c[j] == b[j - |a|];
      } else {
        assert c[i] == a[i] && c[j] == b[j - |a|];
      }
    }
  }

  /** `walk` never reports a key twice. */
  lemma {:induction false} WalkDistinct(n: Node, parent: seq<u8>)
    requires Valid(n)
    ensures DistinctKeys(Walk(n, parent))
    decreases n, 1
  {
    var key := parent + n.fragment;
    var own := if Reports(n) then [Entry(key, n.value)] else [];
    var rest := WalkAll(n.children, key);
    WalkAllDistinct(n.children, key);
    DistinctConcat(own, rest);
  }

  lemma {:induction false} WalkAllDistinct(cs: seq<Node>, parent: seq<u8>)
    requires Ordered(cs) && AllValid(cs)
    ensures DistinctKeys(WalkAll(cs, parent))
    decreases cs, 0
  {
    if cs != [] {
      var c := cs[0];
      assert Ordered(cs[1..]) && AllValid(cs[1..]);
      WalkDistinct(c, parent);
      WalkAllDistinct(cs[1..], parent);
      var first, rest := Walk(c, parent), WalkAll(cs[1..], parent);
      forall i, j | 0 <= i < |first| && 0 <= j < |rest| ensures first[i].key != rest[j].key {
        WalkExact(c, parent, first[i]);
        WalkAllExact(cs[1..], parent, rest[j]);
        var k := rest[j].key[|parent|..];
        var m := ChildIndex(cs[1..], k[0]);
        assert cs[1..][m] == cs[m + 1];
        assert first[i].key[|parent|] == c.fragment[0] < k[0];
      }
      DistinctConcat(first, rest);
    }
  }

  /** `walk` yields exactly the map the trie denotes, one entry per stored key. */
  lemma WalkYieldsContents(t: Node)
    requires Valid(t)
    ensures DistinctKeys(Walk(t, []))
    ensures forall k :: Lookup(Collect(Walk(t, [])), k) == Get(t, k)
  {
    var w := Walk(t, []);
    WalkDistinct(t, []);
    forall k ensures Lookup(Collect(w), k) == Get(t, k) {
      if k in Collect(w) {
        CollectExact(w, Entry(k, Collect(w)[k]));
        WalkExact(t, [], Entry(k, Collect(w)[k]));
      }
      if Get(t, k).Some? {
        WalkExact(t, [], Entry(k, Get(t, k).value));
        CollectExact(w, Entry(k, Get(t, k).value));
      }
    }
  }

  /** What the `walk` test asserts: walking a trie built from `keys` gives back `expect`. */
  lemma WalkAfterBuild(root: Node, keys: seq<seq<u8>>, merge: Merge)
    requires root.fragment == [] && root.children == []
    requires NonEmptyKeys(keys) && |keys| < 0x1_0000_0000
    ensures Collect(Walk(Build(root, keys, merge), [])) == Expected(keys, merge)
  {
    BuildGet(root, keys, merge);
    WalkYieldsContents(Build(root, keys, merge));
    LookupExtensional(Collect(Walk(Build(root, keys, merge), [])), Expected(keys, merge));
  }
}
