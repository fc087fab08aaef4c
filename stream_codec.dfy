/**
 * The stream form (`Encode` / `Decode` / `size`): each node, depth first, as
 * [fragment length][fragment][presence flag][value, when present][child count][children...].
 * Lengths and counts are varints, the flag is one byte (0 or 1), the value four bytes.
 */
module StreamCodec {
  import opened Bytes
  import opened Wire
  import opened Nodes
  import opened Equality

  function Encode(n: Node): seq<u8>
    decreases n, 1
  {
    FragmentField(n.fragment) + ValueField(n.hasValue, n.value) + Uvarint(|n.children|) + EncodeAll(n.children)
  }

  function EncodeAll(cs: seq<Node>): seq<u8>
    decreases cs, 0
  {
    if cs == [] then [] else Encode(cs[0]) + EncodeAll(cs[1..])
  }

  /** `size()`: the number of bytes `Encode` writes, counted without writing them. */
  function Size(n: Node): (r: nat)
    ensures r == |Encode(n)|
    decreases n, 1
  {
    UvarintLength(|n.fragment|);
    UvarintLength(|n.children|);
    UvarintLen(|n.fragment|) + |n.fragment| + (if n.hasValue then 5 else 1)
    + UvarintLen(|n.children|) + SizeAll(n.children)
  }

  function SizeAll(cs: seq<Node>): (r: nat)
    ensures r == |EncodeAll(cs)|
    decreases cs, 0
  {
    if cs == [] then 0 else Size(cs[0]) + SizeAll(cs[1..])
  }

  /**
   * Reads one node at `pos`, returning it and the position after it. Fails when a declared length
   * or count runs past the end of the stream, on an overlong varint, on a presence flag other
   * than 0 or 1, and when the children read break the trie invariant.
   */
  function DecodeAt(s: seq<u8>, pos: nat): (r: Result<(Node, nat)>)
    requires pos <= |s|
    ensures r.Ok? ==> pos < r.value.1 <= |s|
    decreases |s| - pos, 0
  {
    var (fragment, p1) :- ReadFragment(s, pos, |s|);
    var (hasValue, value, p2) :- ReadValue(s, p1, |s|);
    var (count, p3) :- ReadUvarint(s, p2, |s|);
    var (children, p4) :- DecodeAllAt(s, p3, count);
    if !WellFormedChildren(children) then Err(NotATrie)
    else Ok((Node(fragment, hasValue, value, children), p4))
  }

  /** Reads `k` nodes one after another. */
  function DecodeAllAt(s: seq<u8>, pos: nat, k: nat): (r: Result<(seq<Node>, nat)>)
    requires pos <= |s|
    ensures r.Ok? ==> |r.value.0| == k && pos <= r.value.1 <= |s|
    decreases |s| - pos, 1, k
  {
    if k == 0 then Ok(([], pos))
    else
      var (c, p1) :- DecodeAt(s, pos);
      var (rest, p2) :- DecodeAllAt(s, p1, k - 1);
      Ok(([c] + rest, p2))
  }

  /**
   * `Decode(reader)`: the node at the head of the stream; whatever follows it is not read.
   * Only a stream that begins with the encoding of a valid trie is accepted.
   */
  function Decode(s: seq<u8>): (r: Result<Node>)
    ensures r.Ok? ==> Valid(r.value) && Encode(r.value) <= s
  {
    var (n, q) :- DecodeAt(s, 0);
    DecodeAtWritten(s, 0, n, q);
    assert s[..q] == Encode(n);
    Ok(n)
  }

  // ----- round trip -----

  /** Wherever an encoding occurs in a stream, decoding there reads it back, to its last byte. */
  lemma {:induction false} DecodeEncodeAt(s: seq<u8>, p: nat, n: Node)
    requires At(s, p, Encode(n)) && Valid(n)
    ensures DecodeAt(s, p).Ok?
    ensures DecodeAt(s, p).value.0 == Canonical(n)
    ensures DecodeAt(s, p).value.1 == p + |Encode(n)|
    decreases n, 1
  {
    var count := Uvarint(|n.children|);
    var p1 := p + |FragmentField(n.fragment)|;
    var p2 := p1 + |ValueField(n.hasValue, n.value)|;
    var p3 := p2 + |count|;
    assert Encode(n) == FragmentField(n.fragment) + (ValueField(n.hasValue, n.value) + (count + EncodeAll(n.children)));
    ReadFragmentThen(s, p, |s|, n.fragment, ValueField(n.hasValue, n.value) + (count + EncodeAll(n.children)), p1);
    ReadValueThen(s, p1, |s|, n.hasValue, n.value, count + EncodeAll(n.children), p2);
    ReadUvarintThen(s, p2, |s|, |n.children|, EncodeAll(n.children), p3);
    DecodeEncodeAllAt(s, p3, n.children);
    CanonicalValid(n);
    DecodeStep(s, p, n.fragment, p1, n.hasValue, if n.hasValue then n.value else 0, p2, |n.children|, p3);
  }

  /** Reading a node is reading its three fields, then its children. */
  lemma DecodeStep(s: seq<u8>, p: nat, f: seq<u8>, p1: nat, h: bool, v: u32, p2: nat, k: nat, p3: nat)
    requires p <= |s| && ReadFragment(s, p, |s|) == Ok((f, p1))
    requires p1 <= |s| && ReadValue(s, p1, |s|) == Ok((h, v, p2))
    requires p2 <= |s| && ReadUvarint(s, p2, |s|) == Ok((k, p3))
    requires p3 <= |s| && DecodeAllAt(s, p3, k).Ok? && WellFormedChildren(DecodeAllAt(s, p3, k).value.0)
    ensures DecodeAt(s, p).Ok?
    ensures DecodeAt(s, p).value.0 == Node(f, h, v, DecodeAllAt(s, p3, k).value.0)
    ensures DecodeAt(s, p).value.1 == DecodeAllAt(s, p3, k).value.1
  {
  }

  lemma {:induction false} DecodeEncodeAllAt(s: seq<u8>, p: nat, cs: seq<Node>)
    requires At(s, p, EncodeAll(cs)) && forall i | 0 <= i < |cs| :: Valid(cs[i])
    ensures DecodeAllAt(s, p, |cs|).Ok?
    ensures DecodeAllAt(s, p, |cs|).value.0 == CanonicalAll(cs)
    ensures DecodeAllAt(s, p, |cs|).value.1 == p + |EncodeAll(cs)|
    decreases cs, 0
  {
    if cs != [] {
      var p1 := p + |Encode(cs[0])|;
      AtSplit(s, p, Encode(cs[0]), EncodeAll(cs[1..]), p1);
      DecodeEncodeAt(s, p, cs[0]);
      DecodeEncodeAllAt(s, p1, cs[1..]);
      DecodeAllStep(s, p, |cs|, p1, |cs[1..]|);
      assert CanonicalAll(cs) == [Canonical(cs[0])] + CanonicalAll(cs[1..]);
    }
  }

  /** Reading `k > 0` nodes is reading the first node, ending at `p1`, then the other `m` nodes. */
  lemma DecodeAllStep(s: seq<u8>, p: nat, k: nat, p1: nat, m: nat)
    requires p <= |s| && k == m + 1
    requires DecodeAt(s, p).Ok? && DecodeAt(s, p).value.1 == p1 && DecodeAllAt(s, p1, m).Ok?
    ensures DecodeAllAt(s, p, k).Ok?
    ensures DecodeAllAt(s, p, k).value.0 == [DecodeAt(s, p).value.0] + DecodeAllAt(s, p1, m).value.0
    ensures DecodeAllAt(s, p, k).value.1 == DecodeAllAt(s, p1, m).value.1
  {
  }

  /** `Decode` reads back what `Encode` wrote of a valid trie: a tree `Equals` the original. */
  lemma DecodeEncode(t: Node)
    requires Valid(t)
    ensures Decode(Encode(t)).Ok?
    ensures Decode(Encode(t)).value == Canonical(t) && Equals(Decode(Encode(t)).value, t)
  {
    assert Encode(t)[0..|Encode(t)|] == Encode(t);
    DecodeEncodeAt(Encode(t), 0, t);
    CanonicalEquals(t);
  }

  /** A stream that begins with the encoding of a valid trie decodes to that trie, whatever follows it. */
  lemma DecodePrefix(t: Node, s: seq<u8>)
    requires Valid(t) && Encode(t) <= s
    ensures Decode(s) == Ok(Canonical(t))
  {
    assert s[0..|Encode(t)|] == Encode(t);
    DecodeEncodeAt(s, 0, t);
  }

  // ----- what is read was written -----

  /** A node is read only where `Encode` wrote it, and what is read is a valid trie. */
  lemma {:induction false} DecodeAtWritten(s: seq<u8>, p: nat, t: Node, q: nat)
    requires p <= |s| && DecodeAt(s, p) == Ok((t, q))
    ensures At(s, p, Encode(t)) && q == p + |Encode(t)| && Valid(t)
    decreases |s| - p, 0
  {
    var p1, p2, p3 := DecodeAtFields(s, p, t, q);
    ReadFragmentWritten(s, p, |s|, t.fragment, p1);
    ReadValueWritten(s, p1, |s|, t.hasValue, t.value, p2);
    ReadUvarintWritten(s, p2, |s|, |t.children|, p3);
    DecodeAllAtWritten(s, p3, |t.children|, t.children, q);
    EncodeJoin(s, p, t, p1, p2, p3, q);
  }

  /** The positions at which a node that was read has its fields, and what was read there. */
  lemma DecodeAtFields(s: seq<u8>, p: nat, t: Node, q: nat) returns (p1: nat, p2: nat, p3: nat)
    requires p <= |s| && DecodeAt(s, p) == Ok((t, q))
    ensures p1 <= |s| && ReadFragment(s, p, |s|) == Ok((t.fragment, p1))
    ensures p2 <= |s| && ReadValue(s, p1, |s|) == Ok((t.hasValue, t.value, p2))
    ensures p3 <= |s| && ReadUvarint(s, p2, |s|) == Ok((|t.children|, p3))
    ensures DecodeAllAt(s, p3, |t.children|) == Ok((t.children, q))
    ensures WellFormedChildren(t.children)
  {
    p1 := ReadFragment(s, p, |s|).value.1;
    p2 := ReadValue(s, p1, |s|).value.2;
    p3 := ReadUvarint(s, p2, |s|).value.1;
  }

  /** The four fields of a node, one after another, are its encoding. */
  lemma EncodeJoin(s: seq<u8>, p: nat, t: Node, p1: nat, p2: nat, p3: nat, q: nat)
    requires At(s, p, FragmentField(t.fragment)) && p1 == p + |FragmentField(t.fragment)|
    requires At(s, p1, ValueField(t.hasValue, t.value)) && p2 == p1 + |ValueField(t.hasValue, t.value)|
    requires At(s, p2, Uvarint(|t.children|)) && p3 == p2 + |Uvarint(|t.children|)|
    requires At(s, p3, EncodeAll(t.children)) && q == p3 + |EncodeAll(t.children)|
    ensures At(s, p, Encode(t)) && q == p + |Encode(t)|
  {
    AtJoin(s, p, FragmentField(t.fragment), ValueField(t.hasValue, t.value), Uvarint(|t.children|), EncodeAll(t.children), p1, p2, p3, q);
  }

  lemma {:induction false} DecodeAllAtWritten(s: seq<u8>, p: nat, k: nat, cs: seq<Node>, q: nat)
    requires p <= |s| && DecodeAllAt(s, p, k) == Ok((cs, q))
    ensures At(s, p, EncodeAll(cs)) && q == p + |EncodeAll(cs)|
    ensures forall i | 0 <= i < |cs| :: Valid(cs[i])
    decreases |s| - p, 1, k
  {
    if k > 0 {
      var c, p1, rest := DecodeAllFields(s, p, k, cs, q);
      DecodeAtWritten(s, p, c, p1);
      DecodeAllAtWritten(s, p1, k - 1, rest, q);
      EncodeAllCons(c, rest);
      AtConcat(s, p, Encode(c), EncodeAll(rest));
      ValidCons(c, rest);
    } else {
      assert cs == [] && EncodeAll(cs) == [] && s[p..p] == [];
    }
  }

  lemma EncodeAllCons(c: Node, rest: seq<Node>)
    ensures EncodeAll([c] + rest) == Encode(c) + EncodeAll(rest)
  {
    assert ([c] + rest)[1..] == rest;
  }

  /** The first node and the remaining ones of `k > 0` nodes read one after another. */
  lemma DecodeAllFields(s: seq<u8>, p: nat, k: nat, cs: seq<Node>, q: nat) returns (c: Node, p1: nat, rest: seq<Node>)
    requires p <= |s| && k > 0 && DecodeAllAt(s, p, k) == Ok((cs, q))
    ensures DecodeAt(s, p) == Ok((c, p1)) && p1 <= |s|
    ensures DecodeAllAt(s, p1, k - 1) == Ok((rest, q)) && cs == [c] + rest
  {
    c, p1 := DecodeAt(s, p).value.0, DecodeAt(s, p).value.1;
    rest := DecodeAllAt(s, p1, k - 1).value.0;
  }

  /** No encoding is a proper prefix of another: equal streams that begin with encodings begin with the same one, of one canonical tree. */
  lemma {:induction false} EncodePrefixFree(a: Node, b: Node, x: seq<u8>, y: seq<u8>)
    requires Encode(a) + x == Encode(b) + y
    ensures Encode(a) == Encode(b) && x == y && Canonical(a) == Canonical(b)
    decreases a, 1
  {
    var xs, ys := a.children, b.children;
    Regroup(FragmentField(a.fragment), ValueField(a.hasValue, a.value), Uvarint(|xs|), EncodeAll(xs), x);
    Regroup(FragmentField(b.fragment), ValueField(b.hasValue, b.value), Uvarint(|ys|), EncodeAll(ys), y);
    HeaderCancel(a.fragment, a.hasValue, a.value, |xs|, EncodeAll(xs) + x, b.fragment, b.hasValue, b.value, |ys|, EncodeAll(ys) + y);
    EncodeAllPrefixFree(xs, ys, x, y);
    assert Canonical(a).value == Canonical(b).value;
  }

  lemma {:induction false} EncodeAllPrefixFree(xs: seq<Node>, ys: seq<Node>, x: seq<u8>, y: seq<u8>)
    requires |xs| == |ys| && EncodeAll(xs) + x == EncodeAll(ys) + y
    ensures EncodeAll(xs) == EncodeAll(ys) && x == y && CanonicalAll(xs) == CanonicalAll(ys)
    decreases xs, 0
  {
    if xs != [] {
      Regroup2(Encode(xs[0]), EncodeAll(xs[1..]), x);
      Regroup2(Encode(ys[0]), EncodeAll(ys[1..]), y);
      EncodePrefixFree(xs[0], ys[0], EncodeAll(xs[1..]) + x, EncodeAll(ys[1..]) + y);
      EncodeAllPrefixFree(xs[1..], ys[1..], x, y);
      assert CanonicalAll(xs) == [Canonical(xs[0])] + CanonicalAll(xs[1..]);
      assert CanonicalAll(ys) == [Canonical(ys[0])] + CanonicalAll(ys[1..]);
    } else {
      assert x == EncodeAll(xs) + x && y == EncodeAll(ys) + y;
    }
  }

  /** The encoding of a tree decodes exactly when the tree is a valid trie. */
  lemma DecodeEncodeValid(t: Node)
    ensures Decode(Encode(t)).Ok? <==> Valid(t)
  {
    var s := Encode(t);
    assert s[0..|s|] == s;
    if Valid(t) {
      DecodeEncode(t);
    }
    if Decode(s).Ok? {
      var (t', q) := DecodeAt(s, 0).value;
      DecodeAtWritten(s, 0, t', q);
      AtHead(s, Encode(t'), q);
      AtHead(s, Encode(t), |s|);
      EncodePrefixFree(t', t, s[q..], s[|s|..]);
      CanonicalValid(t');
      CanonicalValid(t);
    }
  }

  // ----- rejecting what is not an encoding -----

  /** A node read from a stream depends only on the bytes up to where the read stopped. */
  lemma {:induction false} DecodeFrame(s: seq<u8>, s': seq<u8>, p: nat)
    requires p <= |s| && DecodeAt(s, p).Ok?
    requires DecodeAt(s, p).value.1 <= |s'| && s[..DecodeAt(s, p).value.1] == s'[..DecodeAt(s, p).value.1]
    ensures DecodeAt(s', p) == DecodeAt(s, p)
    decreases |s| - p, 0
  {
    var q := DecodeAt(s, p).value.1;
    var p1 := ReadFragment(s, p, |s|).value.1;
    var p2 := ReadValue(s, p1, |s|).value.2;
    var (count, p3) := ReadUvarint(s, p2, |s|).value;
    PrefixOfPrefix(s, s', p1, q);
    PrefixOfPrefix(s, s', p2, q);
    PrefixOfPrefix(s, s', p3, q);
    ReadFragmentFrame(s, s', p, |s|, |s'|);
    ReadValueFrame(s, s', p1, |s|, |s'|);
    ReadUvarintFrame(s, s', p2, |s|, |s'|);
    DecodeAllFrame(s, s', p3, count);
  }

  lemma {:induction false} DecodeAllFrame(s: seq<u8>, s': seq<u8>, p: nat, k: nat)
    requires p <= |s| && DecodeAllAt(s, p, k).Ok?
    requires DecodeAllAt(s, p, k).value.1 <= |s'| && s[..DecodeAllAt(s, p, k).value.1] == s'[..DecodeAllAt(s, p, k).value.1]
    ensures DecodeAllAt(s', p, k) == DecodeAllAt(s, p, k)
    decreases |s| - p, 1, k
  {
    if k > 0 {
      var (cs, q) := DecodeAllAt(s, p, k).value;
      var c, p1, rest := DecodeAllFields(s, p, k, cs, q);
      PrefixOfPrefix(s, s', p1, q);
      DecodeFrame(s, s', p);
      DecodeAllFrame(s, s', p1, k - 1);
      DecodeAllStep(s', p, k, p1, k - 1);
    }
  }

  /** Streams that agree up to `q` agree up to any earlier position. */
  lemma PrefixOfPrefix(s: seq<u8>, s': seq<u8>, p: nat, q: nat)
    requires p <= q <= |s| && q <= |s'| && s[..q] == s'[..q]
    ensures s[..p] == s'[..p]
  {
    assert s[..p] == s[..q][..p];
    assert s'[..p] == s'[..q][..p];
  }

  /** Every proper prefix of an encoding is rejected: a cut-off stream never yields a tree. */
  lemma DecodeTruncated(t: Node, j: nat)
    requires j < |Encode(t)|
    ensures Decode(Encode(t)[..j]).Err?
  {
    var s := Encode(t);
    var s' := s[..j];
    if DecodeAt(s', 0).Ok? {
      var (t', q) := DecodeAt(s', 0).value;
      assert s'[..q] == s[..q];
      DecodeFrame(s', s, 0);
      DecodeAtWritten(s, 0, t', q);
      AtHead(s, Encode(t'), q);
      AtHead(s, Encode(t), |s|);
      EncodePrefixFree(t', t, s[q..], s[|s|..]);
      assert false;
    }
  }
}
