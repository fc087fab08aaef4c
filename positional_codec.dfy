/**
 * The positional form (`Data` / `LoadNode`): the whole tree in one buffer, each node as a record
 * [body length][body], the body being [fragment length][fragment][presence flag][value, when present]
 * [child count][child records...]. A loader finds every child from the lengths alone, inside the
 * window its parent's record declares.
 */
module PositionalCodec {
  import opened Bytes
  import opened Wire
  import opened Nodes
  import opened Equality

  /** `Data()`: the record of `n`, its body prefixed by the body's length. */
  function Data(n: Node): seq<u8>
    decreases n, 2
  {
    Uvarint(|Body(n)|) + Body(n)
  }

  function Body(n: Node): seq<u8>
    decreases n, 1
  {
    FragmentField(n.fragment) + ValueField(n.hasValue, n.value) + Uvarint(|n.children|) + Records(n.children)
  }

  /** The records of `cs`, one after another. */
  function Records(cs: seq<Node>): seq<u8>
    decreases cs, 0
  {
    if cs == [] then [] else Data(cs[0]) + Records(cs[1..])
  }

  /**
   * Loads the node whose body fills the window `b[start..end]`. Fails when a field or record
   * runs past the window, on an overlong varint, on a bad presence flag, when the children do not
   * fill the window exactly, and when the children read break the trie invariant.
   */
  function LoadBodyAt(b: seq<u8>, start: nat, end: nat): Result<Node>
    requires start <= end <= |b|
    decreases end - start, 0
  {
    var (fragment, p1) :- ReadFragment(b, start, end);
    var (hasValue, value, p2) :- ReadValue(b, p1, end);
    var (count, p3) :- ReadUvarint(b, p2, end);
    var children :- LoadChildrenAt(b, p3, end, count);
    if !WellFormedChildren(children) then Err(NotATrie)
    else Ok(Node(fragment, hasValue, value, children))
  }

  /** Reads one record at `pos`: a body length, then a body that must fit before `end`. */
  function LoadRecord(b: seq<u8>, pos: nat, end: nat): (r: Result<(Node, nat)>)
    requires pos <= end <= |b|
    ensures r.Ok? ==> pos < r.value.1 <= end
    decreases end - pos, 1
  {
    var (len, p) :- ReadUvarint(b, pos, end);
    if len > end - p then Err(Truncated)
    else
      var c :- LoadBodyAt(b, p, p + len);
      Ok((c, p + len))
  }

  /** Loads `k` child records from `b[pos..end]`, which they must fill. */
  function LoadChildrenAt(b: seq<u8>, pos: nat, end: nat, k: nat): (r: Result<seq<Node>>)
    requires pos <= end <= |b|
    ensures r.Ok? ==> |r.value| == k
    decreases end - pos, 2, k
  {
    if k == 0 then (if pos == end then Ok([]) else Err(LengthMismatch))
    else
      var (c, q) :- LoadRecord(b, pos, end);
      var rest :- LoadChildrenAt(b, q, end, k - 1);
      Ok([c] + rest)
  }

  /**
   * `LoadNode(data)`: the buffer must hold exactly one record, and only the record `Data` writes
   * for a valid trie is accepted.
   */
  function LoadNode(buf: seq<u8>): (r: Result<Node>)
    ensures r.Ok? ==> Valid(r.value) && buf == Data(r.value)
  {
    var (len, p) :- ReadUvarint(buf, 0, |buf|);
    if len > |buf| - p then Err(Truncated)
    else if len < |buf| - p then Err(LengthMismatch)
    else
      var t :- LoadBodyAt(buf, p, |buf|);
      LoadNodeWritten(buf, len, p, t);
      Ok(t)
  }

  // ----- round trip -----

  /** A body stored anywhere in a buffer loads back from the window it fills. */
  lemma {:induction false} LoadBodyAtBody(b: seq<u8>, p: nat, n: Node, end: nat)
    requires At(b, p, Body(n)) && end == p + |Body(n)| && Valid(n)
    ensures LoadBodyAt(b, p, end) == Ok(Canonical(n))
    decreases n, 1
  {
    var count := Uvarint(|n.children|);
    var p1 := p + |FragmentField(n.fragment)|;
    var p2 := p1 + |ValueField(n.hasValue, n.value)|;
    var p3 := p2 + |count|;
    assert Body(n) == FragmentField(n.fragment) + (ValueField(n.hasValue, n.value) + (count + Records(n.children)));
    ReadFragmentThen(b, p, end, n.fragment, ValueField(n.hasValue, n.value) + (count + Records(n.children)), p1);
    ReadValueThen(b, p1, end, n.hasValue, n.value, count + Records(n.children), p2);
    ReadUvarintThen(b, p2, end, |n.children|, Records(n.children), p3);
    LoadChildrenAtRecords(b, p3, n.children, end);
    CanonicalValid(n);
    LoadBodyStep(b, p, end, n.fragment, p1, n.hasValue, if n.hasValue then n.value else 0, p2, |n.children|, p3);
  }

  lemma {:induction false} LoadChildrenAtRecords(b: seq<u8>, p: nat, cs: seq<Node>, end: nat)
    requires At(b, p, Records(cs)) && end == p + |Records(cs)| && forall i | 0 <= i < |cs| :: Valid(cs[i])
    ensures LoadChildrenAt(b, p, end, |cs|) == Ok(CanonicalAll(cs))
    decreases cs, 0
  {
    if cs != [] {
      var body := Body(cs[0]);
      var p1 := p + |Uvarint(|body|)|;
      var p2 := p1 + |body|;
      assert Records(cs) == Uvarint(|body|) + (body + Records(cs[1..]));
      ReadUvarintThen(b, p, end, |body|, body + Records(cs[1..]), p1);
      AtSplit(b, p1, body, Records(cs[1..]), p2);
      LoadBodyAtBody(b, p1, cs[0], p2);
      LoadChildrenAtRecords(b, p2, cs[1..], end);
      LoadRecordStep(b, p, end, |body|, p1, p2);
      LoadChildrenStep(b, p, end, |cs|, Canonical(cs[0]), p2, |cs[1..]|);
      assert CanonicalAll(cs) == [Canonical(cs[0])] + CanonicalAll(cs[1..]);
    }
  }

  /** Loading a body is reading its three fields, then its children. */
  lemma LoadBodyStep(b: seq<u8>, start: nat, end: nat, f: seq<u8>, p1: nat, h: bool, v: u32, p2: nat, k: nat, p3: nat)
    requires start <= end <= |b| && ReadFragment(b, start, end) == Ok((f, p1))
    requires p1 <= end && ReadValue(b, p1, end) == Ok((h, v, p2))
    requires p2 <= end && ReadUvarint(b, p2, end) == Ok((k, p3))
    requires p3 <= end && LoadChildrenAt(b, p3, end, k).Ok? && WellFormedChildren(LoadChildrenAt(b, p3, end, k).value)
    ensures LoadBodyAt(b, start, end).Ok?
    ensures LoadBodyAt(b, start, end).value == Node(f, h, v, LoadChildrenAt(b, p3, end, k).value)
  {
  }

  /** Reading a record is reading its length, then its body. */
  lemma LoadRecordStep(b: seq<u8>, pos: nat, end: nat, len: nat, p: nat, q: nat)
    requires pos <= end <= |b|
    requires ReadUvarint(b, pos, end) == Ok((len, p)) && q == p + len <= end
    requires LoadBodyAt(b, p, q).Ok?
    ensures LoadRecord(b, pos, end) == Ok((LoadBodyAt(b, p, q).value, q))
  {
  }

  /** Loading `k > 0` children is loading the first record, ending at `q`, then the other `m`. */
  lemma LoadChildrenStep(b: seq<u8>, pos: nat, end: nat, k: nat, c: Node, q: nat, m: nat)
    requires pos <= end <= |b| && k == m + 1
    requires LoadRecord(b, pos, end) == Ok((c, q))
    requires LoadChildrenAt(b, q, end, m).Ok?
    ensures LoadChildrenAt(b, pos, end, k).Ok?
    ensures LoadChildrenAt(b, pos, end, k).value == [c] + LoadChildrenAt(b, q, end, m).value
  {
  }

  /** `LoadNode(Data())` gives back a tree that `Equals` the original valid trie. */
  lemma LoadNodeData(t: Node)
    requires Valid(t)
    ensures LoadNode(Data(t)) == Ok(Canonical(t))
    ensures Equals(LoadNode(Data(t)).value, t)
  {
    var s := Data(t);
    var p := |Uvarint(|Body(t)|)|;
    assert s[0..|s|] == s;
    ReadUvarintThen(s, 0, |s|, |Body(t)|, Body(t), p);
    LoadBodyAtBody(s, p, t, |s|);
    CanonicalEquals(t);
  }

  // ----- what is loaded was written -----

  /** A body is loaded only from a window that holds exactly its `Body`, and it is a valid trie. */
  lemma {:induction false} LoadBodyAtWritten(b: seq<u8>, start: nat, end: nat, t: Node)
    requires start <= end <= |b| && LoadBodyAt(b, start, end) == Ok(t)
    ensures At(b, start, Body(t)) && end == start + |Body(t)| && Valid(t)
    decreases end - start, 0
  {
    var p1, p2, p3 := LoadBodyFields(b, start, end, t);
    ReadFragmentWritten(b, start, end, t.fragment, p1);
    ReadValueWritten(b, p1, end, t.hasValue, t.value, p2);
    ReadUvarintWritten(b, p2, end, |t.children|, p3);
    LoadChildrenAtWritten(b, p3, end, |t.children|, t.children);
    BodyJoin(b, start, t, p1, p2, p3, end);
  }

  /** The positions at which a loaded body has its fields, and what was read there. */
  lemma LoadBodyFields(b: seq<u8>, start: nat, end: nat, t: Node) returns (p1: nat, p2: nat, p3: nat)
    requires start <= end <= |b| && LoadBodyAt(b, start, end) == Ok(t)
    ensures p1 <= end && ReadFragment(b, start, end) == Ok((t.fragment, p1))
    ensures p2 <= end && ReadValue(b, p1, end) == Ok((t.hasValue, t.value, p2))
    ensures p3 <= end && ReadUvarint(b, p2, end) == Ok((|t.children|, p3))
    ensures LoadChildrenAt(b, p3, end, |t.children|) == Ok(t.children)
    ensures WellFormedChildren(t.children)
  {
    p1 := ReadFragment(b, start, end).value.1;
    p2 := ReadValue(b, p1, end).value.2;
    p3 := ReadUvarint(b, p2, end).value.1;
  }

  /** The four fields of a node, one after another, are its body. */
  lemma BodyJoin(b: seq<u8>, p: nat, t: Node, p1: nat, p2: nat, p3: nat, q: nat)
    requires At(b, p, FragmentField(t.fragment)) && p1 == p + |FragmentField(t.fragment)|
    requires At(b, p1, ValueField(t.hasValue, t.value)) && p2 == p1 + |ValueField(t.hasValue, t.value)|
    requires At(b, p2, Uvarint(|t.children|)) && p3 == p2 + |Uvarint(|t.children|)|
    requires At(b, p3, Records(t.children)) && q == p3 + |Records(t.children)|
    ensures At(b, p, Body(t)) && q == p + |Body(t)|
  {
    AtJoin(b, p, FragmentField(t.fragment), ValueField(t.hasValue, t.value), Uvarint(|t.children|), Records(t.children), p1, p2, p3, q);
  }

  /** A record is loaded only where `Data` wrote it. */
  lemma {:induction false} LoadRecordWritten(b: seq<u8>, pos: nat, end: nat, c: Node, q: nat)
    requires pos <= end <= |b| && LoadRecord(b, pos, end) == Ok((c, q))
    ensures At(b, pos, Data(c)) && q == pos + |Data(c)| && Valid(c)
    decreases end - pos, 1
  {
    var len, p := LoadRecordFields(b, pos, end, c, q);
    ReadUvarintWritten(b, pos, end, len, p);
    LoadBodyAtWritten(b, p, q, c);
    assert len == |Body(c)|;
    assert Data(c) == Uvarint(len) + Body(c);
    AtConcat(b, pos, Uvarint(len), Body(c));
  }

  /** The header a loaded record was read from, and the window its body filled. */
  lemma LoadRecordFields(b: seq<u8>, pos: nat, end: nat, c: Node, q: nat) returns (len: nat, p: nat)
    requires pos <= end <= |b| && LoadRecord(b, pos, end) == Ok((c, q))
    ensures ReadUvarint(b, pos, end) == Ok((len, p)) && p <= end
    ensures len <= end - p && q == p + len && LoadBodyAt(b, p, q) == Ok(c)
  {
    len, p := ReadUvarint(b, pos, end).value.0, ReadUvarint(b, pos, end).value.1;
  }

  lemma {:induction false} LoadChildrenAtWritten(b: seq<u8>, pos: nat, end: nat, k: nat, cs: seq<Node>)
    requires pos <= end <= |b| && LoadChildrenAt(b, pos, end, k) == Ok(cs)
    ensures At(b, pos, Records(cs)) && end == pos + |Records(cs)|
    ensures forall i | 0 <= i < |cs| :: Valid(cs[i])
    decreases end - pos, 2, k
  {
    if k > 0 {
      var c, q, rest := LoadChildrenFields(b, pos, end, k, cs);
      LoadRecordWritten(b, pos, end, c, q);
      LoadChildrenAtWritten(b, q, end, k - 1, rest);
      RecordsCons(c, rest);
      AtConcat(b, pos, Data(c), Records(rest));
      ValidCons(c, rest);
    } else {
      assert cs == [] && Records(cs) == [] && b[pos..pos] == [];
    }
  }

  lemma RecordsCons(c: Node, rest: seq<Node>)
    ensures Records([c] + rest) == Data(c) + Records(rest)
  {
    assert ([c] + rest)[1..] == rest;
  }

  /** The first record and the remaining ones of `k > 0` loaded records. */
  lemma LoadChildrenFields(b: seq<u8>, pos: nat, end: nat, k: nat, cs: seq<Node>) returns (c: Node, q: nat, rest: seq<Node>)
    requires pos <= end <= |b| && k > 0 && LoadChildrenAt(b, pos, end, k) == Ok(cs)
    ensures LoadRecord(b, pos, end) == Ok((c, q)) && q <= end
    ensures LoadChildrenAt(b, q, end, k - 1) == Ok(rest) && cs == [c] + rest
  {
    c, q := LoadRecord(b, pos, end).value.0, LoadRecord(b, pos, end).value.1;
    rest := LoadChildrenAt(b, q, end, k - 1).value;
  }

  /** The header and body `LoadNode` accepted spell out `Data` of the tree it returns. */
  lemma LoadNodeWritten(buf: seq<u8>, len: nat, p: nat, t: Node)
    requires ReadUvarint(buf, 0, |buf|) == Ok((len, p)) && len == |buf| - p
    requires LoadBodyAt(buf, p, |buf|) == Ok(t)
    ensures Valid(t) && buf == Data(t)
  {
    ReadUvarintWritten(buf, 0, |buf|, len, p);
    LoadBodyAtWritten(buf, p, |buf|, t);
    assert len == |Body(t)|;
    AtConcat(buf, 0, Uvarint(len), Body(t));
    assert At(buf, 0, Data(t)) && |Data(t)| == |buf|;
    assert buf == buf[0..|buf|];
  }

  // ----- rejecting what is not a record -----

  /** Every proper prefix of a record is rejected: its header announces more bytes than remain. */
  lemma LoadNodeTruncated(t: Node, j: nat)
    requires j < |Data(t)|
    ensures LoadNode(Data(t)[..j]).Err?
  {
    var s := Data(t);
    var s' := s[..j];
    var p := |Uvarint(|Body(t)|)|;
    assert s[0..|s|] == s;
    ReadUvarintThen(s, 0, |s|, |Body(t)|, Body(t), p);
    if p <= j {
      assert s[..p] == s'[..p];
      ReadUvarintFrame(s, s', 0, |s|, j);
    } else if ReadUvarint(s', 0, j).Ok? {
      var q := ReadUvarint(s', 0, j).value.1;
      assert s'[..q] == s[..q];
      ReadUvarintFrame(s', s, 0, j, |s|);
      assert false;
    }
  }
}
