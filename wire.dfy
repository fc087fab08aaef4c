/**
 * Field encodings shared by the two codecs: unsigned LEB128 varints for lengths and counts
 * (seven bits per byte, low group first, high bit set on every byte but the last, as Go's
 * encoding/binary Uvarint), and 4-byte little-endian words for value handles.
 * Readers work on a position in a buffer and never read at or past a limit `end`.
 */
module Wire {
  import opened Bytes

  datatype FormatError =
    | Truncated            // the buffer ends before a declared field does
    | BadFlag(flag: u8)    // a value-presence flag other than 0 or 1
    | LengthMismatch       // a record's declared length disagrees with its contents
    | Overlong             // a varint written with more bytes than its value needs
    | NotATrie             // decoded children that break the trie invariant

  datatype Result<+T> = Ok(value: T) | Err(error: FormatError) {
    predicate IsFailure() { Err? }
    function PropagateFailure<U>(): Result<U> requires Err? { Err(error) }
    function Extract(): T requires Ok? { value }
  }

  /** `w` occurs in `s` starting at position `p`. */
  predicate At(s: seq<u8>, p: nat, w: seq<u8>) {
    p + |w| <= |s| && s[p..p + |w|] == w
  }

  lemma AtConcat(s: seq<u8>, p: nat, a: seq<u8>, b: seq<u8>)
    ensures At(s, p, a + b) <==> At(s, p, a) && At(s, p + |a|, b)
  {
    if p + |a| + |b| <= |s| {
      assert s[p..p + |a| + |b|] == s[p..p + |a|] + s[p + |a|..p + |a| + |b|];
      if At(s, p, a + b) {
        assert s[p..p + |a|] == (a + b)[..|a|] == a;
        assert s[p + |a|..p + |a| + |b|] == (a + b)[|a|..] == b;
      }
    }
  }

  /** The two halves of an occurrence of `a + b`, with `q` the position where `b` starts. */
  lemma AtSplit(s: seq<u8>, p: nat, a: seq<u8>, b: seq<u8>, q: nat)
    requires At(s, p, a + b) && q == p + |a|
    ensures At(s, p, a) && At(s, q, b)
  {
    AtConcat(s, p, a, b);
  }

  /** Four pieces found one after another form one occurrence of their concatenation. */
  lemma AtJoin(s: seq<u8>, p: nat, a: seq<u8>, b: seq<u8>, c: seq<u8>, d: seq<u8>, p1: nat, p2: nat, p3: nat, q: nat)
    requires At(s, p, a) && p1 == p + |a| && At(s, p1, b) && p2 == p1 + |b|
    requires At(s, p2, c) && p3 == p2 + |c| && At(s, p3, d) && q == p3 + |d|
    ensures At(s, p, a + b + c + d) && q == p + |a + b + c + d|
  {
    AtConcat(s, p, a, b);
    AtConcat(s, p, a + b, c);
    AtConcat(s, p, a + b + c, d);
  }

  // ----- varints -----

  function Uvarint(n: nat): (r: seq<u8>)
    decreases n
  {
    if n < 128 then [n as u8] else [(128 + n % 128) as u8] + Uvarint(n / 128)
  }

  /** Number of bytes of `Uvarint(n)`, computed without building it. */
  function UvarintLen(n: nat): nat
    decreases n
  {
    if n < 128 then 1 else 1 + UvarintLen(n / 128)
  }

  lemma {:induction false} UvarintLength(n: nat)
    ensures |Uvarint(n)| == UvarintLen(n) >= 1
    decreases n
  {
    if n >= 128 {
      UvarintLength(n / 128);
    }
  }

  /**
   * Reads a varint at `pos`, returning it and the position after it. A continuation byte followed
   * by groups worth 0 is refused: every number has exactly one accepted spelling, the one `Uvarint` writes.
   */
  function ReadUvarint(s: seq<u8>, pos: nat, end: nat): (r: Result<(nat, nat)>)
    requires pos <= end <= |s|
    ensures r.Ok? ==> pos < r.value.1 <= end
    decreases end - pos
  {
    if pos == end then Err(Truncated)
    else if s[pos] < 128 then Ok((s[pos] as nat, pos + 1))
    else
      var (high, next) :- ReadUvarint(s, pos + 1, end);
      if high == 0 then Err(Overlong)
      else Ok(((s[pos] - 128) as nat + 128 * high, next))
  }

  lemma {:induction false} ReadUvarintAt(s: seq<u8>, p: nat, end: nat, n: nat)
    requires At(s, p, Uvarint(n)) && p + |Uvarint(n)| <= end <= |s|
    ensures ReadUvarint(s, p, end) == Ok((n, p + |Uvarint(n)|))
    decreases n
  {
    if n >= 128 {
      var w := Uvarint(n);
      assert s[p] == w[0];
      AtConcat(s, p, [w[0]], Uvarint(n / 128));
      ReadUvarintAt(s, p + 1, end, n / 128);
    } else {
      assert s[p] == Uvarint(n)[0];
    }
  }

  /** Reading a varint that is followed by `rest` leaves the reader at `rest`. */
  lemma ReadUvarintThen(s: seq<u8>, p: nat, end: nat, n: nat, rest: seq<u8>, q: nat)
    requires At(s, p, Uvarint(n) + rest) && q == p + |Uvarint(n)| <= end <= |s|
    ensures ReadUvarint(s, p, end) == Ok((n, q))
    ensures At(s, q, rest)
  {
    AtConcat(s, p, Uvarint(n), rest);
    ReadUvarintAt(s, p, end, n);
  }

  /** A varint is read only where `Uvarint` wrote it: the bytes consumed are its one spelling. */
  /** A continuation byte followed by the varint of a non-zero `high` is the varint of their combined value. */
  lemma UvarintCons(b: u8, high: nat)
    requires 128 <= b && high > 0
    ensures Uvarint((b - 128) as nat + 128 * high) == [b] + Uvarint(high)
  {
    var n := (b - 128) as nat + 128 * high;
    assert n >= 128 && n % 128 == (b - 128) as nat && n / 128 == high;
  }

  lemma {:induction false} ReadUvarintWritten(s: seq<u8>, p: nat, end: nat, n: nat, q: nat)
    requires p <= end <= |s| && ReadUvarint(s, p, end) == Ok((n, q))
    ensures At(s, p, Uvarint(n)) && q == p + |Uvarint(n)|
    decreases end - p
  {
    if s[p] >= 128 {
      var (high, q') := ReadUvarint(s, p + 1, end).value;
      ReadUvarintWritten(s, p + 1, end, high, q');
      assert n == (s[p] - 128) as nat + 128 * high && high > 0;
      UvarintCons(s[p], high);
      AtConcat(s, p, [s[p]], Uvarint(high));
    } else {
      assert Uvarint(n) == [s[p]];
    }
  }

  /** A varint read depends only on the bytes it consumed. */
  lemma {:induction false} ReadUvarintFrame(s: seq<u8>, s': seq<u8>, p: nat, end: nat, end': nat)
    requires p <= end <= |s| && ReadUvarint(s, p, end).Ok?
    requires ReadUvarint(s, p, end).value.1 <= end' <= |s'|
    requires s[..ReadUvarint(s, p, end).value.1] == s'[..ReadUvarint(s, p, end).value.1]
    ensures ReadUvarint(s', p, end') == ReadUvarint(s, p, end)
    decreases end - p
  {
    var q := ReadUvarint(s, p, end).value.1;
    assert s[p] == s[..q][p] == s'[..q][p] == s'[p];
    if s[p] >= 128 {
      ReadUvarintFrame(s, s', p + 1, end, end');
    }
  }

  // ----- 32-bit words -----

  /** The 4 little-endian bytes of `v`. */
  function U32Bytes(v: u32): (r: seq<u8>)
    ensures |r| == 4
  {
    var x := v as int;
    [(x % 256) as u8, (x / 256 % 256) as u8, (x / 65536 % 256) as u8, (x / 16777216) as u8]
  }

  function ReadU32(s: seq<u8>, pos: nat, end: nat): (r: Result<(u32, nat)>)
    requires pos <= end <= |s|
    ensures r.Ok? ==> r.value.1 == pos + 4 <= end
  {
    if end - pos < 4 then Err(Truncated)
    else
      var x := s[pos] as int + 256 * s[pos + 1] as int + 65536 * s[pos + 2] as int + 16777216 * s[pos + 3] as int;
      Ok((x as u32, pos + 4))
  }

  lemma ReadU32At(s: seq<u8>, p: nat, end: nat, v: u32)
    requires At(s, p, U32Bytes(v)) && p + 4 <= end <= |s|
    ensures ReadU32(s, p, end) == Ok((v, p + 4))
  {
    var w := U32Bytes(v);
    assert s[p] == w[0] && s[p + 1] == w[1] && s[p + 2] == w[2] && s[p + 3] == w[3];
    LittleEndian(v as int);
  }

  /** A 32-bit number is the sum of its four bytes, low byte first. */
  lemma LittleEndian(x: int)
    requires 0 <= x < 0x1_0000_0000
    ensures x == x % 256 + 256 * (x / 256 % 256) + 65536 * (x / 65536 % 256) + 16777216 * (x / 16777216)
  {
    var y := x / 256;
    var z := y / 256;
    var t := z / 256;
    assert x == x % 256 + 256 * y;
    assert y == y % 256 + 256 * z;
    assert z == z % 256 + 256 * t;
    assert z == x / 65536;
    assert t == x / 16777216;
  }

  /** The four bytes a word is read from are the bytes `U32Bytes` writes for it. */
  lemma ReadU32Written(s: seq<u8>, p: nat, end: nat, v: u32, q: nat)
    requires p <= end <= |s| && ReadU32(s, p, end) == Ok((v, q))
    ensures At(s, p, U32Bytes(v)) && q == p + 4
  {
    var b0, b1, b2, b3 := s[p] as int, s[p + 1] as int, s[p + 2] as int, s[p + 3] as int;
    var x := v as int;
    var y := b1 + 256 * b2 + 65536 * b3;
    var z := b2 + 256 * b3;
    assert x == b0 + 256 * y;
    assert x % 256 == b0 && x / 256 == y;
    assert y % 256 == b1 && y / 256 == z;
    assert z % 256 == b2 && z / 256 == b3;
    assert x / 65536 == z;
    assert x / 16777216 == b3;
    assert U32Bytes(v) == s[p..p + 4];
  }

  lemma ReadU32Frame(s: seq<u8>, s': seq<u8>, p: nat, end: nat, end': nat)
    requires p <= end <= |s| && ReadU32(s, p, end).Ok?
    requires p + 4 <= end' <= |s'| && s[..p + 4] == s'[..p + 4]
    ensures ReadU32(s', p, end') == ReadU32(s, p, end)
  {
    assert s[p] == s[..p + 4][p] == s'[..p + 4][p] == s'[p];
    assert s[p + 1] == s[..p + 4][p + 1] == s'[..p + 4][p + 1] == s'[p + 1];
    assert s[p + 2] == s[..p + 4][p + 2] == s'[..p + 4][p + 2] == s'[p + 2];
    assert s[p + 3] == s[..p + 4][p + 3] == s'[..p + 4][p + 3] == s'[p + 3];
  }

  // ----- the fields of a node -----

  /** A fragment: its length, then its bytes. */
  function FragmentField(f: seq<u8>): seq<u8> {
    Uvarint(|f|) + f
  }

  function ReadFragment(s: seq<u8>, pos: nat, end: nat): (r: Result<(seq<u8>, nat)>)
    requires pos <= end <= |s|
    ensures r.Ok? ==> pos < r.value.1 <= end
  {
    var (len, p) :- ReadUvarint(s, pos, end);
    if len > end - p then Err(Truncated) else Ok((s[p..p + len], p + len))
  }

  lemma ReadFragmentAt(s: seq<u8>, p: nat, end: nat, f: seq<u8>)
    requires At(s, p, FragmentField(f)) && p + |FragmentField(f)| <= end <= |s|
    ensures ReadFragment(s, p, end) == Ok((f, p + |FragmentField(f)|))
  {
    AtConcat(s, p, Uvarint(|f|), f);
    ReadUvarintAt(s, p, end, |f|);
  }

  lemma ReadFragmentThen(s: seq<u8>, p: nat, end: nat, f: seq<u8>, rest: seq<u8>, q: nat)
    requires At(s, p, FragmentField(f) + rest) && q == p + |FragmentField(f)| <= end <= |s|
    ensures ReadFragment(s, p, end) == Ok((f, q))
    ensures At(s, q, rest)
  {
    AtConcat(s, p, FragmentField(f), rest);
    ReadFragmentAt(s, p, end, f);
  }

  /** A fragment is read only where `FragmentField` wrote it. */
  lemma ReadFragmentWritten(s: seq<u8>, p: nat, end: nat, f: seq<u8>, q: nat)
    requires p <= end <= |s| && ReadFragment(s, p, end) == Ok((f, q))
    ensures At(s, p, FragmentField(f)) && q == p + |FragmentField(f)|
  {
    var (len, p1) := ReadUvarint(s, p, end).value;
    ReadUvarintWritten(s, p, end, len, p1);
    assert f == s[p1..p1 + len];
    AtConcat(s, p, Uvarint(|f|), f);
  }

  lemma ReadFragmentFrame(s: seq<u8>, s': seq<u8>, p: nat, end: nat, end': nat)
    requires p <= end <= |s| && ReadFragment(s, p, end).Ok?
    requires ReadFragment(s, p, end).value.1 <= end' <= |s'|
    requires s[..ReadFragment(s, p, end).value.1] == s'[..ReadFragment(s, p, end).value.1]
    ensures ReadFragment(s', p, end') == ReadFragment(s, p, end)
  {
    var q := ReadFragment(s, p, end).value.1;
    var p1 := ReadUvarint(s, p, end).value.1;
    assert s[..p1] == s[..q][..p1] == s'[..q][..p1] == s'[..p1];
    ReadUvarintFrame(s, s', p, end, end');
    assert s[p1..q] == s[..q][p1..q] == s'[..q][p1..q] == s'[p1..q];
  }

  /** The value: a presence flag, then the four bytes of the value when there is one. */
  function ValueField(hasValue: bool, v: u32): (r: seq<u8>)
    ensures |r| == if hasValue then 5 else 1
  {
    if hasValue then [1 as u8] + U32Bytes(v) else [0 as u8]
  }

  /** Reads a value field; an absent value reads as 0. */
  function ReadValue(s: seq<u8>, pos: nat, end: nat): (r: Result<(bool, u32, nat)>)
    requires pos <= end <= |s|
    ensures r.Ok? ==> pos < r.value.2 <= end
  {
    if pos == end then Err(Truncated)
    else if s[pos] > 1 then Err(BadFlag(s[pos]))
    else if s[pos] == 1 then
      var (v, q) :- ReadU32(s, pos + 1, end);
      Ok((true, v, q))
    else Ok((false, 0, pos + 1))
  }

  lemma ReadValueAt(s: seq<u8>, p: nat, end: nat, hasValue: bool, v: u32)
    requires At(s, p, ValueField(hasValue, v)) && p + |ValueField(hasValue, v)| <= end <= |s|
    ensures ReadValue(s, p, end) == Ok((hasValue, if hasValue then v else 0, p + |ValueField(hasValue, v)|))
  {
    assert s[p] == ValueField(hasValue, v)[0];
    if hasValue {
      AtConcat(s, p, [1 as u8], U32Bytes(v));
      ReadU32At(s, p + 1, end, v);
    }
  }

  lemma ReadValueThen(s: seq<u8>, p: nat, end: nat, hasValue: bool, v: u32, rest: seq<u8>, q: nat)
    requires At(s, p, ValueField(hasValue, v) + rest) && q == p + |ValueField(hasValue, v)| <= end <= |s|
    ensures ReadValue(s, p, end) == Ok((hasValue, if hasValue then v else 0, q))
    ensures At(s, q, rest)
  {
    AtConcat(s, p, ValueField(hasValue, v), rest);
    ReadValueAt(s, p, end, hasValue, v);
  }

  /** A value field is read only where `ValueField` wrote it; an absent value reads as 0. */
  lemma ReadValueWritten(s: seq<u8>, p: nat, end: nat, h: bool, v: u32, q: nat)
    requires p <= end <= |s| && ReadValue(s, p, end) == Ok((h, v, q))
    ensures At(s, p, ValueField(h, v)) && q == p + |ValueField(h, v)|
    ensures !h ==> v == 0
  {
    if h {
      ReadU32Written(s, p + 1, end, v, q);
      assert s[p] == 1;
      AtConcat(s, p, [1 as u8], U32Bytes(v));
    } else {
      assert s[p..p + 1] == [0 as u8];
    }
  }

  lemma ReadValueFrame(s: seq<u8>, s': seq<u8>, p: nat, end: nat, end': nat)
    requires p <= end <= |s| && ReadValue(s, p, end).Ok?
    requires ReadValue(s, p, end).value.2 <= end' <= |s'|
    requires s[..ReadValue(s, p, end).value.2] == s'[..ReadValue(s, p, end).value.2]
    ensures ReadValue(s', p, end') == ReadValue(s, p, end)
  {
    var q := ReadValue(s, p, end).value.2;
    assert s[p] == s[..q][p] == s'[..q][p] == s'[p];
    if s[p] == 1 {
      ReadU32Frame(s, s', p + 1, end, end');
    }
  }

  // ----- node headers -----

  // ----- cancellation: a field at the head of a stream determines itself and what follows -----

  /** Equal streams that begin with varints agree on the varint and on the rest. */
  lemma UvarintCancel(n: nat, x: seq<u8>, n': nat, y: seq<u8>)
    requires Uvarint(n) + x == Uvarint(n') + y
    ensures n == n' && x == y
  {
    var s := Uvarint(n) + x;
    assert s[0..|s|] == s;
    ReadUvarintThen(s, 0, |s|, n, x, |Uvarint(n)|);
    ReadUvarintThen(s, 0, |s|, n', y, |Uvarint(n')|);
  }

  /** Equal streams that begin with fragment fields agree on the fragment and on the rest. */
  lemma FragmentCancel(f: seq<u8>, x: seq<u8>, f': seq<u8>, y: seq<u8>)
    requires FragmentField(f) + x == FragmentField(f') + y
    ensures f == f' && x == y
  {
    var s := FragmentField(f) + x;
    assert s[0..|s|] == s;
    ReadFragmentThen(s, 0, |s|, f, x, |FragmentField(f)|);
    ReadFragmentThen(s, 0, |s|, f', y, |FragmentField(f')|);
  }

  /** Equal streams that begin with value fields agree on presence, on a present value, and on the rest. */
  lemma ValueCancel(h: bool, v: u32, x: seq<u8>, h': bool, v': u32, y: seq<u8>)
    requires ValueField(h, v) + x == ValueField(h', v') + y
    ensures h == h' && (h ==> v == v') && x == y
  {
    var s := ValueField(h, v) + x;
    assert s[0..|s|] == s;
    ReadValueThen(s, 0, |s|, h, v, x, |ValueField(h, v)|);
    ReadValueThen(s, 0, |s|, h', v', y, |ValueField(h', v')|);
  }

  /** Equal streams that begin with node headers (fragment, value, child count) agree field by field. */
  lemma HeaderCancel(f: seq<u8>, h: bool, v: u32, n: nat, x: seq<u8>, f': seq<u8>, h': bool, v': u32, n': nat, y: seq<u8>)
    requires FragmentField(f) + (ValueField(h, v) + (Uvarint(n) + x)) == FragmentField(f') + (ValueField(h', v') + (Uvarint(n') + y))
    ensures f == f' && h == h' && (h ==> v == v') && n == n' && x == y
  {
    FragmentCancel(f, ValueField(h, v) + (Uvarint(n) + x), f', ValueField(h', v') + (Uvarint(n') + y));
    ValueCancel(h, v, Uvarint(n) + x, h', v', Uvarint(n') + y);
    UvarintCancel(n, x, n', y);
  }

  /** The head `w` of a stream and what follows it make up the stream. */
  lemma AtHead(s: seq<u8>, w: seq<u8>, q: nat)
    requires At(s, 0, w) && q == |w|
    ensures s == w + s[q..]
  {
    assert s == s[0..q] + s[q..];
  }

  /** Regrouping a stream of four pieces followed by a rest. */
  lemma Regroup(a: seq<u8>, b: seq<u8>, c: seq<u8>, d: seq<u8>, x: seq<u8>)
    ensures a + b + c + d + x == a + (b + (c + (d + x)))
  {
  }

  /** Regrouping a stream of two pieces followed by a rest. */
  lemma Regroup2(a: seq<u8>, d: seq<u8>, x: seq<u8>)
    ensures a + d + x == a + (d + x)
  {
  }
}
