/**
 * The test scenarios of the trie. Each builds its trie from a keyword list, keyword `i` added
 * with value `i + 1`; the `walk` and `match` cases start from a root with an empty fragment, the
 * codec cases from a root with fragment "/". Keys are spelled as their bytes, the text in a comment.
 */
module Scenarios {
  import opened Bytes
  import opened Nodes
  import opened Builder
  import opened Walker
  import opened Matcher
  import opened Wire
  import StreamCodec
  import PositionalCodec
  import opened Equality

  /** `newValueNode("", 0)`, the root of every `walk` and `match` case. */
  const EmptyRoot: Node := Leaf([], 0)

  /** `newValueNode("/", 0)`, the root of every codec case. */
  const SlashRoot: Node := Leaf([47], 0)

  /** The merge function of the `match` cases: a duplicate keyword keeps its first value. */
  const KeepFirst: Merge := Some((prev: u32) => prev)

  /** `m` maps exactly the keys `ks` to the values `vs`. */
  predicate Holds(m: map<seq<u8>, u32>, ks: seq<seq<u8>>, vs: seq<u32>)
    requires |ks| == |vs|
  {
    && (forall i | 0 <= i < |ks| :: ks[i] in m && m[ks[i]] == vs[i])
    && (forall k | k in m :: k in ks)
  }

  /** The entries of `m` whose keys are prefixes of `input`. */
  function PrefixesOf(m: map<seq<u8>, u32>, input: seq<u8>): (r: map<seq<u8>, u32>)
    ensures forall k :: k in r <==> k in m && k <= input
    ensures forall k | k in r :: r[k] == m[k]
  {
    map k | k in m && k <= input :: m[k]
  }

  // ----- what the tests check, for any keyword list -----

  /** The all-matches cases: `match` reports exactly the keywords that are prefixes of the input. */
  lemma MatchAllAfterBuild(root: Node, keys: seq<seq<u8>>, merge: Merge, input: seq<u8>)
    requires root.fragment == [] && root.children == []
    requires NonEmptyKeys(keys) && |keys| < 0x1_0000_0000
    ensures Collect(Match(Build(root, keys, merge), input, 0, MatchAll).reported) == PrefixesOf(Expected(keys, merge), input)
  {
    var t := Build(root, keys, merge);
    BuildGet(root, keys, merge);
    MatchAllCollect(t, input, 0);
    assert input[0..] == input;
    LookupExtensional(Collect(Match(t, input, 0, MatchAll).reported), PrefixesOf(Expected(keys, merge), input));
  }

  /** Under the first-match policy, `match` reports `k` alone when it is the shortest stored prefix of the input. */
  lemma FirstMatchOnly(t: Node, input: seq<u8>, k: seq<u8>)
    requires k <= input && Get(t, k).Some?
    requires forall k' | k' <= input && Get(t, k').Some? :: |k| <= |k'|
    ensures Match(t, input, 0, FirstMatch) == Outcome([Entry(k, Get(t, k).value)], true)
  {
    MatchFirstShortest(t, input, 0);
    assert input[0..] == input;
    var r := Match(t, input, 0, FirstMatch).reported;
    assert r[0] in r;
    var k0 := r[0].key;
    assert |k0| == |k|;
    assert k0 == input[..|k|] == k;
  }

  /** The first-match cases: `match` reports the shortest keyword that is a prefix of the input, and only that. */
  lemma FirstMatchAfterBuild(root: Node, keys: seq<seq<u8>>, merge: Merge, input: seq<u8>, i: nat)
    requires root.fragment == [] && root.children == []
    requires NonEmptyKeys(keys) && |keys| < 0x1_0000_0000
    requires i < |keys| && keys[i] <= input
    requires forall j | 0 <= j < |keys| && |keys[j]| < |keys[i]| :: !(keys[j] <= input)
    ensures keys[i] in Expected(keys, merge)
    ensures Match(Build(root, keys, merge), input, 0, FirstMatch) == Outcome([Entry(keys[i], Expected(keys, merge)[keys[i]])], true)
  {
    var t := Build(root, keys, merge);
    BuildGet(root, keys, merge);
    ExpectedKeys(keys, merge, keys[i]);
    forall k' | k' <= input && Get(t, k').Some? ensures |keys[i]| <= |k'| {
      ExpectedKeys(keys, merge, k');
    }
    FirstMatchOnly(t, input, keys[i]);
  }

  // ----- keywords -----

  const a: seq<u8> := [97]                                        // "a"
  const ab: seq<u8> := [97, 98]                                   // "ab"
  const abc: seq<u8> := [97, 98, 99]                              // "abc"
  const abcd: seq<u8> := [97, 98, 99, 100]                        // "abcd"
  const abcdex: seq<u8> := [97, 98, 99, 100, 101, 120]            // "abcdex"
  const abcdefx: seq<u8> := [97, 98, 99, 100, 101, 102, 120]      // "abcdefx"
  const abcz: seq<u8> := [97, 98, 99, 122]                        // "abcz"
  const abrz: seq<u8> := [97, 98, 114, 122]                       // "abrz"
  const abz: seq<u8> := [97, 98, 122]                             // "abz"
  const ac: seq<u8> := [97, 99]                                   // "ac"
  const bar: seq<u8> := [98, 97, 114]                             // "bar"
  const bc: seq<u8> := [98, 99]                                   // "bc"
  const mln: seq<u8> := [109, 108, 110]                           // "mln"
  const zyx: seq<u8> := [122, 121, 120]                           // "zyx"
  const zz: seq<u8> := [122, 122]                                 // "zz"
  const pe: seq<u8> := [112, 101]                                 // "pe"
  const petest: seq<u8> := [112, 101, 116, 101, 115, 116]         // "petest"
  const petestCom: seq<u8> := petest + [46, 99, 111, 109]         // "petest.com"
  const petestComBr: seq<u8> := petestCom + [46, 98, 114]         // "petest.com.br"
  const petestComSign: seq<u8> := petestCom + [0xC2, 0xAC, 0xE2, 0x80, 0xA0]       // "petest.com¬†", in UTF-8
  const petestComCommaSign: seq<u8> := petestCom + [44, 0xC2, 0xAC, 0xE2, 0x80, 0xA0] // "petest.com,¬†"
  const dotCom: seq<u8> := [46, 99, 111, 109]                     // ".com"
  const e: seq<u8> := [101]                                       // "e"
  const r: seq<u8> := [114]                                       // "r"
  const hiltonCom: seq<u8> := [104, 105, 108, 116, 111, 110, 46, 99, 111, 109]  // "hilton.com"

  // ----- walk -----

  const MergeNodeKeys: seq<seq<u8>> := [abc, ac, zyx, abc, abcdefx]

  /** What the test expects of merge_node: each keyword with the value of its last addition. */
  lemma MergeNodeExpected()
    ensures Holds(Expected(MergeNodeKeys, None), [abc, ac, zyx, abcdefx], [4, 2, 3, 5])
  {
    var keys := MergeNodeKeys;
    ExpectedOverwrite(keys, 1);
    ExpectedOverwrite(keys, 2);
    ExpectedOverwrite(keys, 3);
    ExpectedOverwrite(keys, 4);
    forall k | k in Expected(keys, None) ensures k in [abc, ac, zyx, abcdefx] {
      ExpectedKeys(keys, None, k);
    }
  }

  /** merge_node: walking yields each keyword once, and the repeated "abc" carries its second value, 4. */
  lemma WalkMergeNode()
    ensures Holds(Collect(Walk(Build(EmptyRoot, MergeNodeKeys, None), [])), [abc, ac, zyx, abcdefx], [4, 2, 3, 5])
  {
    WalkAfterBuild(EmptyRoot, MergeNodeKeys, None);
    MergeNodeExpected();
  }

  const EdgeKeys: seq<seq<u8>> := [abc, ac, zyx]

  lemma EdgeExpected()
    ensures Holds(Expected(EdgeKeys, None), EdgeKeys, [1, 2, 3])
  {
    var keys := EdgeKeys;
    ExpectedOverwrite(keys, 0);
    ExpectedOverwrite(keys, 1);
    ExpectedOverwrite(keys, 2);
    forall k | k in Expected(keys, None) ensures k in keys {
      ExpectedKeys(keys, None, k);
    }
  }

  /** edge_encode: "ac" splits the edge "abc"; walking still yields every keyword with its value. */
  lemma WalkEdge()
    ensures Holds(Collect(Walk(Build(EmptyRoot, EdgeKeys, None), [])), EdgeKeys, [1, 2, 3])
  {
    WalkAfterBuild(EmptyRoot, EdgeKeys, None);
    EdgeExpected();
  }

  // ----- match -----

  const PrefixKeys: seq<seq<u8>> := [abc, zyx, mln, bar, abcd, abcdex, bc]

  /** prefix match: of "bc is" only "bc", the last keyword, is reported, and the match succeeds. */
  lemma MatchPrefix()
    ensures Match(Build(EmptyRoot, PrefixKeys, KeepFirst), [98, 99, 32, 105, 115], 0, FirstMatch) == Outcome([Entry(bc, 7)], true)
  {
    var input: seq<u8> := [98, 99, 32, 105, 115];
    assert !(bar <= input) by { assert bar[1] != input[1]; }
    ExpectedKeepFirst(PrefixKeys, KeepFirst, 6);
    FirstMatchAfterBuild(EmptyRoot, PrefixKeys, KeepFirst, input, 6);
  }

  const FiveKeys: seq<seq<u8>> := [abc, zyx, mln, abcd, abcdex]

  /** exact match: the input "abc" is itself a keyword. */
  lemma MatchExact()
    ensures Match(Build(EmptyRoot, FiveKeys, KeepFirst), abc, 0, FirstMatch) == Outcome([Entry(abc, 1)], true)
  {
    ExpectedKeepFirst(FiveKeys, KeepFirst, 0);
    FirstMatchAfterBuild(EmptyRoot, FiveKeys, KeepFirst, abc, 0);
  }

  /** The keywords that are prefixes of "abcdex", with their values. */
  lemma MatchAllAlongPathExpected()
    ensures Holds(PrefixesOf(Expected(FiveKeys, KeepFirst), abcdex), [abc, abcd, abcdex], [1, 4, 5])
  {
    var keys := FiveKeys;
    ExpectedKeepFirst(keys, KeepFirst, 0);
    ExpectedKeepFirst(keys, KeepFirst, 3);
    ExpectedKeepFirst(keys, KeepFirst, 4);
    assert !(zyx <= abcdex) by { assert zyx[0] != abcdex[0]; }
    assert !(mln <= abcdex) by { assert mln[0] != abcdex[0]; }
    forall k | k in PrefixesOf(Expected(keys, KeepFirst), abcdex) ensures k in [abc, abcd, abcdex] {
      ExpectedKeys(keys, KeepFirst, k);
    }
  }

  /** prefix multi match: all three keywords along "abcdex" are reported. */
  lemma MatchAllAlongPath()
    ensures Holds(Collect(Match(Build(EmptyRoot, FiveKeys, KeepFirst), abcdex, 0, MatchAll).reported), [abc, abcd, abcdex], [1, 4, 5])
  {
    MatchAllAfterBuild(EmptyRoot, FiveKeys, KeepFirst, abcdex);
    MatchAllAlongPathExpected();
  }

  /** first multi match: with the callback asking to stop, only the shortest, "abc", is reported. */
  lemma MatchFirstAlongPath()
    ensures Match(Build(EmptyRoot, FiveKeys, KeepFirst), abcdex, 0, FirstMatch) == Outcome([Entry(abc, 1)], true)
  {
    ExpectedKeepFirst(FiveKeys, KeepFirst, 0);
    FirstMatchAfterBuild(EmptyRoot, FiveKeys, KeepFirst, abcdex, 0);
  }

  const SixKeys: seq<seq<u8>> := [abc, zyx, mln, abcd, abcdex, zz]

  /** "abcdex zz" */
  const AbcdexZz: seq<u8> := abcdex + [32, 122, 122]

  /** first prefix multi match: "zz" occurs in the input but not at its start, and is not reported. */
  lemma MatchFirstAnchored()
    ensures Match(Build(EmptyRoot, SixKeys, KeepFirst), AbcdexZz, 0, FirstMatch) == Outcome([Entry(abc, 1)], true)
  {
    var keys := SixKeys;
    forall j | 0 <= j < |keys| && |keys[j]| < |keys[0]| ensures !(keys[j] <= AbcdexZz) {
      assert j == 5;
      assert zz[0] != AbcdexZz[0];
    }
    ExpectedKeepFirst(keys, KeepFirst, 0);
    FirstMatchAfterBuild(EmptyRoot, keys, KeepFirst, AbcdexZz, 0);
  }

  const EightKeys: seq<seq<u8>> := [abcz, abrz, mln, a, abc, ab, zz, abcd]

  /** The keywords that are prefixes of "abcdex zz", with their values. */
  lemma MatchAllAnchoredExpected()
    ensures Holds(PrefixesOf(Expected(EightKeys, KeepFirst), AbcdexZz), [a, abc, ab, abcd], [4, 5, 6, 8])
  {
    var keys := EightKeys;
    ExpectedKeepFirst(keys, KeepFirst, 3);
    ExpectedKeepFirst(keys, KeepFirst, 4);
    ExpectedKeepFirst(keys, KeepFirst, 5);
    ExpectedKeepFirst(keys, KeepFirst, 7);
    assert !(abcz <= AbcdexZz) by { assert abcz[3] != AbcdexZz[3]; }
    assert !(abrz <= AbcdexZz) by { assert abrz[2] != AbcdexZz[2]; }
    assert !(zz <= AbcdexZz) by { assert zz[0] != AbcdexZz[0]; }
    assert !(mln <= AbcdexZz) by { assert mln[0] != AbcdexZz[0]; }
    forall k | k in PrefixesOf(Expected(keys, KeepFirst), AbcdexZz) ensures k in [a, abc, ab, abcd] {
      ExpectedKeys(keys, KeepFirst, k);
    }
  }

  /** first prefix multi match2: "abcz" and "abrz" leave the input, "zz" is not at its start. */
  lemma MatchAllAnchored()
    ensures Holds(Collect(Match(Build(EmptyRoot, EightKeys, KeepFirst), AbcdexZz, 0, MatchAll).reported), [a, abc, ab, abcd], [4, 5, 6, 8])
  {
    MatchAllAfterBuild(EmptyRoot, EightKeys, KeepFirst, AbcdexZz);
    MatchAllAnchoredExpected();
  }

  const LevelKeys: seq<seq<u8>> := [ab, abc, abcd, a]

  /** The keywords that are prefixes of "abcd", with their values. */
  lemma MatchAllLevelsExpected()
    ensures Holds(PrefixesOf(Expected(LevelKeys, KeepFirst), abcd), [abc, ab, abcd, a], [2, 1, 3, 4])
  {
    var keys := LevelKeys;
    ExpectedKeepFirst(keys, KeepFirst, 0);
    ExpectedKeepFirst(keys, KeepFirst, 1);
    ExpectedKeepFirst(keys, KeepFirst, 2);
    ExpectedKeepFirst(keys, KeepFirst, 3);
    forall k | k in PrefixesOf(Expected(keys, KeepFirst), abcd) ensures k in [abc, ab, abcd, a] {
      ExpectedKeys(keys, KeepFirst, k);
    }
  }

  /** mult level match: a keyword added after its extensions ("a", last) is still found. */
  lemma MatchAllLevels()
    ensures Holds(Collect(Match(Build(EmptyRoot, LevelKeys, KeepFirst), abcd, 0, MatchAll).reported), [abc, ab, abcd, a], [2, 1, 3, 4])
  {
    MatchAllAfterBuild(EmptyRoot, LevelKeys, KeepFirst, abcd);
    MatchAllLevelsExpected();
  }

  const PetestKeys: seq<seq<u8>> :=
    [petestComBr, petestComSign, petestComCommaSign, petestCom, dotCom, pe, petest, e, r, pe, hiltonCom]

  /** The keywords that are prefixes of "petest.com", with their first values. */
  lemma MatchAllKeepsFirstExpected()
    ensures Holds(PrefixesOf(Expected(PetestKeys, KeepFirst), petestCom), [petestCom, pe, petest], [4, 6, 7])
  {
    var keys := PetestKeys;
    ExpectedKeepFirst(keys, KeepFirst, 3);
    ExpectedKeepFirst(keys, KeepFirst, 5);
    ExpectedKeepFirst(keys, KeepFirst, 6);
    assert !(dotCom <= petestCom) by { assert dotCom[0] != petestCom[0]; }
    assert !(e <= petestCom) by { assert e[0] != petestCom[0]; }
    assert !(r <= petestCom) by { assert r[0] != petestCom[0]; }
    assert !(hiltonCom <= petestCom) by { assert hiltonCom[0] != petestCom[0]; }
    forall k | k in PrefixesOf(Expected(keys, KeepFirst), petestCom) ensures k in [petestCom, pe, petest] {
      ExpectedKeys(keys, KeepFirst, k);
    }
  }

  /** The case with a repeated "pe": the merge keeps its first value, 6; longer keywords are not reported. */
  lemma MatchAllKeepsFirst()
    ensures Holds(Collect(Match(Build(EmptyRoot, PetestKeys, KeepFirst), petestCom, 0, MatchAll).reported), [petestCom, pe, petest], [4, 6, 7])
  {
    MatchAllAfterBuild(EmptyRoot, PetestKeys, KeepFirst, petestCom);
    MatchAllKeepsFirstExpected();
  }

  // ----- codecs -----

  // ----- TestNode_LoadNode and TestNode_Decode: built below "/", without a merge function -----

  /** A positional case: the trie loaded back from `Data()` `Equals` the one built. */
  lemma LoadNodeCase(keys: seq<seq<u8>>)
    requires NonEmptyKeys(keys) && |keys| < 0x1_0000_0000
    ensures PositionalCodec.LoadNode(PositionalCodec.Data(Build(SlashRoot, keys, None))).Ok?
    ensures Equals(PositionalCodec.LoadNode(PositionalCodec.Data(Build(SlashRoot, keys, None))).value, Build(SlashRoot, keys, None))
  {
    BuildValid(SlashRoot, keys, None);
    PositionalCodec.LoadNodeData(Build(SlashRoot, keys, None));
  }

  /** A stream case: `size()` is the stream's length, and the trie decoded from it `Equals` the one built. */
  lemma DecodeCase(keys: seq<seq<u8>>)
    requires NonEmptyKeys(keys) && |keys| < 0x1_0000_0000
    ensures StreamCodec.Size(Build(SlashRoot, keys, None)) == |StreamCodec.Encode(Build(SlashRoot, keys, None))|
    ensures StreamCodec.Decode(StreamCodec.Encode(Build(SlashRoot, keys, None))).Ok?
    ensures Equals(StreamCodec.Decode(StreamCodec.Encode(Build(SlashRoot, keys, None))).value, Build(SlashRoot, keys, None))
  {
    BuildValid(SlashRoot, keys, None);
    StreamCodec.DecodeEncode(Build(SlashRoot, keys, None));
  }

  const LoadBasicKeys: seq<seq<u8>> := [abc, zyx, mln, abcd, abz]
  const DecodeBasicKeys: seq<seq<u8>> := [abc, zyx, mln]
  const CodecPrefixKeys: seq<seq<u8>> := [abc, zyx, abcd]

  /** LoadNode basic_encode. */
  lemma LoadNodeBasic()
    ensures PositionalCodec.LoadNode(PositionalCodec.Data(Build(SlashRoot, LoadBasicKeys, None))).Ok?
    ensures Equals(PositionalCodec.LoadNode(PositionalCodec.Data(Build(SlashRoot, LoadBasicKeys, None))).value, Build(SlashRoot, LoadBasicKeys, None))
  {
    LoadNodeCase(LoadBasicKeys);
  }

  /** LoadNode prefix_encode. */
  lemma LoadNodePrefix()
    ensures PositionalCodec.LoadNode(PositionalCodec.Data(Build(SlashRoot, CodecPrefixKeys, None))).Ok?
    ensures Equals(PositionalCodec.LoadNode(PositionalCodec.Data(Build(SlashRoot, CodecPrefixKeys, None))).value, Build(SlashRoot, CodecPrefixKeys, None))
  {
    LoadNodeCase(CodecPrefixKeys);
  }

  /** LoadNode edge_encode. */
  lemma LoadNodeEdge()
    ensures PositionalCodec.LoadNode(PositionalCodec.Data(Build(SlashRoot, EdgeKeys, None))).Ok?
    ensures Equals(PositionalCodec.LoadNode(PositionalCodec.Data(Build(SlashRoot, EdgeKeys, None))).value, Build(SlashRoot, EdgeKeys, None))
  {
    LoadNodeCase(EdgeKeys);
  }

  /** Decode basic_encode. */
  lemma DecodeBasic()
    ensures StreamCodec.Size(Build(SlashRoot, DecodeBasicKeys, None)) == |StreamCodec.Encode(Build(SlashRoot, DecodeBasicKeys, None))|
    ensures StreamCodec.Decode(StreamCodec.Encode(Build(SlashRoot, DecodeBasicKeys, None))).Ok?
    ensures Equals(StreamCodec.Decode(StreamCodec.Encode(Build(SlashRoot, DecodeBasicKeys, None))).value, Build(SlashRoot, DecodeBasicKeys, None))
  {
    DecodeCase(DecodeBasicKeys);
  }

  /** Decode prefix_encode. */
  lemma DecodePrefixEncode()
    ensures StreamCodec.Size(Build(SlashRoot, CodecPrefixKeys, None)) == |StreamCodec.Encode(Build(SlashRoot, CodecPrefixKeys, None))|
    ensures StreamCodec.Decode(StreamCodec.Encode(Build(SlashRoot, CodecPrefixKeys, None))).Ok?
    ensures Equals(StreamCodec.Decode(StreamCodec.Encode(Build(SlashRoot, CodecPrefixKeys, None))).value, Build(SlashRoot, CodecPrefixKeys, None))
  {
    DecodeCase(CodecPrefixKeys);
  }

  /** Decode edge_encode. */
  lemma DecodeEdge()
    ensures StreamCodec.Size(Build(SlashRoot, EdgeKeys, None)) == |StreamCodec.Encode(Build(SlashRoot, EdgeKeys, None))|
    ensures StreamCodec.Decode(StreamCodec.Encode(Build(SlashRoot, EdgeKeys, None))).Ok?
    ensures Equals(StreamCodec.Decode(StreamCodec.Encode(Build(SlashRoot, EdgeKeys, None))).value, Build(SlashRoot, EdgeKeys, None))
  {
    DecodeCase(EdgeKeys);
  }

  /** "test is error" */
  const PlainText: seq<u8> := [116, 101, 115, 116, 32, 105, 115, 32, 101, 114, 114, 111, 114]

  /** Plain text is not an encoded tree: its first byte announces a 116-byte fragment in a 13-byte stream. */
  lemma DecodePlainText()
    ensures StreamCodec.Decode(PlainText) == Err(Truncated)
  {
    assert ReadUvarint(PlainText, 0, |PlainText|) == Ok((116, 1));
  }

  /** A varint written with a superfluous continuation byte, `[0x80, 0]` for 0, is refused. */
  lemma DecodeOverlong()
    ensures StreamCodec.Decode([0x80, 0, 0, 0]) == Err(Overlong)
    ensures PositionalCodec.LoadNode([0x83, 0, 0, 0, 0]) == Err(Overlong)
  {
    var s: seq<u8> := [0x80, 0, 0, 0];
    assert ReadUvarint(s, 1, 4) == Ok((0, 2));
    assert ReadUvarint(s, 0, 4) == Err(Overlong);
    var b: seq<u8> := [0x83, 0, 0, 0, 0];
    assert ReadUvarint(b, 1, 5) == Ok((0, 2));
    assert ReadUvarint(b, 0, 5) == Err(Overlong);
  }

  /** A stream whose one child has an empty fragment and neither value nor children is not a trie. */
  lemma DecodeEmptyChild()
    ensures StreamCodec.Decode([0, 0, 1, 0, 0, 0]) == Err(NotATrie)
  {
    var s: seq<u8> := [0, 0, 1, 0, 0, 0];
    var empty := Node([], false, 0, []);
    ReadAt(s, 3, empty, [0, 0, 0], 6);
    assert StreamCodec.DecodeAllAt(s, 6, 0) == Ok(([], 6));
    assert StreamCodec.DecodeAt(s, 3) == Ok((empty, 6));
    StreamCodec.DecodeAllStep(s, 3, 1, 6, 0);
    var cs := StreamCodec.DecodeAllAt(s, 3, 1).value.0;
    assert cs == [empty] + [] == [empty];
    assert !Ordered(cs) by {
      assert cs[0].fragment == [];
    }
    ReadAt(s, 0, Node([], false, 0, [empty]), [0, 0, 1], 3);
  }

  /** Two children with the same leading byte are not a trie. */
  lemma DecodeSameLeadingByte()
    ensures StreamCodec.Decode([0, 0, 2, 1, 97, 1, 1, 0, 0, 0, 0, 1, 97, 1, 2, 0, 0, 0, 0]) == Err(NotATrie)
  {
    var s: seq<u8> := [0, 0, 2, 1, 97, 1, 1, 0, 0, 0, 0, 1, 97, 1, 2, 0, 0, 0, 0];
    var x, y := Leaf([97], 1), Leaf([97], 2);
    ReadAt(s, 3, x, [1, 97, 1, 1, 0, 0, 0, 0], 11);
    assert StreamCodec.DecodeAllAt(s, 11, 0) == Ok(([], 11));
    assert StreamCodec.DecodeAt(s, 3) == Ok((x, 11));
    ReadAt(s, 11, y, [1, 97, 1, 2, 0, 0, 0, 0], 19);
    assert StreamCodec.DecodeAllAt(s, 19, 0) == Ok(([], 19));
    assert StreamCodec.DecodeAt(s, 11) == Ok((y, 19));
    StreamCodec.DecodeAllStep(s, 11, 1, 19, 0);
    assert StreamCodec.DecodeAllAt(s, 11, 1).value.0 == [y] + [] == [y];
    StreamCodec.DecodeAllStep(s, 3, 2, 11, 1);
    var cs := StreamCodec.DecodeAllAt(s, 3, 2).value.0;
    assert cs == [x] + [y] == [x, y];
    assert !Ordered(cs) by {
      assert cs[0].fragment[0] == cs[1].fragment[0];
    }
    ReadAt(s, 0, Node([], false, 0, [x, y]), [0, 0, 2], 3);
  }

  /** The three fields of `n` are `w`, read at `p` and ending at `q`; its children are not looked at. */
  lemma ReadAt(s: seq<u8>, p: nat, n: Node, w: seq<u8>, q: nat)
    requires At(s, p, w) && w == FragmentField(n.fragment) + ValueField(n.hasValue, n.value) + Uvarint(|n.children|)
    requires q == p + |FragmentField(n.fragment)| + |ValueField(n.hasValue, n.value)| + |Uvarint(|n.children|)|
    requires n.hasValue || n.value == 0
    ensures ReadFragment(s, p, |s|) == Ok((n.fragment, p + |FragmentField(n.fragment)|))
    ensures ReadValue(s, p + |FragmentField(n.fragment)|, |s|) == Ok((n.hasValue, n.value, q - |Uvarint(|n.children|)|))
    ensures ReadUvarint(s, q - |Uvarint(|n.children|)|, |s|) == Ok((|n.children|, q))
  {
    var f, v, c := FragmentField(n.fragment), ValueField(n.hasValue, n.value), Uvarint(|n.children|);
    var p1, p2 := p + |f|, p + |f| + |v|;
    assert w == f + (v + (c + []));
    assert At(s, p, f + (v + (c + [])));
    ReadFragmentThen(s, p, |s|, n.fragment, v + (c + []), p1);
    ReadValueThen(s, p1, |s|, n.hasValue, n.value, c + [], p2);
    ReadUvarintThen(s, p2, |s|, |n.children|, [], q);
  }
}
