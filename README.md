# ptrie: a verified model of the compressed prefix trie

`ptrie` stores byte-string keys, each with a `uint32` value handle, in a compressed prefix trie
(a radix tree). Each edge carries a fragment of several bytes. A node's children are told apart
by the first byte of their fragments. The model covers the trie node and its operations:

- **`add`** inserts a key. It splits an edge where the new key shares only part of a fragment. On
  a key that is already stored, it either overwrites the value or merges it with an optional
  `merge(prev)` function.
- **`walk`** lists every stored key with its value. The root, whose fragment is empty, is never
  listed, even when it holds a value (`newValueNode("", 0)`).
- **`match(input, offset, onMatch)`** is anchored at `offset`. It reports each stored key that is
  a prefix of `input[offset..]`, shortest first. After each key the callback answers whether to go
  on; `false` stops the whole match. The result says whether anything was reported.
- **`Encode` / `Decode` / `size`** form a stream codec, written depth first.
- **`Data` / `LoadNode`** form a positional codec: one buffer in which every node record carries
  its length.
- **`Equals`** is structural equality.

The model specifies the behaviour `node_test.go` pins down, and every test case becomes a lemma.
`node.go`'s internals are not modelled: its wire widths, its handling of an empty key and its
handling of a malformed buffer. The tests leave these open, so the model fixes them as the design
choices below say.

## Layout

| file | module | contents |
|---|---|---|
| `bytes.dfy` | `Bytes` | `u8`, `u32`, `Option` |
| `node.dfy` | `Nodes` | the `Node` datatype, the trie invariant `Valid`, and `Get`, the key-to-value map a trie denotes |
| `builder.dfy` | `Builder` | `add` as the function `Insert`, and `Build`/`Expected` for the tests' keyword loops |
| `walker.dfy` | `Walker` | `walk` |
| `matcher.dfy` | `Matcher` | `match`, with the callback as a pure function `(key, value) -> go on?` |
| `equality.dfy` | `Equality` | `Equals`, and `Canonical` (value slots of valueless nodes cleared) |
| `wire.dfy` | `Wire` | field readers and writers for both codecs: varint lengths, little-endian `u32`, presence flag |
| `stream_codec.dfy` | `StreamCodec` | `Encode`, `Decode`, `size` |
| `positional_codec.dfy` | `PositionalCodec` | `Data`, `LoadNode` |
| `root.dfy` | `Tries` | class `Root`, the node a program holds; `add`, `Decode` and `LoadNode` update it in place |
| `scenarios.dfy` | `Scenarios` | every `walk` and `match` case of the tests, and the codec cases |

## Design choices

- Values are fixed to `u32`, the instantiation every test uses.
- A node is reported by `walk`, `match` and `Get` only when it holds a value and its fragment is
  non-empty. This is why the root `newValueNode("", 0)` of the `walk` and `match` tests never shows
  up. `LoadNode` and `Decode` tests start from the root `newValueNode("/", 0)`. Their keys are
  added below it, so each stored key starts with "/".
- `add(newValueNode(key, v), merge)` on a node stores `v` under the node's fragment followed by
  `key`. When the key is already stored, `merge(prev)` gives the new value, or `v` when there is no
  merge function. A branching node without a value counts as "not stored".
- Wire format, shared by both codecs:
  - a fragment is a varint length (unsigned LEB128) followed by its bytes;
  - the presence flag is one byte, 0 or 1;
  - a present value is 4 bytes, little endian;
  - a child count is a varint.
  
  The positional form prefixes each node record with the varint length of its body. A loader
  finds each child from those lengths, inside the window its parent's record declares.
- Both decoders fail, and never return a partial tree, in these cases:
  - a declared length runs past the stream or window;
  - the flag is neither 0 nor 1;
  - fewer children are present than declared;
  - a varint is overlong, that is, it ends in a zero byte after a continuation byte, so every
    length has exactly one encoding;
  - the children read break the trie invariant: they are not strictly ordered by leading byte,
    or one of them has an empty fragment, or one has neither a value nor two children.

  `LoadNode` also fails when the records do not fill the buffer exactly. `Decode` reads one tree
  from the head of the stream and leaves any following bytes unread, as a reader-based decoder does.
  So each decoder accepts exactly the encodings of valid tries, and the two directions of the round
  trip are both proved.
- A valueless node keeps a value slot in the datatype that the codecs do not carry. So decoding
  gives back `Canonical(t)`, which `Equals` `t`.
- `node_test.go:87-89` goes on to the next case when `Decode` succeeds. So the comparison at
  `node_test.go:91` runs only after a failed decode. `StreamCodec.DecodeEncode` states the round
  trip the test means to check.

## Model

| member | source | states |
|---|---|---|
| Nodes.CollectExact | node_test.go:135-138 | for entries with distinct keys, an entry is in the list exactly when the map collected from it (as the test's `actual[key] = value`) holds that key with that value |
| Builder.Insert | node_test.go:36 | `add` leaves the node's own fragment and value as they are, and never removes a child |
| Builder.Descend | node_test.go:36 | the child that replaces the one a key descends through still starts with the key's leading byte, so the children stay addressed by it |
| Builder.InsertGet | node_test.go:133 | after `add`, the node's fragment followed by the new key holds the new value, merged with the previous one when there was one; every other key keeps its value or stays absent |
| Builder.InsertValid | node_test.go:133 | `add` keeps the trie invariants: children ordered strictly by first byte, no valueless node below the root with fewer than two children |
| Builder.BuildGet | node_test.go:131-134 | adding the keywords in order, keyword `i` with value `i + 1`, below an empty root gives a valid trie whose keys and values are exactly the test's `expect` map |
| Builder.BuildValid | node_test.go:35-37 | adding keywords one by one to a valid trie gives a valid trie |
| Builder.ExpectedKeys | node_test.go:131-133 | the keys of the expected map are exactly the keywords added |
| Builder.ExpectedOverwrite | node_test.go:122-123 | without a merge function, a repeated keyword keeps the value of its last addition |
| Builder.ExpectedKeepFirst | node_test.go:256-259 | with the merge `prev => prev`, a repeated keyword keeps the value of its first addition |
| Tries.Root.constructor | node_test.go:34 | `newValueNode(fragment, value)` makes a childless node holding the value |
| Tries.Root.Empty | node_test.go:40 | `&Node{}` makes an empty node with no value and no children |
| Tries.Root.Add | node_test.go:35-36 | `add` updates the node in place to the tree with the key inserted; it states the new map of keys and that a valid trie stays valid |
| Tries.Root.AddAll | node_test.go:35-37 | the tests' keyword loop leaves the node holding exactly the trie `Build` describes |
| Tries.Root.Decode | node_test.go:85-86 | `Decode` succeeds exactly when the stream decodes, and then sets the node to a valid trie whose encoding begins the stream; on a format error the node is unchanged and the error is returned |
| Tries.Root.LoadNode | node_test.go:40-41 | as `Decode`, for `LoadNode` on a positional buffer, which must then be exactly the `Data()` of the new tree |
| Tries.CloneByData | node_test.go:38-42 | an empty node loaded from another node's `Data()` `Equals` that node |
| Tries.CloneByStream | node_test.go:77-91 | an empty node decoded from another node's encoding `Equals` that node |
| Walker.Walk | node_test.go:135 | every key `walk` yields extends the path it was called with by the node's fragment, and is strictly longer than that path |
| Walker.WalkExact | node_test.go:135-138 | an entry is yielded by `walk` exactly when its key is stored with that value |
| Walker.WalkDistinct | node_test.go:135-138 | `walk` yields each key at most once |
| Walker.WalkYieldsContents | node_test.go:135-138 | the map collected from `walk` is exactly the map the trie stores, one entry per key |
| Walker.WalkAfterBuild | node_test.go:127-138 | walking the trie built from a keyword list yields exactly the test's `expect` map |
| Matcher.Match | node_test.go:262-266 | every reported key is a prefix of the input at `offset` and is stored with the reported value; the result is true exactly when something was reported |
| Matcher.MatchAllExact | node_test.go:262-268 | when the callback always goes on, an entry is reported exactly when its key is a stored prefix of the input at `offset`, with its value |
| Matcher.MatchDistinct | node_test.go:262-264 | no key is reported twice |
| Matcher.MatchAllCollect | node_test.go:261-268 | when the callback always goes on, the map the test collects is exactly the stored keys that are prefixes of the input |
| Matcher.MatchAtTakeThrough | node_test.go:262-265 | with any callback, the reports are the all-matches reports up to and including the first one the callback refuses |
| Matcher.MatchFirstShortest | node_test.go:183-202 | when the callback stops, at most one key is reported; when any stored key is a prefix of the input, exactly one is, and it is the shortest |
| Matcher.MatchAtIncreasing | node_test.go:171-182 | keys are reported in order of strictly increasing length, from the root down the one path the input selects |
| Equality.Equals | node_test.go:42 | equal trees have one canonical form: the same tree once the value slots of valueless nodes are cleared |
| Equality.EqualsReflexive | node_test.go:42 | every tree `Equals` itself |
| Equality.EqualsSymmetric | node_test.go:42 | `Equals` is symmetric |
| Equality.EqualsTransitive | node_test.go:42 | `Equals` is transitive |
| Equality.CanonicalEquals | node_test.go:42 | clearing the value slots of valueless nodes gives an equal tree |
| Equality.EqualsGet | node_test.go:42 | equal trees store the same keys with the same values |
| Equality.EqualsWalk | node_test.go:42 | equal trees are walked alike |
| Equality.EqualsMatchAt | node_test.go:42 | equal trees match alike, for every callback |
| Equality.EqualsValid | node_test.go:42 | a tree equal to a valid trie is a valid trie |
| Equality.CanonicalValid | node_test.go:42 | clearing the value slots of valueless nodes neither makes nor breaks a valid trie |
| Wire.UvarintLength | node_test.go:83 | the varint of `n` takes exactly the number of bytes `size` counts for it |
| Wire.ReadUvarintAt | node_test.go:86 | reading a varint where one was written returns its value and moves past it |
| Wire.ReadUvarintWritten | node_test.go:86 | a varint is read only where its one encoding was written |
| Wire.HeaderCancel | node_test.go:86 | two streams that begin with node headers and are equal have the same fragment, flag, held value and child count, and equal remainders |
| StreamCodec.Size | node_test.go:83 | `size()` equals the number of bytes `Encode` writes |
| StreamCodec.DecodeEncodeAt | node_test.go:85-86 | wherever an encoding occurs in a stream, decoding there gives back the tree to its last byte |
| StreamCodec.DecodeEncode | node_test.go:77-91 | `Decode` of what `Encode` (node_test.go:78) wrote of a valid trie `t` succeeds with a tree `Equals` `t` |
| StreamCodec.Decode | node_test.go:86 | what `Decode` returns is a valid trie whose encoding begins the stream |
| StreamCodec.DecodePrefix | node_test.go:86 | a stream that begins with the encoding of a valid trie decodes to that trie, whatever follows |
| StreamCodec.DecodeAtWritten | node_test.go:86 | a node is read only where its encoding was written, and it is a valid trie |
| StreamCodec.EncodePrefixFree | node_test.go:78 | no encoding is a proper prefix of another, and equal encodings come from trees with one canonical form |
| StreamCodec.DecodeEncodeValid | node_test.go:77-91 | the encoding of a tree decodes exactly when the tree is a valid trie |
| StreamCodec.DecodeFrame | node_test.go:86 | a decoded tree depends only on the bytes read up to where decoding stopped |
| StreamCodec.DecodeTruncated | node_test.go:97-101 | every proper prefix of an encoding is rejected with an error |
| PositionalCodec.LoadBodyAtBody | node_test.go:41 | a node body stored anywhere in a buffer loads back from the window it fills |
| PositionalCodec.LoadNodeData | node_test.go:38-42 | `LoadNode` of the `Data()` (node_test.go:38) of a valid trie `t` succeeds with a tree `Equals` `t` |
| PositionalCodec.LoadNode | node_test.go:41 | what `LoadNode` returns is a valid trie, and the buffer is exactly its `Data()` |
| PositionalCodec.LoadBodyAtWritten | node_test.go:41 | a body is loaded only from a window holding exactly its encoding, and it is a valid trie |
| PositionalCodec.LoadNodeWritten | node_test.go:41 | a header and body `LoadNode` accepts spell out the `Data()` of the tree it returns |
| PositionalCodec.LoadNodeTruncated | node_test.go:40-41 | every proper prefix of a `Data()` buffer is rejected |
| Scenarios.MatchAllAfterBuild | node_test.go:254-268 | with the all-matches callback, the map a case collects is exactly its keywords that are prefixes of the input, with their expected values |
| Scenarios.FirstMatchAfterBuild | node_test.go:254-268 | with the stopping callback, a case reports exactly the shortest keyword that is a prefix of the input, and `match` returns true |
| Scenarios.WalkMergeNode | node_test.go:121-124 | merge_node: walk yields "abc"→4, "ac"→2, "zyx"→3, "abcdefx"→5 and nothing else |
| Scenarios.WalkEdge | node_test.go:117-120 | edge_encode: walk yields "abc"→1, "ac"→2, "zyx"→3 and nothing else |
| Scenarios.MatchPrefix | node_test.go:151-159 | prefix match: "bc is" reports only "bc"→7, and `match` returns true |
| Scenarios.MatchExact | node_test.go:161-169 | exact match: "abc" reports only "abc"→1 |
| Scenarios.MatchAllAlongPath | node_test.go:171-182 | prefix multi match: "abcdex" reports exactly "abc"→1, "abcd"→4, "abcdex"→5 |
| Scenarios.MatchFirstAlongPath | node_test.go:183-192 | first multi match: "abcdex" reports only "abc"→1, and `match` returns true |
| Scenarios.MatchFirstAnchored | node_test.go:193-202 | first prefix multi match: "abcdex zz" reports only "abc"→1; "zz" occurs later in the input and is not reported |
| Scenarios.MatchAllAnchored | node_test.go:203-216 | first prefix multi match2: exactly "a"→4, "abc"→5, "ab"→6, "abcd"→8 are reported; "abcz", "abrz" and "zz" are not |
| Scenarios.MatchAllLevels | node_test.go:217-229 | mult level match: exactly "abc"→2, "ab"→1, "abcd"→3, "a"→4 are reported |
| Scenarios.MatchAllKeepsFirst | node_test.go:230-251 | exactly "petest.com"→4, "pe"→6, "petest"→7 are reported; the repeated "pe" keeps its first value 6 |
| Scenarios.LoadNodeCase | node_test.go:33-42 | for any keyword list, loading the `Data()` of the trie built below "/" gives back a tree `Equals` it |
| Scenarios.LoadNodeBasic | node_test.go:19-22 | LoadNode basic_encode ("abc", "zyx", "mln", "abcd", "abz") loads back equal |
| Scenarios.LoadNodePrefix | node_test.go:23-26 | LoadNode prefix_encode ("abc", "zyx", "abcd") loads back equal |
| Scenarios.LoadNodeEdge | node_test.go:27-30 | LoadNode edge_encode ("abc", "ac", "zyx") loads back equal |
| Scenarios.DecodeCase | node_test.go:72-91 | for any keyword list, `size()` of the trie built below "/" is its stream's length, and decoding the stream gives back a tree `Equals` it |
| Scenarios.DecodeBasic | node_test.go:58-61 | Decode basic_encode ("abc", "zyx", "mln"): sizes agree and the tree decodes back equal |
| Scenarios.DecodePrefixEncode | node_test.go:62-65 | Decode prefix_encode ("abc", "zyx", "abcd"): sizes agree and the tree decodes back equal |
| Scenarios.DecodeEdge | node_test.go:66-69 | Decode edge_encode ("abc", "ac", "zyx"): sizes agree and the tree decodes back equal |
| Scenarios.DecodePlainText | node_test.go:97-101 | decoding the text "test is error" fails: its first byte announces a 116-byte fragment in a 13-byte stream |
| Scenarios.DecodeOverlong | node_test.go:97-101 | a varint with a superfluous continuation byte is refused by both decoders |
| Scenarios.DecodeEmptyChild | node_test.go:97-101 | a stream whose one child has an empty fragment is refused as not a trie |
| Scenarios.DecodeSameLeadingByte | node_test.go:97-101 | a stream with two children that share a leading byte is refused as not a trie |

## Left out

- Readers, writers and their I/O errors. Both codecs work on byte sequences, and a failing writer or reader is not modelled.
- The generic value parameter. Values are `u32`, as in every test.
- The wire widths of `node.go`. The format above is this model's own, fixed once for both directions.
- Side effects of callbacks. `walk` returns its entries and `match` returns its reports with its result; the tests' maps are `Collect` of those lists.
- Callback order under all-matches. The model reports keys shortest first and walks children in stored order. No property depends on walk order, and the tests collect into maps.
- Concurrent readers. The trie is single-threaded.
- Tries.Root.Add: requires a non-empty key, because a child is addressed by its first byte; every test adds non-empty keys. The handling of an empty key in `node.go` is not modelled.
- Tries.Root.Decode: on a format error the node is left as it was. The partial state `node.go` may leave behind is not modelled.
- Tries.Root.LoadNode: as `Decode`, a malformed buffer leaves the node as it was. Which malformed buffers `node.go` itself rejects is not modelled.
- StreamCodec.DecodeEncode: stated for valid tries, the only trees `add` builds; `Decode` refuses the encoding of any other tree (`StreamCodec.DecodeEncodeValid`).
- PositionalCodec.LoadNodeData: stated for valid tries, as `StreamCodec.DecodeEncode`; for any other tree the model proves only that whatever `LoadNode` returns is a valid trie whose `Data()` is the buffer, not that such a record is refused.
- Equality.Equals: compares children in their stored order. In a valid trie that order is fixed by the leading bytes, so valid tries compare their children keyed by leading byte.
- Scenarios: of the `walk` cases, basic_encode and prefix_encode are covered by `Walker.WalkAfterBuild` and not stated separately.
