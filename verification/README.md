# An adaptive radix tree, and the typed map built on it

These Dafny files model the sorted map at the root of the repository — a mutable adaptive radix tree from byte
strings to values — and the typed facade and key codec in `artmap/`. They prove that the tree is a sorted map under
every sequence of operations, and that its shape is a function of its contents.

## How the model is built

- **Keys and values.** A key is a `seq<byte>` ordered as `bytes.Compare` orders it (`Bytes`). Values are of any type.
- **Heap.** `Layouts` holds the objects the code mutates: leaves, prefix slices over shared buffers, inner nodes, and
  the child tables over arrays of 4, 16, 48 and 256 slots. Parallel sorted arrays serve node4 and node16; node48 has
  its 256-entry index, its dense slots and its edge list; node256 is direct. `Nodes` dispatches over the four.
- **Shapes.** `Tries` defines the abstract path-compressed trie, `Shapes` the ghost trie that describes a heap
  structure node by node, with the objects it owns (`Held`). Prefix buffers are read but never owned, so no operation
  can write one, and two trees may share them. `Grafts` lifts the node primitives to shapes.
- **Invariant.** `Tries.Canonical` is what every operation keeps: keys agree with their position, every inner node
  separates at least two keys, and a node's kind is the smallest that holds its children. `Canon.Describes` is an
  independent description of the canonical trie of a set of entries (longest common prefixes, next bytes, terminals);
  the two are proved equivalent.
- **Operations.** `Trees.Tree` has a ghost field `contents: map<Key, V>`; every method states its effect on it.
  `Walks`, `RangeWalks`, `Queries` and `Clones` hold the read-only traversals; `Listings`, `Feeds`, `Windows` and
  `Extremes` what they are specified by: the sorted list of the contents, what an arbitrary consumer is offered up to
  its first refusal, the part of a list inside an interval, and least and greatest entries. `Insertions` and `Reshapes`
  say what one Put and one Delete may do to the inner nodes. `Runs` says what a sequence of operations leaves on maps;
  `Histories` is about whole runs on one or two trees, `Pools` about runs over any number of trees, cloning included,
  and `TypedPools` about the same for typed maps.
- **Typed map.** `Codec` encodes and decodes the ten fixed-width kinds and strings, on bit patterns; `^` with the
  sign bit and the complement of a word are arithmetic functions (`FlipSign`, `FlipAll`); `Bits` defines the bitwise
  operators bit by bit, `EncodeKey` applies them, and `WordOperators` equates the two for every kind. Floats are IEEE
  754-2019 patterns (section 3.4), finite values counted in units of the least positive one, so that no real number is
  rounded.
  `OrderedMaps.Ordered` composes the codec with the tree and is specified on `map<Item, V>`.

A bound of a range is an `Option<Key>`: `None` is Go's nil bound, `Some([])` the empty one. A key has no such
distinction. A `yield` callback is a `Feeds.Consumer`: it records what it is given and answers by an arbitrary
function of all it has been given so far. Panics for reversed bounds are preconditions.

## Where the code and its documentation disagree

`artmap/ordered.go:21-24` promises that `cmp.Compare` and byte order agree in sign on any two keys. They do on all
strings and integers. On floats they do not: `cmp.Compare` makes -0 and +0 equal and puts every NaN below every
number, while the encoding puts -0 just below +0 and a NaN with a clear sign bit above every number
(`ZerosCompareDifferently`, `NaNComparesDifferently`). `CompareAgreement` gives the exact condition. What the encoding
does implement is totalOrder of IEEE 754-2019, section 5.10 (`TotalOrderIsWordOrder`, `EncodeOrder`).

`INVARIANTS.md:107-119` has a node demote when its child count drops to *or below* the smaller capacity. The code tests
equality only (`types.go:283`, `types.go:419`, `types.go:540`). That is enough: a deletion starts from a canonical node
and takes one child, so the count cannot skip the boundary (`Reshape`, `CanonicalNeedsNoReshape`, `CanonicalIsSized`).

## Model

| member | source | states |
|---|---|---|
| Trees.Tree.Put | put.go:11-13 | The contents become `old[key := value]`, so every other key keeps its value and `size` stays the cardinality; the structure stays canonical, and only new objects join it. `OneInsertion` relates the old shape and the new: along the key's path every inner node keeps its object, kind, prefix slice, terminal and other children, down to the one place where a value is replaced, a terminal set, a child gained (on the next kind if the node was full), or a new node4 branches off |
| Insertions.PutTouches | put.go:32-46 | Hence at most two inner nodes show an object, kind or prefix slice that no node showed before, and at most one is no longer there: a split makes a node and cuts the prefix of another |
| Trees.Tree.PutInto | put.go:21-46 | A subtree whose path is a prefix of the key ends up canonical at that path with exactly the upserted entries, and differs from the old one by `OneInsertion`; the size grows by one just when the key was new |
| Trees.Tree.PutIntoInner | put.go:54-78 | The same for a node whose path is `key[..depth]`, in all five branches: terminal present or not, no child, leaf child with the same or another key, inner child |
| Trees.Tree.PutSplit | put.go:34-43 | A key that leaves the prefix early was absent; the node, its prefix cut by a slice header on the same buffer and otherwise as it was, hangs beside the new leaf below a new canonical node4 |
| Trees.Tree.NewNode4With | helpers.go:97-118 | The new node4 holds exactly the old leaf and the new one, each in its own slot after their longest common prefix, in canonical form; both callers prove the keys differ, so the equal-keys panic is unreachable |
| Trees.Tree.SplitPrefixedInner | helpers.go:127-136 | The new parent holds the adoptee's entries and the new one, in canonical form at the enclosing path |
| Trees.Tree.InsertLeaf | helpers.go:24-27 | A new leaf with this key and value, counted in `size` |
| Trees.Tree.Delete | delete.go:12-16 | The contents lose the key; the result is true just when it was present, and otherwise root and shape are unchanged. `OneReshape` relates the old shape and the new: along the key's path every inner node keeps its object, kind, prefix slice, terminal and other children, down to the one node that loses its terminal or a leaf child; that node is replaced by the result of one reshape step, and nothing else changes |
| Trees.Tree.DeleteFrom | delete.go:26-63 | The remaining subtree is canonical, holds exactly the other entries, and differs from the old one by `OneReshape`; size drops by one just when the key was present; an absent key gives back the same pointer and shape |
| Trees.Tree.DeletedInPlace | delete.go:53-56 | A child that kept its pointer may have changed below it: the parent, left without reshaping, is canonical as it stands |
| Trees.Tree.Detach | delete.go:57-62 | A child that went or was replaced leaves a node that one reshape makes canonical; when it was replaced, reshaping changes nothing |
| Trees.Tree.DeleteTerminal | helpers.go:33-41 | The terminal is cleared just when its key is the deleted one; otherwise nothing changes |
| Trees.Tree.Reshape | types.go:172-184 | Every node a deletion can leave is turned, by the one step `ReshapesTo` spells out (collapse, hoist, merge or demote, on the code's own tests), into a canonical structure with the same entries, never nil; a canonical node is returned unchanged |
| Reshapes.DeleteTouches | delete.go:53-62 | Hence at most one inner node shows an object, kind or prefix slice that no node showed before, and at most two are no longer there: two when a merge drops the parent and rewrites the child's prefix |
| Trees.Tree.MergePrefixIntoChild | types.go:597-604 | The lone inner child keeps its object, kind, terminal and children, under the joined prefix in a buffer of its own; it is canonical at the parent's path and keeps the entries |
| Trees.Tree.HoistOrMerge | types.go:176-182 | A node4 with one child and no terminal is replaced by the leaf, or by the merged inner child, with the same entries |
| Trees.Tree.Clear | sorted.go:64-67 | The contents and the shape become empty |
| Trees.Tree.Len | types.go:627-627 | The number of keys in the map |
| Edits.CanonicalUpsert | put.go:63-77 | Putting a canonical child with the key upserted into its slot, on the kind its child count asks for, upserts the key in the whole canonical trie |
| Edits.CanonicalRemove | delete.go:53-62 | Removing the key inside one child removes it from the whole trie; the node is one reshape away from canonical, and already canonical unless the child vanished |
| Edits.CanonicalNeedsNoReshape | types.go:279-287 | In a canonical node no demotion, collapse or merge test holds: the `== capacity` tests miss nothing |
| Edits.MergePrefix | types.go:593-604 | Joining prefixes around the branch byte keeps entries and canonical form |
| Canon.CanonicalIsDescribed | INVARIANTS.md:61-138 | A canonical trie is the one its own entries describe: path the longest common prefix, a terminal just where that prefix is a key, one child per next byte, kind by child count |
| Canon.DescribedIsCanonical | INVARIANTS.md:61-138 | The converse: whatever fits that description is canonical and holds exactly those entries |
| Canon.DescriptionIsUnique | INVARIANTS.md:61-138 | A set of entries describes only one shape |
| Canon.HistoryIndependence | INVARIANTS.md:61-138 | Canonical tries with equal entries have equal shapes, whatever operations led to them |
| Histories.ValidTreeIsDescribed | INVARIANTS.md:16-24 | The shape of every valid tree is the one its map describes |
| Histories.SameMapSameShape | INVARIANTS.md:16-24 | Two valid trees that stand for one map have the same shape |
| Histories.PutThenDelete | delete.go:5-16 | Putting a new key and deleting it restores contents and shape |
| Runs.LastOperationDecides | INVARIANTS.md:16-24 | The last operation of a run that concerns a key decides: after a Put its value is there, after a Delete or a Clear nothing is, and without such an operation the key keeps what it had |
| Runs.Outcome | INVARIANTS.md:16-24 | So a value is there in the end just when a Put left it there, or it was there before, and no later operation was a Clear or concerned its key |
| Histories.Perform | delete.go:12-16 | One operation: the contents become `old[key := value]`, `old - {key}` or empty, and the tree stays valid |
| Histories.Run | INVARIANTS.md:16-24 | Any sequence of Put, Delete and Clear on a valid tree keeps it valid, with the outcome per key spelled out: what was put, or was there, and not concerned since |
| Histories.Replay | INVARIANTS.md:16-24 | The same from an empty tree: a key is there with a value just when some Put of the two is followed by no Clear, no Delete of the key and no Put on it |
| Runs.ShareLaws | INVARIANTS.md:179-185 | The operations of one side: shares of a run are put together from those of its parts, and a single operation belongs to its own side only |
| Histories.Interleave | INVARIANTS.md:179-185 | Any interleaving of operations on two trees without common nodes: each sees its own operations only, and they stay separate |
| Histories.CloneAndDiverge | INVARIANTS.md:179-185 | The same from the moment of cloning on, although prefix buffers are shared; original and clone stay separate |
| Runs.OwnLaws | INVARIANTS.md:179-185 | The operations addressed to one map of a pool: put together from those of the parts of a run; a single operation belongs to the map it names only |
| Runs.FollowsItsOwn | INVARIANTS.md:179-185 | Through any run over a pool, each map goes through the operations addressed to it, and nothing else |
| Runs.CloneFollowsItsOwn | sorted.go:57-59 | A clone is what its original was at that step, taken through the operations addressed to the clone after it |
| Runs.PoolGrows | sorted.go:57-59 | Each step adds one map when it clones one that is there, and none otherwise |
| Pools.Run | INVARIANTS.md:179-185 | Any run over any number of trees, with cloning among the operations: every tree stays valid, and its contents are its old ones taken through the operations addressed to it, or for a clone those of its original at that step taken through the operations addressed to the clone; no two trees ever share a node |
| Pools.Replay | INVARIANTS.md:16-24 | The same from one empty tree |
| TypedPools.Run | artmap/ordered.go:163-168 | The same for typed maps of one kind: Put, Delete and Clone over any number of them, each following its own operations only |
| TypedPools.Replay | artmap/ordered.go:163-168 | The same from one empty typed map |
| Histories.ValidTreeIsCompact | INVARIANTS.md:79-138 | At most one inner node fewer than keys, and every inner node within its size class with children plus terminal at least two |
| Listings.SpaceBound | helpers.go:91-136 | A canonical subtree has fewer inner nodes than entries |
| Listings.CanonicalIsSized | INVARIANTS.md:107-138 | node4 holds 1-4 children, node16 5-16, node48 17-48, node256 49-256, everywhere in a canonical trie |
| Listings.FlatIsListing | iterate.go:9-11 | Terminal first, then children by edge: that order lists every entry once, keys strictly ascending |
| Listings.ListingIsUnique | iterate.go:9-18 | A set of entries has only one ascending listing |
| Layouts.SortedTable.AddChild | types.go:100-113 | The edge map gains the child; keys stay sorted, with a slot shift in place |
| Layouts.SortedTable.RemoveChild | types.go:138-149 | The edge map loses the edge, or stays as it is when there is none |
| Layouts.SortedTable.FindChild | types.go:91-98 | The child under the edge, or nil |
| Layouts.SortedTable.EachAscending | types.go:151-158 | The callback gets the edges in ascending order up to its first refusal, and the result tells whether there was one |
| Layouts.SortedTable.EachDescending | types.go:160-167 | The same in descending order |
| Layouts.IndexedTable.AddChild | types.go:338-345 | Index and edge list stay inverse over dense slots; the edge map gains the child |
| Layouts.IndexedTable.RemoveChild | types.go:371-387 | The last slot moves into the gap; index and edge list stay inverse; the edge map loses the edge |
| Layouts.LinkedRemovedInner | INVARIANTS.md:140-147 | Filling the gap from the end is an exchange of two slots followed by dropping the last |
| Layouts.IndexedTable.EachAscending | types.go:389-400 | The callback gets the edges in ascending byte order, whatever the order of slots, up to its first refusal, and the result tells whether there was one |
| Layouts.IndexedTable.EachDescending | types.go:402-413 | The same in descending order |
| Layouts.DirectTable.AddChild | types.go:480-483 | The edge map gains the child, and the 16-bit count stays its cardinality |
| Layouts.DirectTable.RemoveChild | types.go:502-508 | The edge map loses the edge, and the count stays its cardinality |
| Layouts.DirectTable.EachAscending | types.go:510-521 | The callback gets the occupied edges in ascending order up to its first refusal, and the result tells whether there was one |
| Layouts.DirectTable.EachDescending | types.go:523-534 | The same in descending order |
| Layouts.GrowToNode48 | types.go:427-442 | A new node48 table with the same edge map |
| Layouts.ShrinkToNode16 | types.go:444-460 | A new node16 table, keys sorted, with the same edge map |
| Layouts.GrowToNode256 | types.go:548-563 | A new node256 table with the same edge map |
| Layouts.ShrinkToNode48 | types.go:565-581 | A new node48 table, index and edge list inverse, with the same edge map |
| Nodes.AddOrGrow | types.go:115-125 | The edge map gains the child; prefix and terminal are kept; the node is replaced just when it was full, by the next kind |
| Nodes.ShrinkTable | types.go:279-287 | The table moves one size down exactly when it holds what that one can, keeping its edge map |
| Nodes.EachAscending | types.go:42-43 | All four layouts offer the same edge map in the same order, up to the first refusal |
| Nodes.FindAscending | sorted.go:133-143 | A callback that keeps a child and refuses it ends the walk at the first edge that meets its test |
| Bytes.FirstDifference | doc.go:8-9 | The order of keys: after the longest common prefix the smaller byte decides, and a key that ends there comes first |
| Bytes.LongestCommonPrefix | helpers.go:79-89 | The first n bytes agree and the next, if both have one, differ |
| Bytes.ConsumePrefix | helpers.go:45-54 | A depth comes back just when the key continues with the prefix, and is the depth after it |
| Bytes.SubtreeBeforeIsExact | iterate.go:169-181 | The pruning test holds if and only if every key under the path and byte is below the bound |
| Bytes.SubtreeAtOrAfterIsExact | iterate.go:187-203 | The pruning test holds if and only if no key under the path and byte is below the bound |
| Feeds.FeedStopsAtFirstRefusal | iterate.go:37-40 | What a consumer is offered is the shortest prefix ending at its first refusal, or everything |
| Windows.WindowIsListing | iterate.go:155-163 | Filtering a listing by the interval lists exactly the entries inside it |
| Windows.WindowBetween | iterate.go:155-163 | In the order of keys alone: between two bounds are the entries at or above the start and below the end; with one bound, those on its side |
| Windows.WindowReverse | iterate.go:232-238 | Filtering the backward list gives the forward range reversed |
| Walks.Iterate | iterate.go:41-55 | Exactly the ascending list is offered, up to the first refusal, and the result tells whether there was one |
| Walks.IterateDescending | iterate.go:211-229 | Exactly the reverse of it |
| RangeWalks.IterateRange | iterate.go:121-151 | Exactly the entries of the subtree inside the interval are offered, in order, up to the first refusal; the path buffer is restored; a false result is a refusal, or means that nothing later is below the end bound |
| RangeWalks.IterateRangeDescending | iterate.go:269-305 | Exactly the same entries in reverse; stopping early at the start bound suppresses nothing and is never reported as a refusal |
| RangeWalks.RangeEdges | iterate.go:138-148 | The child loop, with the node's path intact at the head of the shared buffer through all that the children's walks write or reallocate behind it |
| RangeWalks.PathBuffer.Append | iterate.go:133-134 | An append after a truncation writes behind the kept bytes, in the same backing array while there is room and in a new one otherwise; the kept bytes survive |
| RangeWalks.NothingAfter | iterate.go:142-144 | Once some key under an edge is at or past the end, so is everything under later edges |
| RangeWalks.NothingBefore | iterate.go:284-287 | Once a whole edge is before the start, so is everything under earlier edges |
| RangeWalks.YieldTerminalInRange | helpers.go:69-75 | Testing the path instead of the key decides correctly whether the terminal is offered |
| Trees.Tree.All | iterate.go:19-23 | The consumer is offered the sorted contents up to its first refusal |
| Trees.Tree.AllDescending | iterate.go:31-35 | The sorted contents reversed, up to the first refusal |
| Trees.Tree.Range | iterate.go:77-88 | The sorted contents filtered by start <= key < end, up to the first refusal; equal bounds offer nothing |
| Trees.Tree.RangeFrom | iterate.go:97-99 | The same without an end |
| Trees.Tree.RangeTo | iterate.go:108-110 | The same without a start |
| Trees.Tree.RangeDescending | iterate.go:247-258 | The filtered contents reversed, up to the first refusal |
| Trees.Tree.Get | get.go:7-27 | The value under the key, or none just when it is absent; the loop meets exactly the inner nodes that `InnerMet` counts along the key's way through the shape, at most one for each byte of the key, and one more |
| Queries.Lookup | get.go:11-26 | The loop: a value comes back if and only if the subtree has the key, and it is that key's value; one turn of the loop for each inner node on the key's way |
| Queries.InnerMetBound | get.go:11-26 | From any node on, the key's way meets at most one inner node for each byte that is left, and one more |
| Trees.Tree.Min | sorted.go:8-14 | The entry with the least key, or none just when the map is empty |
| Trees.Tree.Max | sorted.go:19-25 | The entry with the greatest key, or none just when the map is empty |
| Trees.Tree.Ceiling | sorted.go:32-38 | The least entry at or above the target, or none just when there is none |
| Trees.Tree.Floor | sorted.go:45-51 | The greatest entry at or below the target, or none just when there is none |
| Queries.MinLeafOf | sorted.go:73-86 | The least entry of a subtree |
| Queries.MaxLeafOf | sorted.go:92-106 | The greatest entry of a subtree |
| Queries.FirstChildGT | sorted.go:133-143 | The child under the least edge above the byte, or nil when there is none |
| Queries.LastChildLT | sorted.go:147-157 | The child under the greatest edge below the byte, or nil when there is none |
| Queries.WalkPrefixToward | sorted.go:174-192 | Which of the four mutually exclusive positions the node's path has relative to the target |
| Queries.CeilingLeafOf | sorted.go:200-234 | The least entry of the subtree at or above the target |
| Queries.FloorLeafOf | sorted.go:242-274 | The greatest entry of the subtree at or below the target |
| Extremes.CeilingInSibling | sorted.go:229-232 | With no answer under the target's own edge, the next edge's least entry is the ceiling |
| Extremes.FloorAtTerm | sorted.go:273-273 | With nothing at or below the target under any edge, the terminal is the floor |
| Extremes.MinIsFirst | sorted.go:5-7 | Min is the first entry of the ascending list |
| Extremes.MaxIsLast | sorted.go:16-18 | Max is the last |
| Extremes.CeilingIsFirstInRange | sorted.go:27-31 | Ceiling is the first entry of the range from the target on |
| Extremes.FloorIsLastInRange | sorted.go:40-44 | Floor is the target's own entry if there is one, else the last of the range up to the target |
| Trees.Tree.Clone | sorted.go:57-59 | A new tree with the same contents and shape, no object in common with the original, and no buffer that the original does not use |
| Clones.CloneNode | sorted.go:282-299 | A structure of the same shape on new nodes and leaves, over the original's prefix buffers |
| Nodes.Shallow | types.go:328-328 | A new node with a table of its own, and the same kind, edge map, prefix and terminal |
| Codec.EncodeKey | artmap/codec.go:83-131 | The encoding of the key, computed with the bitwise operators and left at the front of the caller's buffer unless the key is a string |
| Codec.WordOperators | artmap/codec.go:99-127 | For every kind, `^` with the sign bit, `^` of the whole word and the sign test `&` are `FlipSign`, `FlipAll` and `Negative` |
| Bits.TopBit | artmap/codec.go:99-110 | Bit by bit, `^` with the top bit adds or subtracts its weight, and `&` with it tests it |
| Bits.AllOnes | artmap/codec.go:113-114 | Bit by bit, `^` with all ones is the complement |
| Codec.DecodeEncode | artmap/codec.go:133-217 | Decoding inverts encoding on every bit pattern of every kind, NaNs included |
| Codec.EncodeDecode | artmap/codec.go:133-217 | Every byte string of the right length is the encoding of the key it decodes to |
| Codec.FixedWidth | artmap/codec.go:83-131 | One, two, four or eight bytes: which words belong to each of the ten kinds, how long their encodings are, and what a decoder accepts |
| Codec.Strings | artmap/codec.go:85-86 | A string is its own encoding and decoding, and strings are ordered byte by byte |
| Codec.IntegerOrder | artmap/codec.go:87-110 | For each of Go's eight integer types, on its whole range: the encodings of two numbers are in order just when the numbers are, and so are the keys |
| Codec.SignMagnitudeOrder | artmap/codec.go:111-128 | On all float32 and float64 patterns: those with the sign bit come first, by descending magnitude, then the others by ascending magnitude; so the negative of a positive number comes before every positive number |
| Codec.BinaryFormat | artmap/codec.go:111-128 | What a pattern denotes, from its sign, its exponent of 8 or 11 bits and its significand of 23 or 52: zeros, subnormal and normal numbers, infinities, NaNs with quiet bit and payload |
| Codec.EncodeOrder | artmap/codec.go:83-131 | Byte order of encodings is key order: lexicographic, unsigned, two's complement, totalOrder |
| Codec.EncodeInjective | artmap/codec.go:83-131 | Different keys have different encodings |
| Codec.FloatOrder | artmap/codec.go:111-128 | On float32 and float64 away from NaNs, byte order is the order of the denoted values, with -0 below +0 |
| Codec.ZerosAreAdjacent | artmap/codec.go:111-128 | Nothing lies between -0 and +0 |
| Codec.TotalOrderIsWordOrder | artmap/codec.go:111-128 | totalOrder of IEEE 754-2019, section 5.10, of two different float32 or float64 patterns holds exactly when their encodings are in order, and exactly when the keys are |
| Codec.CompareAgreement | artmap/ordered.go:21-24 | Byte order and `cmp.Compare` agree if and only if the keys are no floats, or the two patterns satisfy `ComparesAlike` |
| Codec.ZerosCompareDifferently | artmap/ordered.go:21-24 | Counterexample in both formats: -0 and +0 |
| Codec.NaNComparesDifferently | artmap/ordered.go:35-39 | Counterexample in both formats: a NaN with a clear sign bit, and 1 |
| Codec.WordOrder | artmap/codec.go:90-98 | Big-endian words of one width are ordered as numbers |
| Codec.PutWord | artmap/codec.go:90-98 | The first bytes of the buffer become the big-endian word; the rest is kept |
| OrderedMaps.Ordered.Put | artmap/ordered.go:96-100 | The typed map becomes `old[key := value]` |
| OrderedMaps.Ordered.Get | artmap/ordered.go:103-107 | The value under the typed key, or none just when it is absent |
| OrderedMaps.Ordered.Delete | artmap/ordered.go:110-114 | The typed map loses the key; the result is true just when it was present |
| OrderedMaps.Ordered.Len | artmap/ordered.go:90-93 | The number of typed keys |
| OrderedMaps.Ordered.Min | artmap/ordered.go:119-126 | The first entry in key order, or none just when the map is empty |
| OrderedMaps.Ordered.Max | artmap/ordered.go:130-137 | The last entry in key order, or none just when the map is empty |
| OrderedMaps.Ordered.Ceiling | artmap/ordered.go:141-149 | The first entry not before the target, in key order, or none |
| OrderedMaps.Ordered.Floor | artmap/ordered.go:153-161 | The last entry not after the target, in key order, or none |
| OrderedMaps.Ordered.All | artmap/ordered.go:172-181 | All typed entries in key order are offered, up to the first refusal |
| OrderedMaps.Ordered.AllDescending | artmap/ordered.go:185-194 | The same in reverse |
| OrderedMaps.Ordered.Range | artmap/ordered.go:209-224 | The typed entries from start up to and without end are yielded in key order, up to the first refusal; equal bounds yield nothing, even where both are the empty string, because an empty encoding is passed on as a bound and not as a missing one |
| OrderedMaps.Ordered.RangeFrom | artmap/ordered.go:228-239 | The same without an end |
| OrderedMaps.Ordered.RangeTo | artmap/ordered.go:243-254 | The same without a start |
| OrderedMaps.Ordered.RangeDescending | artmap/ordered.go:260-273 | The entries of Range in reverse, up to the first refusal; equal bounds yield nothing |
| OrderedMaps.Ordered.Clone | artmap/ordered.go:165-168 | A new typed map with the same contents, over objects all its own |
| OrderedMaps.ListsIsUnique | artmap/ordered.go:196-199 | The typed entries of an interval have only one listing in key order |
| OrderedMaps.ListsFromListing | artmap/ordered.go:170-181 | Decoding the tree's ascending list gives the typed list in key order |
| OrderedMaps.FeedRelayed | artmap/ordered.go:174-180 | Offering encoded entries through the decoder is offering the decoded entries |
| OrderedMaps.Ordered.PassOn | artmap/ordered.go:174-180 | The wrapper loop decodes each pair and yields it, until the consumer refuses |

## Left out

- `locked.go`: a mutex around each call; its correctness is that of `sync.RWMutex`.
- Choice of the key kind by `reflect`, reading keys through `unsafe`, and the platform's word size: a kind is a parameter, a key its bit pattern.
- The inline key buffer of a leaf (`helpers.go:5-17`): an allocation matter; a leaf's key is an immutable sequence.
- Reversed bounds and unconstructed receivers: the panics are preconditions (`requires`).
- A `yield` that changes the tree during a walk: the walks are proved for a tree that stays as it is.
- Callbacks that recurse (in the four walks) or replace a child (in `cloneNode`) are loops over the edges gathered by a callback that never refuses; callbacks that only keep a child are run as they are.
- OrderedMaps.Ordered.All: the wrapper loop yields to the outer consumer after the tree's walk, which stops where that consumer is going to refuse; in the code the two run in step.
- OrderedMaps.Ordered.AllDescending: the same.
- OrderedMaps.Ordered.Range: the same.
- OrderedMaps.Ordered.RangeFrom: the same.
- OrderedMaps.Ordered.RangeTo: the same.
- OrderedMaps.Ordered.RangeDescending: the same.
- node4 and node16 share one table class, since their code is the same over arrays of different capacity; a node's header and table are two objects instead of one struct.
- Growth and shrinking between tables go through `AddChild` where the code fills the slots itself, in the same order.
- Width of `Tree.size`: Go's `int` is unbounded here, and proved equal to the number of keys. The child counts have Go's widths, 8 and 16 bits, and never leave them.
- The tutorial chapters, benchmarks, examples and tests: no behaviour of their own.
