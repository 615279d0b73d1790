# Adaptive radix tree nodes and the rate-limit table generator, in Dafny

This project models two parts of the Consul code base and proves properties
about them.

**The node layer of the adaptive radix tree** (`internal/radix/adaptive/helpers.go`).
The tree is byte-keyed. Each inner node stores a compressed prefix and one of
four child encodings:

- Node4 and Node16 keep sorted key and child arrays.
- Node48 keeps a 256-entry byte index into 48 child slots. Each index entry holds `slot + 1`, or 0 when unused.
- Node256 keeps one child slot per byte.

The model is one `Node` class with a `kind` tag and the source's arrays
(`partial`, `keys`, `children`). Its `Valid()` invariant says three things:

- the encoding is consistent;
- Node4 and Node16 keys are strictly ascending;
- the child count matches the occupied slots.

Every encoding is read through the same abstraction, `Lookup(b)`, the child
stored under byte `b`. The model covers:

- `addChild` with promotion 4→16→48→256;
- `removeChild` with demotion at 3, 12 and 37 children, and the Node4 collapse into its last child;
- `findChild`;
- the prefix comparisons;
- `minimum` and `maximum`;
- the key codec that appends the `'$'` terminator.

Each of these is proved against `Lookup`. Where the Go code replaces a node
through a `**Node` reference, the Dafny method returns the node that takes
its place.

**The post-processing step of `protoc-gen-consul-rate-limit`**
(`internal/tools/protoc-gen-consul-rate-limit/postprocess/main.go`). The
model covers:

- gathering the decoded rate-limit specs;
- sorting them by method name;
- splitting them into community (CE) and enterprise lists;
- emitting the unformatted Go source of the `rpcRateLimitSpecs` table, and of its enterprise counterpart;
- the `_ent` file name;
- `run`'s decision about which files to write.

Modules:

| file | module | contents |
|---|---|---|
| bytes.dfy | `Bytes` | bytes, `bytes.Compare`, small set facts |
| codec.dfy | `Codec` | `getTreeKey` / `getKey` |
| art_node.dfy | `ArtNode` | the node class, its invariant and abstraction, allocation, leaves, `copyHeader` |
| art_search.dfy | `ArtSearch` | `findChild`, `checkPrefix`, `longestCommonPrefix` |
| art_descent.dfy | `ArtDescent` | `minimum`, `maximum`, `prefixMismatch`, and `maximum` as written |
| art_grow.dfy | `ArtGrow` | `addChild` and its four variants, promotions |
| art_shrink.dfy | `ArtShrink` | `removeChild` and its four variants, demotions, the Node4 collapse |
| postprocess.dfy | `Postprocess` | the rate-limit table generator |

## Model

| member | source | states |
|---|---|---|
| Codec.GetTreeKey | internal/radix/adaptive/helpers.go:395-401 | the tree key is one byte longer than the key, begins with the key and ends with the `'$'` terminator |
| Codec.GetKey | internal/radix/adaptive/helpers.go:403-411 | an empty tree key gives an empty key; otherwise the result is the tree key without its last byte |
| Codec.RoundTrip | internal/radix/adaptive/helpers.go:395-411 | `getKey(getTreeKey(k)) == k` for every key |
| Codec.NoTreeKeyIsProperPrefix | internal/radix/adaptive/helpers.go:395-401 | for keys without `'$'`, a tree key that is a prefix of another tree key comes from the same key, so no leaf key is a proper prefix of another |
| Codec.TerminatorInsideKey | internal/radix/adaptive/helpers.go:399 | `'$'` is an ordinary byte: the tree key of `a` is a proper prefix of the tree key of `a$b` |
| Bytes.Compare | internal/radix/adaptive/helpers.go:28 | `bytes.Compare` yields -1, 0 or 1, and 0 exactly for equal byte strings |
| Bytes.CompareAtFirstDifference | internal/radix/adaptive/helpers.go:28 | two byte strings that agree below position `d` and differ at `d` are ordered by their bytes at `d`: the one with the smaller byte compares below the other (the lexicographic order of `bytes.Compare`) |
| Bytes.CompareAntisymmetric | internal/radix/adaptive/helpers.go:28 | swapping the operands of `bytes.Compare` negates the result |
| ArtNode.Node.Alloc | internal/radix/adaptive/helpers.go:49-68 | a fresh node of the requested kind has no children, a zeroed prefix buffer of `maxPrefixLen` bytes with `partialLen == maxPrefixLen`, all key and child slots empty, and is valid |
| ArtNode.MakeLeaf | internal/radix/adaptive/helpers.go:31-47 | a fresh valid leaf that holds exactly the given key and value |
| ArtNode.LeafMatches | internal/radix/adaptive/helpers.go:22-29 | the result is -1, 0 or 1, and 0 exactly when the lengths agree and the stored key equals the search key |
| ArtNode.CopyHeader | internal/radix/adaptive/helpers.go:206-212 | the destination gets the source's child count, prefix length and stored prefix bytes; its buffer beyond `min(maxPrefixLen, partialLen)` is untouched |
| ArtNode.CopyPrefix | internal/radix/adaptive/helpers.go:126-127 | Go's `copy(dst, src[:count])`: the first `count` elements of the destination become the source's, and every later element keeps its value |
| ArtNode.NonZeroSet | internal/radix/adaptive/helpers.go:172-173 | setting an unused index entry to a non-zero value adds exactly that byte to the used entries, so their count grows by one |
| ArtNode.IndexOf | internal/radix/adaptive/helpers.go:351-355 | the first position of a byte in the used keys, or their length when the byte is absent |
| ArtNode.Node.Lookup | internal/radix/adaptive/helpers.go:347-393 | for Node4 and Node16 a byte has a child exactly when it is among the first `numChildren` keys, and then the child is in the matching slot |
| ArtSearch.FindChild | internal/radix/adaptive/helpers.go:347-393 | a slot is returned exactly when the byte has a child, and that slot holds the child; Node4/Node16 only match among the first `numChildren` keys, Node48 goes through `keys[c]-1`, Node256 through `children[c]`, and a leaf yields nothing |
| ArtSearch.TrailingZeros | internal/radix/adaptive/helpers.go:152 | the lowest set bit of a non-empty bitfield |
| ArtSearch.CheckPrefix | internal/radix/adaptive/helpers.go:11-20 | the result is at most `min(partialLen, maxPrefixLen, keyLen-depth)`; all stored prefix bytes before it match the key, and the byte at it differs when it is below that bound |
| ArtSearch.LongestCommonPrefix | internal/radix/adaptive/helpers.go:71-83 | the result is at most `min(len1, len2) - depth`; the two leaf keys agree below `depth + r` and differ at `depth + r` when r is below that bound |
| ArtDescent.MinimumLeaf | internal/radix/adaptive/helpers.go:255-294 | the leaf reached by always following the smallest occupied byte is a valid leaf of the subtree; a leaf is its own minimum |
| ArtDescent.MaximumLeaf | internal/radix/adaptive/helpers.go:297-336 | the leaf reached by always following the largest occupied byte is a valid leaf of the subtree; a leaf is its own maximum |
| ArtDescent.FirstChildSlot | internal/radix/adaptive/helpers.go:265-289 | the slot `minimum` descends into holds the child of the smallest occupied byte, for every inner kind |
| ArtDescent.LastChildSlot | internal/radix/adaptive/helpers.go:308-331 | the slot the corrected `maximum` descends into holds the child of the largest occupied byte, for every inner kind |
| ArtDescent.SortedEnds | internal/radix/adaptive/helpers.go:268-270 | in Node4/Node16 the first and last used keys are the smallest and largest occupied bytes, which is why `children[0]` and `children[numChildren-1]` are the extremes |
| ArtDescent.AscendingEnds | internal/radix/adaptive/helpers.go:268-270 | the first element of a strictly ascending key sequence is the smallest byte it holds and the last element the largest |
| ArtDescent.HasOccupied | internal/radix/adaptive/helpers.go:255-336 | an inner node with at least one child has a smallest and a largest occupied byte |
| ArtDescent.OccupiedEntries | internal/radix/adaptive/helpers.go:271-289 | a Node48 byte is occupied exactly when its index entry is non-zero, and a Node256 byte exactly when its slot is non-nil, which is what the scans test |
| ArtDescent.FirstFilled | internal/radix/adaptive/helpers.go:272-286 | the upward scan stops at the first entry that is not empty, with every entry before it empty, or at the end of the array |
| ArtDescent.LastFilled | internal/radix/adaptive/helpers.go:322-330 | the downward scan stops at the last entry that is not empty, with every entry after it empty, or at -1 |
| ArtDescent.MinimumStep | internal/radix/adaptive/helpers.go:267-289 | the child under the smallest occupied byte is valid and populated, has a strictly smaller footprint, and has the same minimum leaf as the node, which is `minimum`'s recursion step |
| ArtDescent.MaximumStep | internal/radix/adaptive/helpers.go:308-330 | the child under the largest occupied byte is non-nil, valid and populated, has a strictly smaller footprint and the same maximum leaf; above a non-Node48 node the descent meets a Node48 exactly when the child's does |
| ArtDescent.Minimum | internal/radix/adaptive/helpers.go:255-294 | nil yields nil; otherwise the result is the minimum leaf |
| ArtDescent.Maximum | internal/radix/adaptive/helpers.go:297-336 | nil yields nil; otherwise the result is the maximum leaf; the Node48 branch goes through the byte index |
| ArtDescent.PrefixMismatch | internal/radix/adaptive/helpers.go:228-252 | the first phase obeys the `checkPrefix` bound and match/mismatch conditions; when `partialLen > maxPrefixLen`, comparison continues against the minimum leaf's key up to `min(leafLen, keyLen) - depth`, with all compared bytes equal and a mismatch at the result when it is below that bound |
| ArtDescent.ScanDown | internal/radix/adaptive/helpers.go:316-319 | scanning down from a start beyond the array's end panics; otherwise the scan stops at the last non-nil slot at or below the start, or -1 |
| ArtDescent.LastChildSlotAsWritten | internal/radix/adaptive/helpers.go:308-331 | the slot `maximum` as written picks: correct for Node4, Node16 and Node256, an index-out-of-range panic for every Node48 |
| ArtDescent.LastNonNil | internal/radix/adaptive/helpers.go:323-331 | in a Node256 the last non-nil slot is the largest occupied byte |
| ArtDescent.MaximumAsWritten | internal/radix/adaptive/helpers.go:297-336 | `maximum` as written panics exactly when the descent along the largest byte meets a Node48, and otherwise returns the maximum leaf |
| ArtGrow.InsertionIndex4 | internal/radix/adaptive/helpers.go:104-109 | the insertion point: every used key before it is smaller than `c` and every one from it on is larger |
| ArtGrow.InsertionIndex16 | internal/radix/adaptive/helpers.go:136-158 | the same insertion point, found from the bitfield of keys greater than `c` masked to `numChildren` (`numChildren` when none is greater) |
| ArtGrow.LowestGreater | internal/radix/adaptive/helpers.go:147-158 | the lowest position whose key exceeds `c`, or `numChildren` when none does, is the insertion point of `c` |
| ArtGrow.ShiftUp | internal/radix/adaptive/helpers.go:112-117 | the used prefix of the array becomes the old prefix with `x` inserted at `idx`; slots after it are unchanged |
| ArtGrow.AscendingInsert | internal/radix/adaptive/helpers.go:104-119 | inserting `c` at its insertion point keeps the keys strictly ascending |
| ArtGrow.InsertAt | internal/radix/adaptive/helpers.go:111-119 | after the shift and store, the node is well formed, has one more child, `c` maps to the new child and every other byte keeps its child |
| ArtGrow.InsertedLookup | internal/radix/adaptive/helpers.go:111-119 | after `c` and `x` are inserted at one position of the sorted arrays, `c` maps to `x` and every other byte keeps its child |
| ArtGrow.AttachSorted | internal/radix/adaptive/helpers.go:111-119 | the same as `InsertAt`, keeping the whole-node invariant, kind and prefix |
| ArtGrow.TakeFootprint | internal/radix/adaptive/helpers.go:118 | taking an attachable child's footprint into the node's footprint keeps the node valid |
| ArtGrow.InsertOwned | internal/radix/adaptive/helpers.go:111-119 | the insertion on a valid node whose footprint already holds the child's keeps it valid, maps `c` to the child, keeps every other mapping and adds one child |
| ArtGrow.Copy4To16 | internal/radix/adaptive/helpers.go:122-128 | a fresh Node16 with the same keys in the same order, the same mappings, count and header |
| ArtGrow.Grow4To16 | internal/radix/adaptive/helpers.go:122-128 | the promotion 4→16 yields a valid fresh Node16 with the same mappings, count and header, and with the old node's children |
| ArtGrow.Promote4 | internal/radix/adaptive/helpers.go:121-130 | a full Node4 becomes a fresh Node16 that holds all the old mappings plus `c`, with one more child and the same header |
| ArtGrow.AddChild4 | internal/radix/adaptive/helpers.go:102-131 | below capacity the node stays in place with one more child, `c` maps to the new child and all other mappings are unchanged; at 4 children it is replaced by a fresh Node16 with the same result |
| ArtGrow.SlotOf | internal/radix/adaptive/helpers.go:172-174 | the Node48 index entry built for byte `b`: 0 exactly when `b` is not among the keys, otherwise its position plus one |
| ArtGrow.FillIndex | internal/radix/adaptive/helpers.go:172-174 | the index loop sets every byte's entry to `SlotOf` of the sorted keys, with `numChildren` non-zero entries |
| ArtGrow.FillStep | internal/radix/adaptive/helpers.go:172-173 | one step of the index loop: key `i` gets entry `i + 1`, every other entry is `SlotOf` the longer prefix, and one more entry is used |
| ArtGrow.BuildIndex48 | internal/radix/adaptive/helpers.go:171-174 | the children copied to the first slots and the index built from the sorted keys form a consistent Node48 encoding of the sorted mapping |
| ArtGrow.IndexFromSorted | internal/radix/adaptive/helpers.go:171-174 | the index built from sorted keys, with the children copied to the first slots, is a consistent Node48 encoding of the same mapping |
| ArtGrow.Index16As48 | internal/radix/adaptive/helpers.go:166-176 | a fresh Node48 whose index encodes the Node16's mapping, with the same count and header |
| ArtGrow.Grow16To48 | internal/radix/adaptive/helpers.go:166-176 | the promotion 16→48 yields a valid fresh Node48 with the same mappings, count and header |
| ArtGrow.Promote16 | internal/radix/adaptive/helpers.go:165-178 | a full Node16 becomes a fresh Node48 that holds all the old mappings plus `c` |
| ArtGrow.AddChild16 | internal/radix/adaptive/helpers.go:134-179 | below capacity the node stays in place with one more child and `c` added; at 16 children it is replaced by a fresh Node48 with the same result |
| ArtGrow.FreeSlot | internal/radix/adaptive/helpers.go:184-187 | the first nil child slot of a non-full Node48 |
| ArtGrow.Place48 | internal/radix/adaptive/helpers.go:188-190 | storing the child in a free slot and `slot+1` in the index adds `c` with one more child and keeps the encoding consistent |
| ArtGrow.Place48Index | internal/radix/adaptive/helpers.go:188-190 | pointing the free index entry of `c` at a free slot holding the child keeps the Node48 encoding consistent with one more child |
| ArtGrow.Place48Lookup | internal/radix/adaptive/helpers.go:188-190 | the same update adds exactly the mapping from `c` to the child |
| ArtGrow.Attach48 | internal/radix/adaptive/helpers.go:183-190 | a non-full Node48 stays valid, gains `c` and keeps every other mapping and its header |
| ArtGrow.Grow48To256 | internal/radix/adaptive/helpers.go:192-200 | the promotion 48→256 yields a valid fresh Node256 with the same mappings, count and header |
| ArtGrow.SpreadInto | internal/radix/adaptive/helpers.go:195-199 | the slot of every byte receives the child the Node48 index gives it, and nil when its entry is 0 |
| ArtGrow.Spread48 | internal/radix/adaptive/helpers.go:192-200 | a fresh Node256 with the Node48's mapping, count and header |
| ArtGrow.Promote48 | internal/radix/adaptive/helpers.go:191-202 | a full Node48 becomes a fresh Node256 that holds all the old mappings plus `c`, with one more child and the same header |
| ArtGrow.AddChild48 | internal/radix/adaptive/helpers.go:182-203 | below capacity the node stays in place with `c` added; at 48 children it is replaced by a fresh Node256 with the same result |
| ArtGrow.AddChild256 | internal/radix/adaptive/helpers.go:215-218 | the child count grows by one and `c` maps to the new child; nothing else changes |
| ArtGrow.AddChild | internal/radix/adaptive/helpers.go:86-99 | for every inner kind: the result is valid, `c` maps to the new child, every other mapping and the header are kept, and there is one more child; the node is kept below capacity, and at capacity it is replaced by a fresh node of the next kind |
| ArtShrink.ShiftDown | internal/radix/adaptive/helpers.go:437-438 | the array becomes the old one with slot `pos` removed and its last element repeated |
| ArtShrink.AscendingRemove | internal/radix/adaptive/helpers.go:478-479 | removing one key keeps the keys strictly ascending |
| ArtShrink.RemoveAt | internal/radix/adaptive/helpers.go:437-439 | Node4/Node16 with the slot removed: well formed, one fewer child, the removed key unmapped, every other mapping kept |
| ArtShrink.DetachSorted | internal/radix/adaptive/helpers.go:437-439 | removing slot `pos` keeps a valid Node4/Node16 valid over the same footprint, unmaps that slot's key, keeps every other mapping and the header, and leaves one fewer child |
| ArtShrink.Clear48 | internal/radix/adaptive/helpers.go:493-496 | clearing the index entry and the child slot unmaps `c`, keeps the other mappings and leaves one fewer child |
| ArtShrink.NonZeroClear | internal/radix/adaptive/helpers.go:494 | clearing a used index entry removes exactly that byte from the used entries, so their count drops by one |
| ArtShrink.Clear48Lookup | internal/radix/adaptive/helpers.go:493-495 | after the index entry of `c` and its slot are cleared, `c` has no child and every other byte keeps its own |
| ArtShrink.Clear48Index | internal/radix/adaptive/helpers.go:493-496 | the same clearing keeps the Node48 encoding consistent with one fewer child |
| ArtShrink.Detach48 | internal/radix/adaptive/helpers.go:493-496 | on a valid Node48 the clearing keeps it valid over the same footprint, unmaps `c`, keeps every other mapping and the header, and leaves one fewer child |
| ArtShrink.Clear256 | internal/radix/adaptive/helpers.go:517-518 | clearing the slot unmaps `c`, keeps the other mappings and leaves one fewer child |
| ArtShrink.NonNullClear | internal/radix/adaptive/helpers.go:517 | clearing a non-nil slot removes exactly that byte from the occupied slots, so their count drops by one |
| ArtShrink.Detach256 | internal/radix/adaptive/helpers.go:517-518 | on a valid Node256 the clearing keeps it valid over the same footprint, unmaps `c`, keeps every other mapping and the header, and leaves one fewer child |
| ArtShrink.Copy16To4 | internal/radix/adaptive/helpers.go:483-488 | a fresh Node4 with the first four keys and children: same mappings, count and header |
| ArtShrink.Shrink16To4 | internal/radix/adaptive/helpers.go:482-489 | the demotion 16→4 yields a valid fresh Node4 with the same mappings, count and header |
| ArtShrink.CollectDone | internal/radix/adaptive/helpers.go:504-512 | after scanning all 256 index entries, the collected keys and children encode exactly the Node48's mapping, with `count` entries and no nil child |
| ArtShrink.CollectSkip | internal/radix/adaptive/helpers.go:506-507 | a byte without an index entry leaves the collected keys and children as they are |
| ArtShrink.CollectTake | internal/radix/adaptive/helpers.go:506-510 | a byte with an index entry appends the byte and its child, and there is still room among the `count` entries |
| ArtShrink.PutEntry | internal/radix/adaptive/helpers.go:508-510 | the new key and child go right after the entries already stored, which keep their values |
| ArtShrink.CollectInto | internal/radix/adaptive/helpers.go:504-512 | the scan loop collects, in ascending byte order, the key and child of every used index entry |
| ArtShrink.Collect48 | internal/radix/adaptive/helpers.go:499-512 | a fresh Node16 whose keys are strictly ascending and which holds the Node48's mapping, count and header |
| ArtShrink.Shrink48To16 | internal/radix/adaptive/helpers.go:498-513 | the demotion 48→16 yields a valid fresh Node16 with ascending keys and the same mappings, count and header |
| ArtShrink.PackDone | internal/radix/adaptive/helpers.go:528-535 | after scanning all 256 slots, the packed index and slots are a consistent Node48 encoding of the same mapping |
| ArtShrink.PackSkip | internal/radix/adaptive/helpers.go:529-530 | a nil slot leaves the packed index and slots as they are |
| ArtShrink.PackTake | internal/radix/adaptive/helpers.go:529-534 | a non-nil slot goes into the next free slot, which is below 48, and its byte's index entry becomes that slot + 1 |
| ArtShrink.PackInto | internal/radix/adaptive/helpers.go:528-535 | after all 256 slots, every non-nil child has been packed in byte order and indexed |
| ArtShrink.Pack256 | internal/radix/adaptive/helpers.go:523-535 | a fresh Node48 whose index encodes the Node256's children, with the same count and header |
| ArtShrink.Shrink256To48 | internal/radix/adaptive/helpers.go:522-536 | the demotion 256→48 yields a valid fresh Node48 with the same mappings, count and header |
| ArtShrink.RemoveChild16 | internal/radix/adaptive/helpers.go:469-490 | `c` is unmapped, all other mappings and the header are kept, one fewer child; demotion to a fresh Node4 exactly when 3 children remain |
| ArtShrink.RemoveChild48 | internal/radix/adaptive/helpers.go:492-514 | `c` is unmapped, all other mappings and the header are kept, one fewer child; demotion to a fresh Node16 exactly when 12 children remain |
| ArtShrink.RemoveChild256 | internal/radix/adaptive/helpers.go:516-537 | `c` is unmapped, all other mappings and the header are kept, one fewer child; demotion to a fresh Node48 exactly when 37 children remain |
| ArtShrink.ConcatInto | internal/radix/adaptive/helpers.go:450-459 | the new prefix length is `min(parent.partialLen + child.partialLen + 1, maxPrefixLen)`, and the buffer's first bytes are the parent's stored prefix, then `keys[0]`, then the child's stored prefix, cut to that length |
| ArtShrink.ConcatPrefix | internal/radix/adaptive/helpers.go:449-463 | the child's prefix length becomes `child.partialLen + parent.partialLen + 1`, and its stored prefix is parent prefix ++ [keys[0]] ++ child prefix, cut to `maxPrefixLen` |
| ArtShrink.MergePrefix | internal/radix/adaptive/helpers.go:447-464 | the same prefix update on a valid inner child, which keeps its children and stays valid |
| ArtShrink.Collapse4 | internal/radix/adaptive/helpers.go:441-466 | a Node4 with one child is replaced by that child; a leaf child is untouched, and an inner child keeps its kind, footprint and mappings and takes the merged prefix and prefix length |
| ArtShrink.RemoveChild4 | internal/radix/adaptive/helpers.go:428-467 | `c` is unmapped and there is one fewer child. When one child is left, the node is replaced by that child. A leaf child is untouched. An inner child keeps its mappings and takes the merged prefix. Otherwise the node stays in place with its header. Every other object of the old footprint (the surviving subtrees below the children) is unchanged |
| ArtShrink.RemoveChild | internal/radix/adaptive/helpers.go:413-426 | unless a two-child Node4 collapses: `c` is unmapped, every other mapping and the header are kept, and there is one fewer child; demotion to the next smaller kind happens exactly at 3, 12 and 37 remaining children. A two-child Node4 is replaced by its other child, which keeps its kind, footprint and mappings: a leaf child is untouched, and an inner child takes the merged prefix (n's prefix, the child's key byte, then its own prefix) and the summed prefix length; every other object of the old footprint (the surviving subtrees below the children) is unchanged |
| Postprocess.HasSuffix | internal/tools/protoc-gen-consul-rate-limit/postprocess/main.go:54 | `strings.HasSuffix` |
| Postprocess.FirstIndex | internal/tools/protoc-gen-consul-rate-limit/postprocess/main.go:93 | the first position of a character, or -1 when it does not occur |
| Postprocess.LastIndex | internal/tools/protoc-gen-consul-rate-limit/postprocess/main.go:92-95 | the last position of a character, or -1 when it does not occur; the split point of `Dir` and `Base` |
| Postprocess.PathSplit | internal/tools/protoc-gen-consul-rate-limit/postprocess/main.go:92-95 | directory and base name put back together give the path, and the base name holds no `/` |
| Postprocess.EnterpriseFileName | internal/tools/protoc-gen-consul-rate-limit/postprocess/main.go:91-98 | there is a result exactly when the base name holds a `.`; without one the source's slice with index -1 panics |
| Postprocess.EnterpriseFileNameExample | internal/tools/protoc-gen-consul-rate-limit/postprocess/main.go:86-90 | `bar/baz/foo.gen.go` becomes `bar/baz/foo_ent.gen.go` |
| Postprocess.EnterpriseFileNameParts | internal/tools/protoc-gen-consul-rate-limit/postprocess/main.go:91-98 | split again, the new name has the same directory and extension, and its stem is the old stem followed by `_ent` |
| Postprocess.GoPathHasEnterpriseName | internal/tools/protoc-gen-consul-rate-limit/postprocess/main.go:54-56 | every path that passes `run`'s `.go` check has an enterprise name, so the enterprise write cannot panic |
| Postprocess.GoOperationType | internal/tools/protoc-gen-consul-rate-limit/postprocess/main.go:106-116 | succeeds exactly for the three `OPERATION_TYPE_*` names; any other type fails with the panic message |
| Postprocess.OperationTypeRoundTrip | internal/tools/protoc-gen-consul-rate-limit/postprocess/main.go:106-116 | WRITE/READ/EXEMPT map one-to-one to `rate.OperationTypeWrite/Read/Exempt`: each Go constant maps back to the type it came from |
| Postprocess.NameLessTrans | internal/tools/protoc-gen-consul-rate-limit/postprocess/main.go:141 | Go's string `<` is transitive |
| Postprocess.NameLessTotal | internal/tools/protoc-gen-consul-rate-limit/postprocess/main.go:141 | Go's string `<` is a strict total order |
| Postprocess.InsertByName | internal/tools/protoc-gen-consul-rate-limit/postprocess/main.go:140-142 | inserting into a sequence sorted by method name keeps it sorted, with one more occurrence of the spec |
| Postprocess.SortByName | internal/tools/protoc-gen-consul-rate-limit/postprocess/main.go:140-142 | the result is sorted by method name, with no later name below an earlier one, and is a permutation of the input |
| Postprocess.Select | internal/tools/protoc-gen-consul-rate-limit/postprocess/main.go:144-151 | the selected specs are exactly the input's specs with the given `Enterprise` flag |
| Postprocess.SelectStep | internal/tools/protoc-gen-consul-rate-limit/postprocess/main.go:145-151 | one more loop step appends the spec to the half its `Enterprise` flag names and leaves the other half alone |
| Postprocess.SelectPermutation | internal/tools/protoc-gen-consul-rate-limit/postprocess/main.go:144-153 | `ce` and `ent` together are a permutation of the sorted specs |
| Postprocess.SelectSorted | internal/tools/protoc-gen-consul-rate-limit/postprocess/main.go:140-151 | splitting keeps the order, so both halves of a sorted sequence are sorted |
| Postprocess.Partition | internal/tools/protoc-gen-consul-rate-limit/postprocess/main.go:144-151 | the append loop builds `ce` from the non-enterprise specs and `ent` from the enterprise specs, each in input order |
| Postprocess.CollectSpecs | internal/tools/protoc-gen-consul-rate-limit/postprocess/main.go:118-154 | `ce` and `ent` are the two halves of the concatenated decoded specs after sorting by method name |
| Postprocess.CollectedSpecs | internal/tools/protoc-gen-consul-rate-limit/postprocess/main.go:140-153 | `ce` holds only non-enterprise specs and `ent` only enterprise ones, both sorted by method name, and together they are a permutation of all decoded specs |
| Postprocess.EnterpriseSpecsPresent | internal/tools/protoc-gen-consul-rate-limit/postprocess/main.go:71-72 | `ent` is non-empty exactly when some decoded spec is an enterprise spec |
| Postprocess.EntriesAppend | internal/tools/protoc-gen-consul-rate-limit/postprocess/main.go:161-164 | the emitted lines of two spec lists concatenated are the lines of the first followed by the lines of the second |
| Postprocess.EntryAt | internal/tools/protoc-gen-consul-rate-limit/postprocess/main.go:161-164 | one line per spec, in input order: spec `i`'s line comes right after the lines of the specs before it |
| Postprocess.FirstUnknown | internal/tools/protoc-gen-consul-rate-limit/postprocess/main.go:115 | the first spec whose operation type is unknown: all specs before it are known |
| Postprocess.WriteEntries | internal/tools/protoc-gen-consul-rate-limit/postprocess/main.go:161-164 | the emission loop appends exactly the lines of all specs when every operation type is known, and otherwise stops with the panic message of the first unknown one |
| Postprocess.GenerateCE | internal/tools/protoc-gen-consul-rate-limit/postprocess/main.go:156-172 | the header, the `var rpcRateLimitSpecs = map[string]rate.OperationType{` line, one `"name": op,` line per spec and `}`; it fails exactly when some operation type is unknown |
| Postprocess.GenerateENT | internal/tools/protoc-gen-consul-rate-limit/postprocess/main.go:174-191 | the build tags, the header, `func init() {`, one `rpcRateLimitSpecs["name"] = op` line per spec and `}`; it fails exactly when some operation type is unknown |
| Postprocess.Run | internal/tools/protoc-gen-consul-rate-limit/postprocess/main.go:53-84 | A path not ending in `.go` is rejected before anything is written. Otherwise the CE table goes to the output path. The enterprise table goes to the enterprise name exactly when `ent` is non-empty and every type is known. An unknown type in `ce` stops `run` before anything is written, with the panic message of the first unknown CE spec. An unknown type only in `ent` stops `run` after the CE file is written, with the message of the first unknown enterprise spec |

## Left out

- The tree engine is not part of this model. That covers search, insert and delete recursion, the size counter and the iterators. The node operations above are what they call.
- The node structs and `maxPrefixLen` are declared in a file that is not part of this model. `MaxPrefixLen` is 10 here. The proofs rely only on it being positive.
- The integer widths of `numChildren`, `partialLen` and `keyLen` are not modelled; they are unbounded here. The Node48 index entry (`slot + 1 <= 48`) and every key byte are bytes.
- Go's `**Node` reference slots and `&child` boxing are not modelled. A method that replaces a node returns the replacement instead, so aliasing of the slot is not captured.
- The `panic("Unknown node type")` branches, `makeLeaf`'s nil check and `removeChild4`'s `children[0] == nil` check are left out, because the closed `Kind` type and the node invariant make them unreachable.
- ArtGrow.AddChild: requires that `c` is not yet a child. The source relies on its caller for this, and a duplicate key would leave two slots for one byte.
- ArtDescent.PrefixMismatch: the `if l == nil { return idx }` after `minimum` (helpers.go:239-242) is not modelled. The model requires every inner node below to be populated, so `minimum` always finds a leaf. In the source, `minimum` returns nil for an empty Node4/Node16 (helpers.go:268-270) or an empty Node256 (helpers.go:282-289), and the mismatch index of the first phase is then returned.
- ArtShrink.RemoveChild: requires that `c` has a child. `removeChild4/16` locate the slot by comparing child pointers with `*l`, and the `pos = -1` case (pointer not found) is not modelled. The model locates the slot by the byte `c`, which names the same slot in a valid node.
- ArtDescent.Minimum: requires every inner node on the descent to hold at least one child, the tree's own invariant. An empty Node48 in the source reads `keys[256]` and an empty Node4 `maximum` reads index -1; neither case is modelled.
- ArtDescent.MinimumLeaf: the Node48 branch's `idx < 48` guard is always true under the invariant and is not a separate case.
- Postprocess.CollectSpecs: globbing the input directories, reading the files and `json.Unmarshal` are not modelled. The decoded contents of the spec files are its parameter, in glob order, and their read and decode errors are not modelled.
- Postprocess.SortByName: `sort.Slice` is not stable and may order specs with equal method names in any order. The model fixes one such order. Every property proved about the partition uses only sortedness and the multiset.
- Postprocess.GenerateCE: `go/format.Source` and its error are not modelled. The generated text is the unformatted buffer.
- Postprocess.GenerateENT: the same holds for its `format.Source` call and error (main.go:186-189). The generated text is the unformatted buffer.
- Postprocess.NameLess: names and paths are Dafny strings of code points, while Go compares and indexes them byte by byte (as do `FirstIndex` and `LastIndex`). The results agree because the byte order of UTF-8 equals the order of code points and the names and paths are valid UTF-8. Byte positions are not modelled; the separators searched for are ASCII.
- Postprocess.GoOperationType: the source panics on an unknown type. Here that is a `Failure` that stops `run`, not a crash of the process.
- Postprocess.EnterpriseFileName: `filepath.Dir`, `Base` and `Join` are modelled as a split at the last `/` without path cleaning. Trailing slashes, `..` and a bare file name (where Go's `Dir` is `.`) are therefore not normalised.
- Postprocess.Run: `main`, flag parsing, the usage message, `os.WriteFile` and its errors are not modelled. The files to write are returned as values.

## Findings

| source | as written | input that shows it | evidently intended | confidence | as-written member | corrected member |
|---|---|---|---|---|---|---|
| internal/radix/adaptive/helpers.go:314-322 | `maximum`'s Node48 branch scans `node.children` down from index 255, but a Node48 has only 48 child slots (its 256-entry byte map is `keys`) | any tree whose largest-key path passes through a Node48, e.g. a Node48 holding 17 children: the first probe `children[255]` is out of range | scan `keys` down from 255 for the last non-zero entry and descend into `children[keys[idx]-1]`, as the Node48 branch of `minimum` does | not executed | ArtDescent.MaximumAsWritten | ArtDescent.Maximum |
