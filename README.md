# NBT deserializer: node pipeline and NBT binding

This project models the compile-time serializer pipeline of
`na::serializer` and its binding for Minecraft's NBT (Named Binary Tag)
format, together with the run-time `deserialize` that the pipeline drives.

**The generic pipeline** (`na_serializer.hpp`) works on a tree of nodes.
- A node is a root type plus a path of child indices.
- A serializer supplies each node's static facts:
  - whether it is primitive (handled as one unit) or composite (handled
    through its children);
  - for each of its three zones (prepend = header, payload, postpend =
    footer), the minimal size and whether that size is fixed;
  - whether the payload's bytes can be copied as they are.
- From these facts the pipeline derives each node's minimal sizes and its
  absolute minimal byte offsets.
- It also builds an ordered list of serialize steps in three stages:
  - **generate**: a depth-first walk;
  - **compact**: merge adjacent raw-copy steps;
  - **expand**: fold a payload step and its node's own header and footer
    steps into one `all` step.
- `deserialize` checks that the buffer holds the root's minimal size. The
  bytes beyond that minimum are the `reversed` budget for variable-length
  parts.
- It then runs the steps in order and stops at the first failure. A running
  `offset` counts the extra bytes consumed so far.

**The NBT binding** (`na_serializer_nbt.hpp`) supplies those facts for the
C++ types of an NBT schema:
- a type id per type;
- the simple/complex split, which decides which nodes are primitive;
- header sizes, made of the tag byte, the name length, the name, and list or
  array metadata;
- payload and footer sizes;
- the fixed-size and memory-compatible flags;
- type lookup along a path, including type guides;
- the leaf decoder `deserialize_all`. It reads scalars through `endian_get`,
  and it reads length-prefixed strings, which consume budget.

Modules, in dependency order:

| file | module | what it holds |
|---|---|---|
| wrappers.dfy | Wrappers | `Option` |
| paths.dfy | Paths | `node_index`, `node_path` operations, `path_last`, the parent path |
| nodes.dfy | Nodes | node facts, the node tree, minimal sizes and minimal offsets |
| steps.dfy | Steps | the `Step` datatype; the generate, compact and expand stages, each as a function on sequences, with a reference definition of expand |
| layout.dfy | Layout | the byte ranges steps stand for: the step list covers the root's minimal extent exactly |
| nbt_tags.dfy | NbtTags | NBT types, type ids, simple/complex classification, `size`, type lookup with guides |
| nbt_node.dfy | NbtNode | the binding's size and flag tables, the node tree of a schema, the minimal size checked against the NBT format |
| byte_order.dfy | ByteOrder | `endian_get` as a byte reversal, with the numbers bytes denote |
| nbt_values.dfy | NbtValues | the C++ object as a value, `payload_reference`, raw memory, `payload_extra_size` |
| nbt_decode.dfy | NbtDecode | `deserialize_all` as a specification function and as methods with its loops |
| deserialize.dfy | NbtDriver | `deserialize_one`, `deserialize_impl` and `deserialize` for an NBT schema, and whole-run properties |

Modelling choices:
- The host's byte order (`std::endian::native`) is a parameter.
- A compound is a sequence of (field name, field type) pairs. This stands in
  for `boost::pfr` reflection. A name is its UTF-8 bytes, so a header counts
  the name in bytes, as `get_name<…>().size()` does; only that byte count
  enters the sizes.
- The C++ object being filled in is a `Value`:
  - a scalar is its bytes in host memory order;
  - a string is a view (start and length) into the buffer;
  - arrays, lists and compounds are their elements.
- The step-running functions and methods take the object as a parameter and
  return the updated object.
- A direct copy fills the node's sub-object from the buffer bytes at
  `payload_minimal_offset + offset`. This is the evident intent of the
  `memcpy` at na_serializer.hpp:784, which names the buffer position as its
  destination (see Findings).
- `Supported` names the schemas whose decoding the source defines:
  - list elements are NBT types;
  - a simple list holds scalars or strings. It may also hold
    memory-compatible elements (arrays, lists of scalars), and only when the
    option's byte order is the host's, because only then does the source
    read them as raw memory.

## Model

| member | source | states |
|---|---|---|
| Paths.At | na_serializer.hpp:121-122 | `at<I>` is the path's I-th index |
| Paths.Append | na_serializer.hpp:124-125 | `append` keeps the path's indices in place and puts the new ones right after them |
| Paths.Prepend | na_serializer.hpp:127-128 | `prepend` puts the new indices first and shifts the path's own indices after them |
| Paths.TakeFirstN | na_serializer.hpp:130-136 | `take_first_n<k>` has length k and holds the first k indices in order |
| Paths.TakeFirstNIsPrefix | na_serializer.hpp:130-136 | `take_first_n<k>` is the prefix of length k; appending the rest of the path gives the path back |
| Paths.TakeFirstNTwice | na_serializer.hpp:130-136 | taking the first j indices of the first k is taking the first j |
| Paths.Last | na_serializer.hpp:138-139 | `path_last` is the final index |
| Paths.Parent | na_serializer.hpp:280-281 | the parent path is one index shorter |
| Paths.ParentThenLast | na_serializer.hpp:280-281 | the parent path plus the last index is the path |
| Paths.ParentOfChild | na_serializer.hpp:280-281 | the parent of `p + [i]` is `p`, and its last index is `i` |
| Nodes.ValidParent | na_serializer.hpp:280-281 | the parent of a valid node is a valid composite node that has the node among its children |
| Nodes.ValidChild | na_serializer.hpp:188-192 | `at<i>` of a composite node is a valid node, namely child i |
| Nodes.SubAppend | na_serializer.hpp:124-125 | navigating a concatenated path is navigating its two parts in turn |
| Nodes.SumTotalsMonotone | na_serializer.hpp:301-309 | partial sums of the children's totals grow with the number of siblings summed |
| Nodes.ChildOffset | na_serializer.hpp:319-379  | a child's prepend offset is the parent's prepend offset + the parent's header + the totals of all earlier siblings |
| Nodes.FirstChildOffset | na_serializer.hpp:363-379 | child 0 starts at the parent's payload offset |
| Nodes.NextSiblingOffset | na_serializer.hpp:343-379  | child i+1 starts where child i's postpend zone ends |
| Nodes.ChildExtent | na_serializer.hpp:343-379  | child i ends after the parent's header and the totals of children 0 to i |
| Nodes.LastChildEnd | na_serializer.hpp:292-347  | the last child ends where the parent's postpend zone starts |
| Nodes.ExtentWithinRoot | na_serializer.hpp:292-347 | every node's minimal extent ends within the root's total minimal size |
| Steps.RemoveAt | na_serializer.hpp:514-523 | `tuple_remove_at` is one shorter: elements before the index are unchanged, later ones shift down by one |
| Steps.ReplaceAt | na_serializer.hpp:525-534 | `tuple_replace_at` keeps the length, puts the new element at the index, and changes nothing else |
| Steps.FlattenAppend | na_serializer.hpp:552-556 | splitting copies into one-node copies distributes over concatenation |
| Steps.FlattenMerge | na_serializer.hpp:552-556 | a merged copy splits into the two copies it was made from |
| Steps.MergeFlattens | na_serializer.hpp:552-557 | one merge of two adjacent copies keeps the sequence of copied nodes |
| Steps.CompactFrom | na_serializer.hpp:543-565 | the compaction recursion, run as intended, leaves no two adjacent copies, keeps the sequence of copied nodes and steps, never lengthens the list, and keeps the prefix it has passed |
| Steps.Compact | na_serializer.hpp:536-568 | compaction leaves no adjacent copies, preserves the copied nodes in order, never lengthens the list, and leaves lists of size ≤ 1 unchanged |
| Steps.CompactFromIdentity | na_serializer.hpp:543-565 | from any position, a list with no adjacent copies is left unchanged |
| Steps.CompactIdentity | na_serializer.hpp:536-568 | compaction leaves a list with no adjacent direct copies unchanged |
| Steps.CompactAsWrittenStalls | na_serializer.hpp:550-558 | as written, the recursion at two adjacent copies stays at the same list and index forever |
| Steps.CompactMergeExample | na_serializer.hpp:536-568 | two adjacent one-node copies: the recursion as written never reaches the end; the intended compaction yields one two-node copy |
| Steps.DropPostpend | na_serializer.hpp:608-622 | dropping a node's postpend step removes exactly that leading step or nothing |
| Steps.ExpandFromIsRef | na_serializer.hpp:591-651 | the index recursion of expand equals the reference expansion of the part not yet passed |
| Steps.ExpandFromPayload | na_serializer.hpp:606-647 | one recursion step at a payload step: drop the following postpend of the node, replace by `all`, then drop the preceding prepend of the node |
| Steps.ExpandPayloadStep | na_serializer.hpp:606-647 | the payload-step case of the index recursion agrees with the reference expansion |
| Steps.ShiftKept | na_serializer.hpp:601-605 | a kept step moves from the reference expansion into the finished prefix |
| Steps.ExpandReplacesPayload | na_serializer.hpp:606-647  | a payload step with no prepend step of its node before it becomes `all` as the reference says |
| Steps.ExpandMergesPrepend | na_serializer.hpp:628-645 | a payload step right after its node's prepend step merges with it as the reference says |
| Steps.ExpandIsRef | na_serializer.hpp:570-653 | expand, as the source writes it, equals the left-to-right reference definition on every list |
| Steps.ExpandRefShape | na_serializer.hpp:570-653 | no payload step survives expansion, and the list never grows |
| Steps.ExpandRefOrigin | na_serializer.hpp:570-653 | every expanded step is either an unchanged non-payload input step or the `all` step of a node that had a payload step |
| Steps.ExpandRefKeeps | na_serializer.hpp:570-653 | every input step survives, except payload steps, which become `all` of the same node, and the prepend/postpend steps of a node with a payload step |
| Steps.ExpandRefIdentity | na_serializer.hpp:570-653 | a list without payload steps is unchanged by expansion |
| Steps.ExpandCollapses | na_serializer.hpp:573-651 | `[payload]` becomes `[all]`; prepend, payload, postpend of one node become one `all` |
| Steps.GenerateSingleCopies | na_serializer.hpp:478-512 | generation emits only one-node direct copies |
| Steps.GenerateChildrenSingleCopies | na_serializer.hpp:670-675 | the children's concatenated step lists hold only one-node copies |
| Steps.StepListHasNoPayload | na_serializer.hpp:655-666  | the final step list has no plain payload step (which the driver rejects statically) and is no longer than the generated list |
| Layout.TilesAppend | na_serializer.hpp:510-511 | concatenating two covers of adjacent ranges covers their union |
| Layout.TilesSplit | na_serializer.hpp:510-511 | a cover splits into covers of two adjacent ranges |
| Layout.PrependStepsTile | na_serializer.hpp:481-487  | a node's prepend steps cover its header zone exactly |
| Layout.PostpendStepsTile | na_serializer.hpp:488-494  | a node's postpend steps cover its footer zone exactly |
| Layout.PrimitivePayloadStepsTile | na_serializer.hpp:496-505 | a primitive's payload step, or its one-node copy of length `payload_minimal_size`, covers its payload zone exactly |
| Layout.GenerateTiles | na_serializer.hpp:478-512 | the steps generated for a node cover its whole minimal extent in order, without gap or overlap |
| Layout.ChildSpan | na_serializer.hpp:363-379 | child k-1 spans from its elder siblings' end to its own end, inside the parent's payload |
| Layout.GenerateChildrenTiles | na_serializer.hpp:670-675 | the first k children's steps cover the parent's payload up to child k-1's end |
| Layout.ContiguousEnd | na_serializer.hpp:440-456 | a copy of contiguous payloads ends where its last node's payload ends |
| Layout.MergeStep | na_serializer.hpp:552-556 | merging two adjacent contiguous copies gives one contiguous copy of the same byte range |
| Layout.MergeTiles | na_serializer.hpp:552-557 | one merge keeps the cover |
| Layout.MergeKeeps | na_serializer.hpp:552-557 | one merge keeps the cover and the conditions for carrying on at the same index |
| Layout.CompactFromTiles | na_serializer.hpp:543-565 | the compaction recursion keeps the cover |
| Layout.CompactTiles | na_serializer.hpp:536-568 | compaction keeps the cover |
| Layout.StepListTiles | na_serializer.hpp:655-666 | the generated and the compacted lists cover `[0, total_minimal_size)` exactly, so every direct copy reads one contiguous range whose size is its `length` |
| Layout.TilesStepOk | na_serializer.hpp:655-666 | every step of a cover names nodes of the tree |
| Layout.GenerateCopiesCompatible | na_serializer.hpp:496-505 | generation emits a direct copy only for one memory-compatible node |
| Layout.GenerateChildrenCopiesCompatible | na_serializer.hpp:670-675 | the same holds for the children's concatenated lists |
| NbtTags.TypeId | na_serializer_nbt.hpp:121-176  | type ids: byte 1, short 2, int 3, long 4, float 5, double 6, byte array 7, string 8, list 9, compound 10, int array 11, long array 12, and 255 exactly for an unrecognised type |
| NbtTags.TypeIdDecidesKind | na_serializer_nbt.hpp:121-176 | two types with the same id are of the same kind |
| NbtTags.ScalarWidth | na_serializer_nbt.hpp:63-68 | `sizeof` of a scalar: 1 exactly for byte, 2 exactly for short, 4 exactly for int and float, 8 exactly for long and double |
| NbtTags.ArrayElement | na_serializer_nbt.hpp:70-83 | a byte array holds bytes, an int array ints, a long array longs |
| NbtTags.Classification | na_serializer_nbt.hpp:180-209 | simple implies NBT; complex is exactly compound or list of complex; a list is complex iff its element is; exactly one of simple, complex or unrecognised holds |
| NbtTags.Size | na_serializer_nbt.hpp:296-310 | `size` is the field count of a compound, the length N of a complex list, 0 for simple and unrecognised types, and nonzero only for complex types |
| NbtTags.ChildTag | na_serializer_nbt.hpp:264-276 | a child's type is a strict part of its parent's |
| NbtTags.Unguided | na_serializer.hpp:83-97 | an unguided path carries the same indices with no guides |
| NbtTags.ResolveUnguided | na_serializer_nbt.hpp:247-288 | on plain paths `type_impl_at` finds the type the child walk finds |
| NbtTags.GuideOverrides | na_serializer_nbt.hpp:258-263 | a type guide on the last step decides the type, whatever the schema says |
| NbtTags.ResolveOutOfRange | na_serializer_nbt.hpp:264-276 | an index past a compound's fields or a list's length, or into a scalar or string, does not resolve |
| NbtTags.TypeAtIsPart | na_serializer_nbt.hpp:247-288 | the type found along a path is part of the schema |
| NbtNode.MemoryCompatibleIsFixed | na_serializer_nbt.hpp:314-360 | a memory-compatible type has the host's byte order, is simple, is fixed-size and is not a string |
| NbtNode.ForeignOrderNeverCompatible | na_serializer_nbt.hpp:321-333 | with a foreign byte order nothing is memory-compatible |
| NbtNode.Facts | na_serializer_nbt.hpp:336-452 | prepend and postpend are fixed; primitive iff simple; memory-compatible implies primitive and fixed; a primitive outside a list has a header of at least 3 bytes |
| NbtNode.BuildTree | na_serializer_nbt.hpp:290-310 | the schema's node has the binding's facts and `size` children |
| NbtNode.SubBuildTree | na_serializer_nbt.hpp:247-288 | the tree has a node exactly where the type lookup succeeds, and it is the node built for that type and position |
| NbtNode.PayloadSizeBound | na_serializer_nbt.hpp:406-429 | a primitive's payload minimum is the binding's payload size, and a composite's is at least it |
| NbtNode.TotalIsWireSize | na_serializer_nbt.hpp:367-437 | for schemas whose simple lists hold only scalars or strings (compounds, arrays and complex lists anywhere), a node's minimal total is its NBT encoding size with empty strings |
| NbtNode.ChildrenAreWireSize | na_serializer_nbt.hpp:367-437 | the children's totals are the named tags of a compound or the elements of a list |
| NbtNode.NestedArrayListGap | na_serializer_nbt.hpp:416-429 | a simple list of arrays omits each element's 4-byte length: 9 bytes instead of the format's 13 |
| NbtNode.NestedListGap | na_serializer_nbt.hpp:425-428 | a simple list of simple lists omits each inner list's tag byte and 4-byte length: 9 bytes instead of the format's 14 |
| NbtSteps.CopiesFollowPrependsAppend | na_serializer.hpp:478-512 | "each copy follows a prepend step" survives concatenation |
| NbtSteps.CopiesFollowPrependsAreApart | na_serializer.hpp:550 | copies that each follow a prepend step are never adjacent |
| NbtSteps.GenerateCopiesFollowPrepends | na_serializer.hpp:478-512 | in NBT's generated lists every direct copy follows its node's prepend step |
| NbtSteps.ChildrenCopiesFollowPrepends | na_serializer.hpp:670-675 | the same holds for the children's lists |
| NbtSteps.NbtCompactIsIdentity | na_serializer.hpp:536-568  | for every NBT schema compaction changes nothing, so the step list is the expansion of the generated list |
| NbtSteps.ForeignOrderNoCopies | na_serializer_nbt.hpp:321-333 | with a foreign byte order the generated list has no direct copy |
| NbtSteps.ForeignOrderChildrenNoCopies | na_serializer_nbt.hpp:321-333 | the same holds for the children's lists |
| ByteOrder.Reverse | na_serializer_nbt.hpp:218-221 | `byteswap` keeps the length and reverses the byte order |
| ByteOrder.ReverseReverse | na_serializer_nbt.hpp:218-221 | swapping twice gives the bytes back |
| ByteOrder.EndianGet | na_serializer_nbt.hpp:211-238 | `endian_get` keeps the width |
| ByteOrder.BigEndianBound | na_serializer_nbt.hpp:63-68 | k bytes denote less than 256^k |
| ByteOrder.UnsignedBound | na_serializer_nbt.hpp:63-68 | an unsigned k-byte reading is below 256^k |
| ByteOrder.SignedRange | na_serializer_nbt.hpp:63-68 | a signed reading lies in the two's-complement range of its width |
| ByteOrder.EndianGetReadsWireOrder | na_serializer_nbt.hpp:211-238 | on any host the value `endian_get` yields is the number the wire bytes denote in the wire order, signed and unsigned |
| ByteOrder.EndianGetInvolutive | na_serializer_nbt.hpp:211-238 | `endian_get` applied twice gives the bytes back |
| ByteOrder.BigEndianSnoc | na_serializer_nbt.hpp:211-238 | appending a low byte multiplies by 256 and adds it |
| ByteOrder.ReadBigEndianExample | na_serializer_nbt.hpp:211-238  | with the default option, `00 00 01 00` reads as int 256 on any host |
| ByteOrder.ReadMinusOneExample | na_serializer_nbt.hpp:211-238 | `FF FF FF FF` reads as int -1 on any host |
| ByteOrder.ReadLittleEndianExample | na_serializer_nbt.hpp:211-238  | under the little-endian option `00 00 01 00` reads as 65536 |
| NbtValues.PayloadRefShaped | na_serializer_nbt.hpp:454-503 | on a well-shaped object `payload_reference` finds a sub-object at every path of the schema, of the type found there |
| NbtValues.WithPayloadGet | na_serializer_nbt.hpp:454-503 | after assigning through the reference, the reference yields the new sub-object |
| NbtValues.WithPayloadFrame | na_serializer_nbt.hpp:454-503 | assigning through one reference leaves every disjoint sub-object unchanged |
| NbtValues.WithPayloadShaped | na_serializer_nbt.hpp:454-503 | assigning a sub-object of the right type keeps the object well shaped |
| NbtValues.Chunk | na_serializer_nbt.hpp:534-544 | the i-th element chunk has the element width |
| NbtValues.FromMemoryShaped | na_serializer.hpp:782-785 | copying raw bytes into a memory-compatible type gives an object of that type |
| NbtValues.ExtraSizeListExample | na_serializer_nbt.hpp:594-627 | for a list of two strings of lengths 1 and 2 the source's `payload_extra_size` has no value, while the corrected one is 3 |
| NbtValues.ExtraSizeAgrees | na_serializer_nbt.hpp:594-603 | outside lists, `payload_extra_size` as written agrees with the corrected definition |
| NbtValues.FixedHasNoExtra | na_serializer_nbt.hpp:598-599 | a fixed-size payload has no extra size |
| NbtDecode.SupportedExcludes | na_serializer_nbt.hpp:562-569 | a list of arrays or of scalar lists is decodable exactly under the host's byte order; a list of string lists never is |
| NbtDecode.ReadLength | na_serializer_nbt.hpp:575-576 | a string length is an unsigned 16-bit number |
| NbtDecode.ReadLengthIsEndianGet | na_serializer_nbt.hpp:575-576 | the length is the number its two bytes denote in the wire order, and the number `endian_get` yields on any host |
| NbtDecode.ChunkOfSlice | na_serializer_nbt.hpp:538-543 | chunk i of the region is the bytes at `current_pos` after i advances |
| NbtDecode.ElementAt | na_serializer_nbt.hpp:538-543 | element i of the region's reading is the element read at `current_pos` after i advances |
| NbtDecode.ElementStep | na_serializer_nbt.hpp:538-543 | one turn of the element loop extends the elements read so far by element i of the region |
| NbtValues.ChunkStartIsProduct | na_serializer_nbt.hpp:538-543 | after i advances of w bytes `current_pos` has moved i * w bytes |
| NbtDecode.DeserializeAll | na_serializer_nbt.hpp:519-585 | `deserialize_all` with its loops computes the specification `DecodeAll` |
| NbtDecode.DeserializeSimpleList | na_serializer_nbt.hpp:545-572 | the simple-list branch computes `DecodeAll` |
| NbtDecode.ReadElementsLoop | na_serializer_nbt.hpp:534-571  | the element loop yields every element read at its own position |
| NbtDecode.ReadStringsLoop | na_serializer_nbt.hpp:549-561 | the string loop, with the 2-byte prefixes counted, computes `StringsFrom` |
| NbtDecode.DirectCopyAgrees | na_serializer.hpp:782-785 | for a memory-compatible type, decoding succeeds, keeps the offset, and gives the object whose memory is the payload's bytes |
| NbtDecode.ElementIsMemory | na_serializer_nbt.hpp:538-543 | a memory-compatible element's reading is its raw bytes |
| NbtDecode.FixedNeverFails | na_serializer_nbt.hpp:526-571  | a fixed-size or complex payload always decodes and never moves the offset |
| NbtDecode.StringDecode | na_serializer_nbt.hpp:573-583 | a string decodes iff `offset + len <= reversed`; the offset grows by `len`; on success the view is the `len` bytes after the prefix, inside the buffer; on failure the object is unchanged |
| NbtDecode.StringsFromShape | na_serializer_nbt.hpp:549-561 | the string loop keeps the list length and the elements it has passed, and writes only string views |
| NbtDecode.StringsFromResult | na_serializer_nbt.hpp:549-561 | on success the offset stays within budget; a failure overran the budget |
| NbtDecode.StringsFromViews | na_serializer_nbt.hpp:549-561 | on success every remaining element is a view inside the buffer |
| NbtDecode.StringsFromExtra | na_serializer_nbt.hpp:549-561  | on success the offset grew by exactly the strings' lengths |
| NbtDecode.DecodeAllOffset | na_serializer_nbt.hpp:519-627  | decoding keeps the object well shaped; success moves the offset by exactly the payload's extra size, within budget; failure means the budget was overrun |
| NbtDecode.StringListDecode | na_serializer_nbt.hpp:549-561 | the same, for a list of strings |
| NbtDecode.ReadElementsShaped | na_serializer_nbt.hpp:534-571  | the element readings have the array's or list's type |
| NbtDecode.TwoStringsLengths | na_serializer_nbt.hpp:549-561 | byte layout of the two-string example |
| NbtDecode.LengthOne | na_serializer_nbt.hpp:551-552 | the prefix `00 01` reads as 1 |
| NbtDecode.LengthLarge | na_serializer_nbt.hpp:551-552 | the misplaced prefix `01 61` reads as 353 |
| NbtDecode.TwoStringsExample | na_serializer_nbt.hpp:549-561 | for the list `["a","b"]` the loop as written fails, while the corrected loop gives views (10,1) and (13,1) and consumes 2 extra bytes |
| NbtDriver.SupportedAt | na_serializer_nbt.hpp:247-288 | every part of a supported schema is supported |
| NbtDriver.NodeWithin | na_serializer.hpp:292-347 | every node of the schema is in its tree, has the binding's copy flag, and has its payload within the total minimal size |
| NbtDriver.SchemaTreeFits | na_serializer.hpp:292-347 | the schema's tree holds every node of the schema, each payload within the total minimal size |
| NbtDriver.PayloadFits | na_serializer_nbt.hpp:522-523 | a node's payload read at its minimal offset plus any in-budget offset lies in the buffer |
| NbtDriver.RunAllSound | na_serializer.hpp:777-780 | an `all` step keeps the object well shaped; success keeps the offset within budget and never decreases it; failure overran the budget |
| NbtDriver.RunCopy | na_serializer.hpp:782-785 | a direct copy succeeds, keeps the offset, and afterwards the node's sub-object is the object whose memory holds the payload's bytes, read at `payload_minimal_offset + offset` |
| NbtDriver.RunCopySound | na_serializer.hpp:782-785 | a direct copy keeps the object well shaped |
| NbtDriver.RunOneSound | na_serializer.hpp:748-787  | every step keeps the object well shaped; prepend, postpend and direct copy always succeed and leave the offset unchanged; an `all` step stays in budget on success and overran it on failure |
| NbtDriver.DirectCopyIsAll | na_serializer.hpp:782-785  | a direct copy of a node gives the same outcome as an `all` step on it |
| NbtDriver.StepListReady | na_serializer.hpp:655-666  | every step NBT's pipeline produces is runnable: no payload step; `all` steps name schema nodes; copies name one memory-compatible node |
| NbtDriver.DeserializeOne | na_serializer.hpp:748-787 | `deserialize_one` computes the step outcome `RunOne` |
| NbtDriver.DeserializeAllStep | na_serializer.hpp:777-780 | an `all` step computes `RunAll` |
| NbtDriver.JobFor | na_serializer.hpp:811-816 | `reversed` is the buffer length minus the total minimal size |
| NbtDriver.Deserialize | na_serializer.hpp:788-825 | the loop over the steps with early exit computes `Decode` |
| NbtDriver.RunFromSound | na_serializer.hpp:788-794 | a run keeps the object well shaped; success ends within budget; failure overran it |
| NbtDriver.ShortBufferFails | na_serializer.hpp:811-816 | a buffer shorter than the minimal size fails before any step and leaves the object as it was |
| NbtDriver.DecodeSound | na_serializer.hpp:795-825 | the result has the schema's shape; on success, minimal size + extra bytes fit in the buffer; a failure with enough bytes means the string lengths overran it |
| NbtDriver.NoStringsFixed | na_serializer_nbt.hpp:342-360 | without strings every payload is fixed-size |
| NbtDriver.StringsNotFixed | na_serializer_nbt.hpp:342-360 | a simple payload holding a string is not fixed-size, so among simple types exactly the string-free ones are fixed |
| NbtDriver.NoStringsAt | na_serializer_nbt.hpp:247-288 | parts of a string-free schema are string-free |
| NbtDriver.RunFromNoStrings | na_serializer.hpp:788-794 | over a string-free schema every step succeeds and none moves the offset |
| NbtDriver.DecodeNoStrings | na_serializer.hpp:795-825 | a string-free schema decodes from any buffer holding its minimal size and consumes no extra byte |
| NbtDriver.IntSteps | na_serializer.hpp:655-666 | an int at the root gives `[prepend, directcopy]` on a big-endian host and `[all]` otherwise; its minimal size is 7 |
| NbtDriver.IntAtRootExample | na_serializer.hpp:795-825 | `03 00 00 00 00 01 00` decodes, on either host, to an int reading 256 |
| NbtDriver.CopyDirectionExample | na_serializer.hpp:782-785 | for that input on a big-endian host, the copy as written leaves the int at 0, while the corrected copy fills in `00 00 01 00`, which reads 256 |

## Left out

- Float and double are opaque 4- and 8-byte values. Their byte swap is byte
  reversal; `bit_cast` and floating-point values are not modelled.
- The `int32` loop counters of `deserialize_all` are unbounded here. Lists
  longer than 2^31 elements are not considered.
- Serialization is not modelled. `serialize_prepend/postpend/all` are empty,
  and `prepend_extra_size`/`postpend_extra_size` always return 0.
  `payload_extra_size` is modelled only as the measure that a decode's
  offset grows by.
- `flat_size`, `flat_next_n` and `next_node` are not modelled. They are not
  used by the pipeline, and `next_node` refers to a `paths` member that
  nodes do not have.
- Step contexts (`generate_context_tuple`, `step_context_index`) are not
  modelled. They read `This::node::context` (na_serializer.hpp:687, 709, 755,
  767), a member NBT nodes lack: they declare `deserialize_context`
  (na_serializer_nbt.hpp:507), which is `no_context`. The model takes every
  context to be empty; the prepend/postpend hooks ignore it.
- `nbt_error` is a datatype only: no decoder of the binding ever sets it.
- `boost::pfr` reflection is replaced by a compound's list of named fields.
  Field names are not validated.
- `NbtTags.TypeId`, `NbtNode.Facts` (through `PostpendSize`) and
  `NbtTags.Size` assume that `any_nbt_compound` (na_serializer_nbt.hpp:119)
  is false for the `std::array`-based NBT arrays. That concept rests on
  `boost::pfr` reflection as configured in `pfr_used.hpp`, which is not part
  of this model. If an array counted as reflectable, as an aggregate does
  under implicit reflection, the compound tests that come first would take
  over: `nbt_type_id` (160, before 164-171) would give int and long arrays
  id 10 instead of 11 and 12, and `postpend_minimal_size` (433) would give
  every array a 1-byte footer, so a root int array of one element would
  take 12 bytes where the format's encoding takes 11, and every later offset
  would shift.
- `Supported` excludes two classes of simple list (`SupportedExcludes`):
  - under a foreign byte order, a list whose elements are arrays or simple
    lists: `endian_get` of a non-scalar hits the `static_assert` at
    na_serializer_nbt.hpp:235 and does not compile;
  - under any byte order, a list of simple lists holding strings, such as
    `List(List(Str, 1), 1)`. Under the host's order this compiles: the
    native branch of `endian_get` (na_serializer_nbt.hpp:214-216) is a bare
    `reinterpret_cast`, so wire bytes would be read as `u8string_view`
    objects, and the cursor advances by `sizeof` of the C++ list rather than
    by its payload size. That reading has no meaning to model.
- `NbtNode.NestedArrayListGap`: the minimal size of a simple list of arrays
  leaves out each element's 4-byte length. The model keeps the source's
  sizes and states the gap rather than correcting it.
- `NbtNode.NestedListGap`: likewise, a simple list of simple lists is sized
  as N times the inner list's payload (na_serializer_nbt.hpp:425-428), which
  leaves out each inner list's element tag byte and 4-byte length. The
  model keeps these sizes too; `NbtNode.TotalIsWireSize` is stated only for
  schemas whose simple lists hold scalars or strings.
- `deserialize_prepend` and `deserialize_postpend` always succeed. Headers
  are not checked against the schema: tag bytes, names and list or array
  lengths are ignored, as in the source.
- The object is passed in and returned, not updated in place through a
  reference. Aliasing between the object and the buffer is not modelled,
  and a string view is a (start, length) pair into the buffer.
- `serialize_step_directcopy` (na_serializer.hpp:429-456) declares no
  `node` member, yet `Next::node` (617), `Last::node` (637) and
  `This::node` (784) read it. The model makes two choices here: in
  `Steps.ExpandFrom` a direct copy next to a payload step is never the
  same node's prepend or postpend step, and `NbtDriver.RunOne` runs a copy
  on its first node, `nodes[0]`.
- `NbtDriver.RunCopy` covers one-node direct copies only. For an NBT schema
  compaction never merges copies (`NbtSteps.NbtCompactIsIdentity`), so a
  multi-node copy never reaches the NBT driver.
- The generic pipeline is proved for any node tree. The driver is proved
  for the NBT binding only: other bindings are not part of this model.
- `NbtDriver.Deserialize`: the `size_t`/`ptrdiff_t` arithmetic of the
  source is not modelled. Buffer lengths and offsets are unbounded
  naturals, so the signed comparison `reversed < 0` becomes a comparison of
  the buffer length with the minimal size.

## Findings

| source | as written | input that shows it | evidently intended | confidence | as-written member | corrected member |
|---|---|---|---|---|---|---|
| na_serializer.hpp:550-558 | when two direct copies are adjacent, the compaction lambda builds the merged list but calls itself again with the unchanged list and the same index; its base case also compares with the original tuple's size | `[directcopy(a), directcopy(b)]` | re-enter with the merged list at the same index, until the index reaches the current size | high, not executed | Steps.CompactAsWrittenStalls | Steps.CompactFrom |
| na_serializer.hpp:784 | the call does not compile as written: its destination is `start + …`, a `std::byte const*`, and `This::node` names a member the direct-copy step does not declare; read as the arguments stand, `memcpy` would copy from the object into the buffer, and the object would not be filled in | an int at the root, `03 00 00 00 00 01 00`, big-endian host | copy the payload's bytes from the buffer into the node's sub-object | high, not executed | NbtDriver.CopyDirectionExample | NbtDriver.RunCopy |
| na_serializer_nbt.hpp:549-561 | every string of a list reads its length at `start + minimal_offset + offset`, ignoring the 2-byte prefixes of the strings before it | the list `["a","b"]` at the root: `09 00 00 08 00 00 00 02 00 01 61 00 01 62` | element i's length is read at `minimal_offset + offset + 2*i` | high, not executed | NbtDecode.TwoStringsExample | NbtDecode.StringsFrom, NbtDecode.StringsFromResult |
| na_serializer_nbt.hpp:609-624 | in the list branch of `payload_extra_size`, the lambda sums its elements but has no `return` | a list of two strings of lengths 1 and 2 | return the sum, 3 | high, not executed | NbtValues.ExtraSizeListExample | NbtValues.PayloadExtraSize, NbtDecode.DecodeAllOffset |
