# Verification of mwr's hardest data structures and protocols

This project models parts of the mwr utility library in Dafny and proves what they promise.

**The interval tree** (`interval_*.dfy`). An AVL tree of closed intervals with parent links, keyed by
interval start, with the height and the hull of every subtree cached in its root. `IntervalNode.Node` is
the heap record. A ghost `Shape` says which node hangs where; `Lies` and `Plugged` say that the heap's
links and caches agree with a shape, also for a tree that is opened at a node for removal. Every
operation is a method that rewrites links in place and is proved against a function on shapes; those
functions are proved to refine operations on a plain sorted sequence and to keep the balance. A parameter
that refers to a link is passed by value and handed back as the out-parameter that the caller stores.

**The flattened device tree** (`fdt_*.dfy`), after sections 5.2, 5.4 and 5.5 of the Devicetree
Specification. `FdtStandard` states the layout of the specification on the bytes of a buffer, without the
writer or the reader. `FdtFormat.Encode` says what the code makes of a tree and `FdtParse.Decode` what it
makes of bytes; the one is proved to produce the layout (`fdt_roundtrip.dfy`) and the other to read it
(`fdt_decoding.dfy`). The classes `FdtWriter` and `FdtReader` write into an array and read from a buffer
with a moving position, and are proved to do exactly that. The reader guesses whether a value holds
strings or integers; the round-trip theorems say what the guess can and cannot lose.

**The watchdog** (`watchdog.dfy`). One mutex, a condition variable, a priority queue and a worker
thread, as a transition system with one step per critical section and a clock that may advance at any
point. Spurious wake-ups are included.

**Atomic minimum and maximum** (`atomics.dfy`). Any number of retry loops over load and
compare-and-swap on one cell, as a transition system.

**Quoting** (`quoting.dfy`). Escaping, unescaping, joining and splitting of strings.

**Checksums** (`bit_tables.dfy`, `bits.dfy`, `polynomials.dfy`, `crc.dfy`). The three cyclic redundancy
checks with their tables, bit reversal, and long division of polynomials over the field with two elements.
A message is the polynomial whose coefficients are its bits in the order of sending.

**Wide multiplication** (`muldiv.dfy`). The 128 bit product from 64 bit words.

Conventions. `MWR_ERROR` and `MWR_REPORT` become a result that says so (`Aborted`, `Raised`, `Report`,
`Overflow`). Reading and writing a 32 bit word follow the code for little-endian hosts, which is the byte
order that the specification asks for. `isprint` is the range 0x20 to 0x7e. The property name list spells
`choosen` as the code does. Sizes and counters are unbounded unless a 32 bit truncation can be seen, where
it is written out (`Low32`).

Results that say where the code does not do what one might expect: `PassingIsIntactIff`
(with `HeightIsNotChecked` and `OrderIsNotChecked`), `ZerosBecomeStrings`, `StartsInDeadlineOrder` (with
`NegativeDelayBreaksOrder`), `DeadlinesAreKeptIff` and `NewTaskMissesIff` (with `DeadlineCanBeMissed`),
`GoodSetIff`, `BadSeparatorMerges`.

## Model

| member | source | states |
|---|---|---|
| IntervalTrees.IntervalTree.constructor | include/mwr/utils/interval.h:412 | a new tree is valid and empty |
| IntervalTrees.IntervalTree.Insert | include/mwr/utils/interval.h:443-449 | an interval that ends before it starts is refused and no field of the tree or of a node changes; otherwise one fresh node with the given bounds and payload lands directly before the first node that does not start earlier, all other nodes keep identity, bounds, payload and order, and the heap tree stays linked, sorted, balanced, with true caches and size; the recursion makes at most height + 1 calls, which is at most 92 below 2^64 nodes |
| IntervalTrees.IntervalTree.Remove | include/mwr/utils/interval.h:459-468 | exactly the node of the iterator leaves the order; every other node keeps identity, bounds, payload and place (only link and cache fields are in the frame); the end iterator is refused and no field changes; validity is kept; the rebalancing walk has at most as many steps as the tree had levels, at most 91 below 2^64 nodes |
| IntervalTrees.IntervalTree.Clear | include/mwr/utils/interval.h:438-441 | the tree becomes empty and stays valid |
| IntervalTrees.IntervalTree.Empty | include/mwr/utils/interval.h:435-436 | true exactly when no interval is stored |
| IntervalTrees.IntervalTree.AnyOverlap | include/mwr/utils/interval.h:481-484 | an inverted query is refused; otherwise true exactly if some stored interval and the query have a point in common, their ends included, after at most twice the height plus one calls |
| IntervalTrees.IntervalTree.FindOverlaps | include/mwr/utils/interval.h:507-514 | exactly the stored nodes whose interval has a point in common with the query, each once |
| IntervalTrees.IntervalTree.Begin | include/mwr/utils/interval.h:407 | the first node of the order, or the end |
| IntervalTrees.IntervalTree.Next | include/mwr/utils/interval.h:382-385 | the node one place further in the order; the end stays the end |
| IntervalTrees.IntervalTree.Validate | include/mwr/utils/interval.h:516-520 | the self-check passes on every tree that the public calls can produce |
| IntervalTrees.IntervalTree.VisitAll | include/mwr/utils/interval.h:407-410 | a loop from begin to end on the heap visits the stored nodes once each, in order, with exactly size() increments |
| IntervalTrees.InsertNew | include/mwr/utils/interval.h:445-446 | allocation and insertion: the new node is not one of the old ones, the heap is that of the inserted shape, and the calls are bounded by the height |
| IntervalTrees.IvtClear | include/mwr/utils/interval.h:275-283 | the link handed back is null and so are both links of every node that was in the subtree |
| IntervalTrees.IterationVisitsAll | include/mwr/utils/interval.h:407-410 | for the order as a sequence: k successor steps from the first element reach the k-th, and as many as there are elements reach the end |
| IntervalTrees.NextAndPrevAreInverse | include/mwr/utils/interval.h:119-141 | stepping forward from n gives m exactly when stepping back from m gives n |
| IntervalShape.RebalanceKeepsOrder | include/mwr/utils/interval.h:167-220 | no rotation, single or double, moves, loses or duplicates a node of the order |
| IntervalShape.RebalanceRestoresAvl | include/mwr/utils/interval.h:199-220 | an imbalance of at most two is repaired, at the price of at most one level |
| IntervalShape.HullCovers | include/mwr/utils/interval.h:63-79 | the cached hull of a subtree covers every interval stored in it |
| IntervalShape.HullIsTight | include/mwr/utils/interval.h:63-79 | both ends of the hull are reached by stored intervals |
| IntervalPaths.ClimbKeepsOrder | include/mwr/utils/interval.h:268-272 | the rebalancing walk up to the root keeps the order |
| IntervalPaths.ClimbRestoresAvl | include/mwr/utils/interval.h:268-272 | a subtree that grew or shrank by one level leaves the whole tree balanced after the walk |
| IntervalOps.InsertLandsAtLowerBound | include/mwr/utils/interval.h:222-238 | insertion into a sorted tree refines insertion at the lower bound of the order |
| IntervalOps.InsertKeepsAvl | include/mwr/utils/interval.h:222-238 | insertion keeps the balance and adds at most one level |
| IntervalOps.RemoveDropsOne | include/mwr/utils/interval.h:240-273 | removal drops exactly the node, also when the predecessor is spliced in from deep below |
| IntervalOps.RemoveKeepsAvl | include/mwr/utils/interval.h:240-273 | removal with its walk keeps the balance |
| IntervalOps.DeleteDropsOne | include/mwr/utils/interval.h:240-273 | the same for a node anywhere in the tree, as deletion at its index |
| IntervalOps.InsertKeepsSound | include/mwr/utils/interval.h:443-449 | insertion keeps balance, order and freedom from duplicates, and adds one node |
| IntervalOps.DeleteKeepsSound | include/mwr/utils/interval.h:459-468 | removal keeps them too, and loses one node |
| IntervalOps.InsertAddsOnlyIt | include/mwr/utils/interval.h:222-238 | as a bag, the nodes are the old ones and the new one, and they stay sorted |
| IntervalOps.DeleteTakesOnlyIt | include/mwr/utils/interval.h:240-273 | as a bag, the nodes are the old ones without the removed one, and they stay sorted |
| IntervalOps.EveryRunIsSound | include/mwr/utils/interval.h:438-468 | every run of insert, remove and clear keeps them |
| IntervalOps.SizeBoundsHeight | include/mwr/utils/interval.h:199-220 | size + 1 is at least the Fibonacci number of the height + 2 |
| IntervalOps.HeightIsLogarithmic | include/mwr/utils/interval.h:222-273 | fewer than 2^64 nodes means at most 91 levels |
| IntervalPaths.PathFits | include/mwr/utils/interval.h:268-272 | a node's ancestors and the levels below it together are at most the height of the tree, so the walk from it is no longer than that |
| IntervalRemoval.SplicedLength | include/mwr/utils/interval.h:254-256 | this also holds for the place a spliced predecessor is taken from |
| IntervalOps.RunHeightIsLogarithmic | include/mwr/utils/interval.h:438-468 | both bounds hold after every run |
| IntervalHeap.RecomputedIsTrue | include/mwr/utils/interval.h:63-97 | recomputing from the children's caches gives the true height, balance and hull |
| IntervalHeap.IvtRefresh | include/mwr/utils/interval.h:151-157 | a node whose subtrees are intact becomes intact; only its cache fields are written |
| IntervalHeap.IvtTransplant | include/mwr/utils/interval.h:159-165 | the node is handed back for its new link and points at its new parent |
| IntervalHeap.IvtRotateLeft | include/mwr/utils/interval.h:167-176 | in place, the heap becomes the rotated shape with all links and caches right, below the same parent |
| IntervalHeap.IvtRotateRight | include/mwr/utils/interval.h:178-187 | the mirror image |
| IntervalHeap.IvtRotateLeftRight | include/mwr/utils/interval.h:189-192 | the double rotation on the heap |
| IntervalHeap.IvtRotateRightLeft | include/mwr/utils/interval.h:194-197 | its mirror image |
| IntervalHeap.IvtRebalance | include/mwr/utils/interval.h:199-220 | with a stale cache at the root only, the heap becomes the rebalanced shape, intact |
| IntervalHeap.IvtInsert | include/mwr/utils/interval.h:222-238 | the heap becomes the shape with the new leaf, rebalanced on the way up, below the given parent, in at most height + 1 calls |
| IntervalHeap.IvtInsertLeft | include/mwr/utils/interval.h:232-233 | the recursive call on the left link |
| IntervalHeap.IvtInsertRight | include/mwr/utils/interval.h:234-235 | the recursive call on the right link |
| IntervalWalk.RefLeadsToCut | include/mwr/utils/interval.h:143-149 | the link reference of a node is the very link that leads to it |
| IntervalWalk.StoreInCut | include/mwr/utils/interval.h:159-165 | writing through that reference puts a subtree into its place in the whole tree |
| IntervalWalk.WalkStep | include/mwr/utils/interval.h:269-271 | one step of the walk rebalances the node above and keeps everything else in place |
| IntervalWalk.WalkUp | include/mwr/utils/interval.h:268-272 | the loop ends with the whole tree rebalanced up to the root, after one step for each ancestor |
| IntervalSteps.IvtFirst | include/mwr/utils/interval.h:107-111 | the first node of the order |
| IntervalSteps.IvtLast | include/mwr/utils/interval.h:113-117 | the last node of the order |
| IntervalSteps.IvtNext | include/mwr/utils/interval.h:119-129 | the successor in the order of the whole tree, or null; the upward loop ends |
| IntervalSteps.IvtPrev | include/mwr/utils/interval.h:131-141 | the predecessor in the order of the whole tree, or null; the upward loop ends |
| IntervalRemoval.Replace | include/mwr/utils/interval.h:246-251 | a child, or nothing, takes the place of a node |
| IntervalRemoval.DetachPrev | include/mwr/utils/interval.h:255-260 | a deep predecessor is cut out and takes the left subtree |
| IntervalRemoval.TakeOver | include/mwr/utils/interval.h:262-265 | the predecessor takes the place and the right subtree of the node |
| IntervalRemoval.TakeOverAbove | include/mwr/utils/interval.h:262-265 | the same with the left spine below it kept intact |
| IntervalRemoval.SpliceDeep | include/mwr/utils/interval.h:253-265 | the splice when the predecessor hangs deep in the left subtree |
| IntervalRemoval.SpliceNear | include/mwr/utils/interval.h:253-265 | the splice when it is the left child |
| IntervalRemoval.Splice | include/mwr/utils/interval.h:253-265 | both cases: the walk starts at the right node, below it everything is intact |
| IntervalRemoval.IvtRemove | include/mwr/utils/interval.h:240-273 | the heap becomes the shape after removal, all links and caches right, with at most as many walk steps as levels |
| IntervalRemoval.RemoveStored | include/mwr/utils/interval.h:459-465 | the same, given only the node and the root |
| IntervalQueries.PrunedHasNoHits | include/mwr/utils/interval.h:289-290 | a subtree pruned on its hull holds no hit |
| IntervalNode.OverlapsMeansCommonPoint | include/mwr/utils/interval.h:24-26 | for intervals that are not inverted the comparison says exactly that they have a point in common |
| IntervalQueries.HitsShareAPoint | include/mwr/utils/interval.h:24-26 | the hits of a query are exactly the nodes that share a point with it |
| IntervalQueries.PreOrderHits | include/mwr/utils/interval.h:307-311 | visiting parents first finds the same hits, each as often, as the linear scan |
| IntervalQueries.FailedLeftPrunesRight | include/mwr/utils/interval.h:295-296 | a left search that was entered and failed rules out the right side by its hull |
| IntervalQueries.OneSideIsPruned | include/mwr/utils/interval.h:295-296 | so after a failed left search at most one side was entered |
| IntervalQueries.IvtOverlaps | include/mwr/utils/interval.h:285-297 | despite its pruning the search finds a hit exactly if there is one among all nodes below, with at most twice the height plus one calls |
| IntervalQueries.IvtForEach | include/mwr/utils/interval.h:299-312 | despite its pruning exactly the hits are visited, parents first |
| IntervalQueries.IvtValidate | include/mwr/utils/interval.h:314-332 | on any linked tree, intact or corrupted, the self-check decides its node-by-node conditions and counts the nodes |
| IntervalQueries.PassesMeans | include/mwr/utils/interval.h:314-332 | passing means that all parent links agree, all hulls are true, and the claimed heights of siblings differ by at most one |
| IntervalQueries.IntactPasses | include/mwr/utils/interval.h:314-332 | an intact balanced tree passes |
| IntervalQueries.PassingIsIntactIff | include/mwr/utils/interval.h:314-332 | a tree that passes is intact exactly when its stored heights are true, and then it is balanced; of soundness only the key order is left unchecked |
| IntervalQueries.HeightIsNotChecked | include/mwr/utils/interval.h:327-329 | a wrong stored height passes |
| IntervalQueries.OrderIsNotChecked | include/mwr/utils/interval.h:314-332 | a wrong key order passes |
| FdtBytes.Be32RoundTrip | src/mwr/utils/fdt.cpp:118-131 | reading a written word gives the word (which byte is which: `WriteWord`, `ReadU32`, `ReadWordIs`) |
| FdtBytes.FromBe32RoundTrip | src/mwr/utils/fdt.cpp:338-348 | writing a read word gives the four bytes |
| FdtFormat.NameAtOffset | src/mwr/utils/fdt.cpp:133-143 | the offset written for a name leads to a NUL-terminated copy of it in the final strings block |
| FdtFormat.TabNodeGrows | src/mwr/utils/fdt.cpp:133-143 | the string table stores distinct names once and only grows |
| FdtFormat.EncNodeAligned | src/mwr/utils/fdt.cpp:174-185 | every node takes a multiple of four bytes |
| FdtRoundTrip.ValueIs | src/mwr/utils/fdt.cpp:161-172 | the value of a property is its numbers, one word each with the most significant byte first, or its strings, each with its NUL, one after the other |
| FdtRoundTrip.PropIsStandard | src/mwr/utils/fdt.cpp:161-172 | a written property is token 3, the length of its value, an offset that leads to its name, the value, zeros up to a multiple of four |
| FdtRoundTrip.NodeIsStandard | src/mwr/utils/fdt.cpp:174-185 | a written node is token 1, its padded name, its properties, its children, token 2, in the layout of the specification |
| FdtRoundTrip.EncodeIsStandard | src/mwr/utils/fdt.cpp:187-248 | a compiled tree starts with d0 0d fe ed, its header words are the true sizes and offsets, 17 and 16, its structure block stands where the header says and ends with token 9, and all blocks are aligned |
| FdtRoundTrip.NamesAreStoredOnce | src/mwr/utils/fdt.cpp:133-143 | the strings block holds no name twice |
| FdtWriters.CompiledIsStandard | src/mwr/utils/fdt.cpp:187-248 | so does every buffer with a compiled tree at its front |
| FdtClassify.RereadKeepsBytes | src/mwr/utils/fdt.cpp:425-452 | whichever way a value is guessed, it writes back byte for byte under the same name |
| FdtClassify.RereadIsFaithful | src/mwr/utils/fdt.cpp:425-452 | a property reads back as itself exactly when name, length and bytes classify to its own kind |
| FdtClassify.KindIs | src/mwr/utils/fdt.cpp:425-452 | a value is read as numbers exactly if it is whole words and stands under a name for numbers or is no sequence of printable NUL-terminated strings; as strings exactly if it is such a sequence otherwise; and reported exactly if it is neither |
| FdtClassify.ZeroWordIs | src/mwr/utils/fdt.cpp:314-330 | a zero word is one number under reg, interrupts, interrupt-parent, interrupt-map, iommu-map, phandle and every name with cells or range in it, and four empty strings under any other name |
| FdtClassify.UnprintableMeansNumbers | src/mwr/utils/fdt.cpp:385-412 | one byte outside 0x20 to 0x7e other than NUL turns the whole value into numbers, or into a report if its length is no multiple of four |
| FdtRoundTrip.GuessIs | src/mwr/utils/fdt.cpp:375-412 | what is guessed holds all words, or all strings, of the value, in order |
| FdtParse.StringNamesDoNotMatter | src/mwr/utils/fdt.cpp:436-449 | the list of names for strings is without effect on the result |
| FdtParse.ReadCstr | src/mwr/utils/fdt.cpp:350-356 | a string read advances by the length of the string and one, inside the buffer |
| FdtDecoding.ReadCstrIff | src/mwr/utils/fdt.cpp:350-356 | a string is read exactly when NUL-free bytes with its value are followed by a NUL, right behind which the position ends |
| FdtDecoding.ReadWordIs | src/mwr/utils/fdt.cpp:338-348 | a word is read with the weights 2^24, 2^16, 2^8 and 1 for its bytes in order, and reported exactly if not all four are there |
| FdtParse.ReadPadded | src/mwr/utils/fdt.cpp:350-363 | with padding it strictly advances |
| FdtParse.ReadName | src/mwr/utils/fdt.cpp:365-373 | the jump into the strings block comes back to where it left |
| FdtParse.ReadProp | src/mwr/utils/fdt.cpp:425-452 | a property, guesses and rewinds included, strictly advances |
| FdtParse.Traverse | src/mwr/utils/fdt.cpp:414-464 | reading a node's entries never moves back, and ends on every buffer |
| FdtParse.ReadNode | src/mwr/utils/fdt.cpp:418-423 | a node strictly advances |
| FdtDecoding.ReadValueAt | src/mwr/utils/fdt.cpp:430-451 | the reader's guess on a value in the buffer depends on name, length and bytes only, and the padding is skipped |
| FdtDecoding.ReadPropIs | src/mwr/utils/fdt.cpp:425-452 | a property in the layout of the specification is read with the name that its offset leads to and the guess on its value |
| FdtDecoding.TokensBetweenEntries | src/mwr/utils/fdt.cpp:453-464 | between entries token 4 is skipped, token 2 ends the node, any word but 1 to 4 is reported |
| FdtDecoding.MillionthEntryIsTheLast | src/mwr/utils/fdt.cpp:414-416 | a node is read as if it ended behind its millionth entry |
| FdtDecoding.ReadNodeIs | src/mwr/utils/fdt.cpp:414-464 | reading a node in the layout of the specification gives its normal form, or a report exactly if some property below is unreadable |
| FdtDecoding.DecodeOfStandard | src/mwr/utils/fdt.cpp:466-490 | every blob in the layout of the specification, whoever wrote it and wherever its structure and strings blocks lie, is decompiled to its normal form, or to a report exactly if some property is unreadable |
| FdtDecoding.DecodeNeeds | src/mwr/utils/fdt.cpp:466-490 | what is decompiled has magic number, compatible version 16, a begin token at the structure offset, a readable node behind it and the end token 9 behind that |
| FdtRoundTrip.DecodeOfEncode | src/mwr/utils/fdt.cpp:466-490 | decompiling a buffer that starts with a compiled tree gives the tree's normal form, whatever follows, or a report exactly if some property is unreadable |
| FdtRoundTrip.NormalRootKeepsBytes | src/mwr/utils/fdt.cpp:239-248 | the normal form compiles to the same bytes |
| FdtRoundTrip.ByteFixpoint | src/mwr/utils/fdt.cpp:466-490 | compiling what was decompiled from a compiled tree gives the same bytes |
| FdtRoundTrip.TreeRoundTrip | src/mwr/utils/fdt.cpp:466-490 | the tree itself comes back exactly when the root is named, no other node is named "/", and every property classifies as its own kind |
| FdtRoundTrip.ZerosBecomeStrings | src/mwr/utils/fdt.cpp:444-450 | under a name that is not known to hold integers, n zero words come back as 4n empty strings |
| FdtTransfer.CompiledBufferComesBack | src/mwr/utils/fdt.cpp:542-545 | the three results for a buffer of any larger size that a tree was compiled into |
| FdtNodes.FdtNode.constructor | include/mwr/utils/fdt.h:58 | a node without properties and children |
| FdtNodes.FdtNode.AddProperty | include/mwr/utils/fdt.h:74 | the property becomes the last one |
| FdtNodes.FdtNode.AddChild | include/mwr/utils/fdt.h:94-97 | a fresh node becomes the last child |
| FdtWriters.Low32Add | src/mwr/utils/fdt.cpp:134-139 | offsets that are truncated at every addition equal the truncated sum |
| FdtWriters.PropSizeIsLength | src/mwr/utils/fdt.cpp:31-42 | the size a property records is the number of value bytes written |
| FdtWriters.PatchedHeader | src/mwr/utils/fdt.cpp:206-216 | patching the four fields turns the blank header into the final one and touches nothing else |
| FdtWriters.FdtWriter.Seek | src/mwr/utils/fdt.cpp:262-265 | offsets inside the buffer are taken, others are reported |
| FdtWriters.FdtWriter.Putc | src/mwr/utils/fdt.cpp:267-270 | one byte goes to the position, or the buffer is reported full |
| FdtWriters.FdtWriter.WriteWord | src/mwr/utils/fdt.cpp:118-131 | the four bytes in the array, weighted 2^24, 2^16, 2^8 and 1 from the old position on, are the word; reported exactly if they do not fit |
| FdtWriters.FdtWriter.WriteString | src/mwr/utils/fdt.cpp:154-159 | the string and a NUL; the length returned is the number of bytes written |
| FdtWriters.FdtWriter.Strtab | src/mwr/utils/fdt.cpp:133-143 | the offset of the name in the table, which gains the name if it is new |
| FdtWriters.FdtWriter.WritePadding | src/mwr/utils/fdt.cpp:145-152 | zeros up to the next multiple of four |
| FdtWriters.FdtWriter.WriteWords | src/mwr/utils/fdt.cpp:166-167 | all numbers of a property |
| FdtWriters.FdtWriter.WriteCstrs | src/mwr/utils/fdt.cpp:168-169 | all strings of a property |
| FdtWriters.FdtWriter.WriteData | src/mwr/utils/fdt.cpp:166-169 | the value of a property |
| FdtWriters.FdtWriter.WriteProp | src/mwr/utils/fdt.cpp:161-172 | token, size, name offset, value and padding of a property |
| FdtWriters.FdtWriter.WriteProps | src/mwr/utils/fdt.cpp:179-180 | all properties of a node, with the table threaded through |
| FdtWriters.FdtWriter.WriteHead | src/mwr/utils/fdt.cpp:176-178 | begin token and padded name, "/" written as the empty name |
| FdtWriters.FdtWriter.WriteChildren | src/mwr/utils/fdt.cpp:181-182 | all children of a node |
| FdtWriters.FdtWriter.WriteNode | src/mwr/utils/fdt.cpp:174-185 | a node with everything below it, and the length |
| FdtWriters.FdtWriter.WriteStrings | src/mwr/utils/fdt.cpp:218-233 | the padded strings block |
| FdtWriters.FdtWriter.WriteHeader | src/mwr/utils/fdt.cpp:187-204 | the header with blank fields and the empty reservation block |
| FdtWriters.FdtWriter.Patch | src/mwr/utils/fdt.cpp:208-215 | seek and overwrite one header field |
| FdtWriters.FdtWriter.FinalizeHeader | src/mwr/utils/fdt.cpp:206-216 | the four fields are overwritten |
| FdtWriters.FdtWriter.Compile | src/mwr/utils/fdt.cpp:239-248 | the buffer's front becomes the encoded tree, which starts with d0 0d fe ed and is in the layout of the specification with a true header, and the rest is untouched; reported exactly if the encoding is longer than the buffer |
| FdtWriters.FdtWriter.WriteBlob | src/mwr/utils/fdt.cpp:239-248 | the blocks in a row, and then the header fields that they decide |
| FdtReaders.FdtReader.Seek | src/mwr/utils/fdt.cpp:504-509 | moves inside the buffer and hands back the old position, else reports |
| FdtReaders.FdtReader.Getc | src/mwr/utils/fdt.cpp:511-514 | the byte at the position, or a report at the end |
| FdtReaders.FdtReader.ReadU32 | src/mwr/utils/fdt.cpp:338-348 | the word whose bytes, weighted 2^24, 2^16, 2^8 and 1, stand at the position; reported exactly if not all four are there |
| FdtReaders.FdtReader.ReadString | src/mwr/utils/fdt.cpp:350-363 | a string with or without padding; the loops end |
| FdtReaders.FdtReader.ReadStrtab | src/mwr/utils/fdt.cpp:365-373 | a name from the strings block, the position restored |
| FdtReaders.FdtReader.ReadInts | src/mwr/utils/fdt.cpp:375-383 | numbers, or declined if the length is no multiple of four |
| FdtReaders.FdtReader.ReadStrs | src/mwr/utils/fdt.cpp:385-412 | strings, or declined with the position rewound |
| FdtReaders.FdtReader.ReadPropValue | src/mwr/utils/fdt.cpp:430-450 | the guesses in the code's order, backtracking when one declines |
| FdtReaders.FdtReader.ReadProperty | src/mwr/utils/fdt.cpp:425-451 | a property |
| FdtReaders.FdtReader.TraverseInto | src/mwr/utils/fdt.cpp:414-464 | the node on the heap gains exactly the parsed entries, in order |
| FdtReaders.FdtReader.ReadChild | src/mwr/utils/fdt.cpp:418-423 | a child node, pushed and filled |
| FdtReaders.FdtReader.ReadHeader | src/mwr/utils/fdt.cpp:467-476 | magic and version are checked |
| FdtReaders.FdtReader.Decompile | src/mwr/utils/fdt.cpp:466-490 | on every buffer below 2^32 bytes the call ends, with a fresh tree on the heap that holds the parsed tree, or with a report; a blob in the layout of the specification gives the tree it stands for; without magic number and compatible version there is a report |
| FdtReaders.FdtReader.ReadBlob | src/mwr/utils/fdt.cpp:466-490 | header, root node and end token in a row |
| Watchdog.EveryRunKeepsInv | include/mwr/utils/watchdog.h:81-128 | every interleaving keeps: each scheduled task is exactly one of pending, cancelled and taken; starts follow the order of taking; nothing starts early; no wake-up of a sleeping worker is lost; what is left at exit was not due |
| Watchdog.NothingStartsEarly | include/mwr/utils/watchdog.h:110-117 | no task starts before its deadline, none starts twice, each is accounted for |
| Watchdog.EveryRunKeepsOrdered | include/mwr/utils/watchdog.h:110-117 | if every scheduled task follows, that is, is due no earlier than the last task taken, tasks are taken in the order of their deadlines |
| Watchdog.StepKeepsOrderedIff | include/mwr/utils/watchdog.h:31-36 | a step keeps the taken and pending tasks in order exactly unless it schedules a task that does not follow |
| Watchdog.OrderCanBreakIff | include/mwr/utils/watchdog.h:110-127 | the worker alone can still start tasks against their deadlines exactly when the taken and pending tasks are out of order |
| Watchdog.StartsInDeadlineOrder | include/mwr/utils/watchdog.h:31-36 | over a whole run: if all tasks follow, the deadlines of started tasks never decrease, draining included; exactly if one does not, there is a point from which the worker alone can break the order; without negative delays all tasks follow |
| Watchdog.NegativeDelayBreaksOrder | include/mwr/utils/watchdog.h:31-36 | a run with a negative delay that starts two tasks against their deadlines |
| Watchdog.CancelledNeverStarts | include/mwr/utils/watchdog.h:38-43 | what is pending at a cancellation never starts |
| Watchdog.WorkerCanMove | include/mwr/utils/watchdog.h:81-128 | the worker always has a step to take unless it waits for the clock or sleeps unnotified (that its steps lead somewhere: `DueTasksStart`, `ProgressIsPossible`) |
| Watchdog.DueTaskStarts | include/mwr/utils/watchdog.h:110-127 | a task that is due, and in the queue or just taken off it, has started in every continuation without further calls once the worker has made a number of steps, re-checks during a timed wait not counted, that is fixed by the queue and its place |
| Watchdog.DueTasksStart | include/mwr/utils/watchdog.h:110-127 | after every run: three such steps for each pending task and three more start every task that is due by then |
| Watchdog.ProgressIsPossible | include/mwr/utils/watchdog.h:81-128 | unless it pauses the worker has such a step to take, or goes back to a timed wait because nothing is overdue |
| Watchdog.DestructorEnds | include/mwr/utils/watchdog.h:55-61 | from every state the request to terminate can be followed by a bounded run without further calls to the exit, and leaves the queue as it is |
| Watchdog.WorkIsBounded | include/mwr/utils/watchdog.h:55-61 | after a request to terminate and without further calls the worker does at most a number of steps fixed by the queue and its place |
| Watchdog.JoinEnds | include/mwr/utils/watchdog.h:55-61 | it then exits, and all it may still wait for is the end of a spin |
| Watchdog.WillMissIff | include/mwr/utils/watchdog.h:97-108 | without further calls a task can become late by a given amount while the worker pauses exactly when a spin or timed wait is under way that lasts longer than that, and no notification will end it |
| Watchdog.StepKeepsPromptIff | include/mwr/utils/watchdog.h:97-108 | that the worker looks at the queue no later than at the earliest deadline is ended by exactly the calls that ask for less time than a pause under way lasts |
| Watchdog.PromptMissesNothing | include/mwr/utils/watchdog.h:97-108 | while that holds the worker never pauses past a deadline |
| Watchdog.NewTaskMissesIff | include/mwr/utils/watchdog.h:31-36 | scheduled during such a pause, a task can become that late exactly if its deadline plus the lateness lies before the end of the pause and, in a timed wait, it is not overdue already and no termination is requested |
| Watchdog.DeadlinesAreKeptIff | include/mwr/utils/watchdog.h:81-128 | over a whole run the worker pauses past a deadline somewhere exactly if some schedule call was urgent in the state it was made in (that it starts what is due when it does not pause: `DueTasksStart`) |
| Watchdog.SpinCostsLessThanThreshold | include/mwr/utils/watchdog.h:92-101 | without negative delays no spin makes a task late by 10 ms or more |
| Watchdog.SpinCanCostAlmostThreshold | include/mwr/utils/watchdog.h:92-101 | a run without negative delays in which a spin can make a task late by one nanosecond less than 10 ms, so the bound is tight |
| Watchdog.SpinLasts | include/mwr/utils/watchdog.h:97-101 | over every run: a spin is not left before the deadline it was started for |
| Watchdog.WaitLasts | include/mwr/utils/watchdog.h:103-107 | a timed wait is left only at its deadline, for a deadline that has passed, or for termination |
| Watchdog.MutexIsReleased | include/mwr/utils/watchdog.h:81-128 | wherever the worker holds the mutex, it gives it away after four steps at most |
| Watchdog.CallsGoThrough | include/mwr/utils/watchdog.h:31-43 | while the mutex is free every call goes through at once, and ends a sleep that it gives a reason to end |
| Watchdog.DeadlineCanBeMissed | include/mwr/utils/watchdog.h:103-107 | a run in which a task is overdue while the worker keeps waiting for a later deadline |
| Atomics.ExtremeIsExtreme | include/mwr/core/atomics.h:499-517 | the fold over arguments is their least or greatest value |
| Atomics.EveryRunKeepsInv | include/mwr/core/atomics.h:499-517 | every interleaving of calls keeps the cell at the extreme of the initial value and all finished arguments, monotone, with every failed attempt paid for by a move of the cell |
| Atomics.CellIsExtreme | include/mwr/core/atomics.h:499-517 | the cell is the initial value or the argument of a finished call, and none of these lies beyond it; every returned value is the same for the calls that finished before; and every finished call carries the argument it was made with |
| Atomics.EveryRunKeepsTraced | include/mwr/core/atomics.h:499-517 | every call, in progress or finished, works with the argument of the call that began it |
| Atomics.CellBoundsArguments | include/mwr/core/atomics.h:499-517 | over every run: no argument of a begun call that has returned lies beyond the cell, and the cell is the initial value or one of these arguments |
| Atomics.CallAlone | include/mwr/core/atomics.h:499-517 | a call that runs alone leaves the smaller, or greater, of cell and argument and returns what the cell held |
| Atomics.FailureMeansProgress | include/mwr/core/atomics.h:504-505 | a compare-and-swap fails exactly when the cell has moved strictly beyond the value loaded |
| Atomics.RetriesAreBounded | include/mwr/core/atomics.h:501-506 | failed attempts are at most the calls that finished meanwhile, and at most the distance the cell moved |
| Quoting.Escape | src/mwr/stl/strings.cpp:93-104 | one backslash per occurrence in the scanned set before each character |
| Quoting.Unescape | src/mwr/stl/strings.cpp:106-117 | a backslash is dropped exactly before a character of the set |
| Quoting.Split | src/mwr/stl/strings.cpp:145-169 | the loop yields the tokens that `SplitLaw` describes |
| Quoting.SplitLaw | src/mwr/stl/strings.cpp:145-169 | a separator ends a token exactly if no backslash stands for it and an even number of unescaped quotes stands before it; without such a separator the only token is the text without its quotes and escaping backslashes |
| Quoting.QuotedIsOneToken | src/mwr/stl/strings.cpp:152-158 | plain text with a part in quotes is one token without the quotes, even if the separator stands between them |
| Quoting.PlainInFront | src/mwr/stl/strings.cpp:106-117 | text without backslashes is unescaped to itself, whatever follows |
| Quoting.BackslashRule | src/mwr/stl/strings.cpp:106-117 | a backslash is dropped exactly before a backslash, a quote or one of the given characters, which stays |
| Quoting.Join | include/mwr/stl/strings.h:49-60 | the strings with the separator between them |
| Quoting.JoinPlaces | include/mwr/stl/strings.h:49-60 | each string stands behind the ones before it and as many separators, and the length is the sum of all |
| Quoting.ExtraSlashesStay | src/mwr/stl/strings.cpp:93-117 | unescaping an escaped string never shortens it, and lengthens it once a character got two backslashes |
| Quoting.UnescapeUndoesEscapeIff | src/mwr/stl/strings.cpp:93-117 | unescape undoes escape on a string exactly when none of its characters stands twice in the scanned set |
| Quoting.GoodSetIff | src/mwr/stl/strings.cpp:93-117 | a set of one's own is good for all strings exactly when it has no duplicates, backslash or quotes |
| Quoting.SplitReadsEscaped | src/mwr/stl/strings.cpp:145-169 | split reads an escaped string as it was, whatever characters it has |
| Quoting.SplitUndoesJoin | src/mwr/stl/strings.cpp:145-169 | splitting the join of escaped strings gives the list without its empty strings |
| Quoting.NonEmptyKeepsIff | src/mwr/stl/strings.cpp:155-157 | which is the list itself exactly when it has none |
| Quoting.BadSeparatorMerges | src/mwr/stl/strings.cpp:150-153 | with a backslash or quote as separator two strings come back as one |
| Quoting.GoodSeparatorIff | src/mwr/stl/strings.cpp:145-169 | escape, join and split carry all lists of non-empty strings exactly for the other separators |
| BitTables.BitrevTableIsMirror | src/mwr/core/bitops.cpp:15-39 | every entry of the table is its index with the bits in the opposite order |
| BitTables.Crc7TableIsSteps | src/mwr/core/bitops.cpp:41-64 | every entry is what eight register steps make of its index |
| BitTables.Crc16TableIsSteps | src/mwr/core/bitops.cpp:72-102 | every entry is what eight register steps make of its index in the upper byte |
| WordBits.Bitrev8Reverses | include/mwr/core/bitops.h:221-223 | the list of bits is reversed |
| WordBits.Bitrev16Reverses | include/mwr/core/bitops.h:225-227 | the list of bits is reversed |
| WordBits.Bitrev32Reverses | include/mwr/core/bitops.h:229-231 | the list of bits is reversed |
| WordBits.BitrevTwice | include/mwr/core/bitops.h:221-231 | reversing twice is no change |
| Polynomials.RegisterHoldsRemainder | include/mwr/core/bitops.h:386-396 | a shift register fed with a message holds the remainder of dividing start value and message, with zeros appended, by the generator |
| Polynomials.RemainderIsUnique | include/mwr/core/bitops.h:386-396 | quotient and remainder of a division by a generator are determined |
| Crc.Crc7 | src/mwr/core/bitops.cpp:66-70 | the loop computes the table-driven fold of the buffer |
| Crc.Crc16 | src/mwr/core/bitops.cpp:104-108 | the loop computes the table-driven fold of the buffer |
| Crc.Crc32 | src/mwr/core/bitops.cpp:111-123 | the two loops compute the bit-serial fold of the buffer, lowest bit of each byte first |
| Crc.Crc7Byte | src/mwr/core/bitops.cpp:66-70 | the table step feeds the eight bits of the byte to the division |
| Crc.Crc16Byte | src/mwr/core/bitops.cpp:104-108 | the table step feeds the eight bits of the byte to the division |
| Crc.Crc32Byte | src/mwr/core/bitops.cpp:114-119 | the inner loop feeds the eight bits of the byte, lowest first |
| Crc.Crc7IsTheRemainder | src/mwr/core/bitops.cpp:66-70 | for every buffer and start value the result is the one remainder of polynomial division by x (x^7 + x^3 + 1) |
| Crc.Crc7UpperSevenBits | include/mwr/core/bitops.h:386-388 | started even, the result is even and its upper seven bits are the check by x^7 + x^3 + 1 |
| Crc.Crc16IsTheRemainder | src/mwr/core/bitops.cpp:104-108 | for every buffer and start value the result is the one remainder of division by x^16 + x^12 + x^5 + 1 |
| Crc.Crc32IsTheRemainder | src/mwr/core/bitops.cpp:111-123 | for every buffer and start value the result is the one remainder of division by the 32 bit generator |
| Crc.Crc32IsMirrored | src/mwr/core/bitops.cpp:111-123 | the result is the bit reversal of the reflected check with 0xedb88320, started from the reversed start value |
| Crc.Crc7Chains | src/mwr/core/bitops.cpp:66-70 | the check of two buffers in a row is the check of their concatenation |
| Crc.Crc16Chains | src/mwr/core/bitops.cpp:104-108 | the check of two buffers in a row is the check of their concatenation |
| Crc.Crc32Chains | src/mwr/core/bitops.cpp:111-123 | the check of two buffers in a row is the check of their concatenation |
| Crc.Crc7OfCommandZero | test/core/bitops.cpp:271-276 | the five bytes of command 0 give 0x4a in the upper seven bits |
| Crc.Crc16OfDigits | src/mwr/core/bitops.cpp:104-108 | the nine digits give the check value 0x31c3 |
| Crc.Crc32OfDigits | test/core/bitops.cpp:285-287 | the nine digits give 0x9b63d02c |
| MulDiv.Umul64Slow | include/mwr/core/muldiv.h:20-38 | the two words are the exact product, and no intermediate sum leaves 64 bits |
| MulDiv.Imul64Slow | include/mwr/core/muldiv.h:50-62 | the two words are the exact signed product for every combination of signs |
| MulDiv.SignedUpperWord | include/mwr/core/muldiv.h:54-57 | subtracting the operands corrects the unsigned upper word to the signed one |

## Left out

- IntervalTree.Clear: removed nodes become unreachable; `delete`, destructors, move construction and allocator behaviour are not modelled.
- IntervalTree.Insert: the payload is an abstract type that is stored and never looked at; the two overloads for copied and moved payloads are one method. Likewise the const and non-const forms of remove, iteration and queries are one method each.
- IntervalTree.VisitAll: the loop is that of a caller, as a range-based for would write it.
- IntervalTree.FindOverlaps: `for_each` with a callback is modelled as the sequence of nodes visited; a callback that changes the tree meanwhile is not.
- IntervalTree.Next: an iterator is the node it points at; iterators to removed nodes are excluded by the precondition, as the code's callers must.
- DecodeOfEncode: trees whose names hold a NUL byte, nodes with a million entries or more, and blobs of 2^32 bytes or more are outside the round trip.
- DecodeOfStandard: the layout has no words of value 4 between entries; these are covered one at a time by TokensBetweenEntries, and children in front of properties, which the specification forbids, are not.
- FdtReader.constructor: buffers of 2^32 bytes or more, whose positions the code truncates, are excluded.
- FdtWriter.Compile: what is left in the buffer after a report is not described.
- FdtWriter.WriteWord: the branch for big-endian hosts, which writes the opposite byte order, is not modelled.
- FdtNode: `handle` with its static counter, `find_property`, `find_child`, `dump` and stream printing; trees come with their properties. The depth of the C++ stack is not modelled.
- File-backed compiling and decompiling of device trees.
- DeadlinesAreKeptIff: lateness is that of the pauses in the code; the time that other tasks, the scheduler of the operating system and a wake-up take is not modelled, nor are exceptions thrown by tasks.
- DueTasksStart: that a bounded number of the worker's steps starts a due task is shown, and that such a step can be taken, not that a fair scheduler takes it, nor how many calls other threads make meanwhile. JoinEnds: under the same proviso.
- SplitLaw: a separator that is itself a quote or a backslash is covered by GoodSeparatorIff only.
- Atomics: values are integers, so types without a total order (NaN) are not covered; load and compare-and-swap are single steps, and memory ordering, inline assembly and 128 bit operands are not modelled.
- Quoting: characters are compared as they are, without encodings; the `split` overload with a predicate and `replace` are left out.
- Crc: buffers are arrays read from their start; pointer arithmetic is an index.
- Bitrev: the 64 bit overload, which no checksum uses.
- MulDiv: `umul64` and `imul64` with a compiler's 128 bit type, and the 128 bit divisions.
- Sockets, asynchronous I/O, subprocesses, terminals, ELF, ihex, srec and uimage readers, saturating arithmetic, options, loggers and publishers.
