# Query evaluation, dictionaries and compact tables of IRKit

IRKit is an information-retrieval engine. This project models its core in Dafny and proves
what the core promises. Mathematical integers stand for scores; where the width of a machine
integer decides the outcome (the eight-bit shift of a bit pointer, the 16-bit node pointers of
the code tree, 32-bit table headers, wrapping differences) it is written out.

## Query evaluation

- `Heap` and `TopK`: the bounded accumulator of the k best results, on a real binary heap. Both
  users of the heap append an entry and pop at once; the step is proved as it is, with the heap
  order known only for the part before the append. After every run of offers the kept entries
  are k best, and the threshold never falls.
- `Postings`: posting lists, the total score of a document, and `Answer`, the accumulator after
  documents 0, 1, ... are offered with their totals. Every evaluation strategy below is proved
  to return this one answer, so they all agree.
- `Taat` (dense accumulators, plain and with block maxima that let whole blocks be skipped),
  `UnionRange` (a heap of list fronts), `Daat` (one pass over all lists per document), `Merge`
  and `Threshold` (the sorted interleaving of the lists, counting above a threshold and finding
  the threshold, which are dual).
- `Shards` (merging the answers of shards is exact), `Rescore` (global scores by one forward
  pass per term), `DocMap` (the rank tables of a document reordering, and evaluation through
  them).

## Dictionaries

- `BitMemory`, `BitStream`: bits in bytes, bit pointers and streams.
- `AlphabeticTree`, `Compact`, `HuTucker`: the order-preserving, prefix-free code tree, its byte
  layout, the serializer, and the reconstruction of the tree from leaf levels.
- `FrontCoding`, `Words`: front coding and its inverse; the order of strings, the contract of the
  radix tree of leaders, when the order of codes is the order of strings, and what a scan decides.
- `Lexicon`, and `PrefixMap` on `Blocks` and `BlockLayout`: two dictionaries of increasing words in
  front-coded blocks. Lookup by word is exact for every word, stored or not; lookup by index is its
  inverse.

## Compact tables

- `VByte`, `CompactTable`: the byte layout with header, leaders and coded blocks behaves like the
  list of values it was built from, by index and by iteration.

Memory that the program shares between objects is an object here too (`BitMemory.Memory`). Bit
pointers are offsets into it, so growing the memory leaves them in place.

## Where the code and its description differ

- `top_k_accumulator::threshold` is described as 0 until k results are kept
  (include/irkit/utils.hpp:154-159); the code starts at the type's lowest value. The model
  follows the code: `lowest` is a parameter, 0 for the quantized unsigned scores.
- `bitptr::operator+=` is described as moving by n bits (include/irkit/bitptr.hpp:176); its shift
  is a `uint8_t`, so it does so exactly when shift and n sum to at most 255
  (`BitMemory.PlusIsExact`). The prefix map moves by the length of each code it copies, so behind a
  code above 248 bits the pointer may lag. `BlockLayout` says from the words alone where it does
  (`BlockLayout.KeepsUpMeans`).
  The next word of the block is then misplaced, whatever it is (`Blocks.CodeMisplaced`); the map
  holds its words if and only if no word joins a block behind a lagging pointer
  (`PrefixMap.PrefixMap.constructor`). A word that ends its block may have a code of any length.
  What a lookup makes of a map that does not hold its words follows from the bits it reads
  (`PrefixMap.PrefixMap.IndexOf`): of two words it may find neither (`PrefixMap.LongCodeLost`).
- The code tree compares symbols as signed `char`, strings and the radix tree compare unsigned
  bytes. The orders of two words, and of their codes, agree if and only if the first difference
  does not cross the sign (`Words.OrdersAgree`, `Words.CodesOrderStrings`); `Words.SignedOrderDiffers`
  is a pair that does. No lookup depends on it.
- Documents are `int32_t` (include/irkit/index/types.hpp:88-100), and document-at-a-time evaluation
  marks the end by the largest one, 0x7FFFFFFF. Behind another document it is missed
  (`Daat.LargestDocumentMissed`); collections of at most 0x7FFFFFFF documents do not have it
  (`Daat.WithinHorizon`). Without any posting the evaluation reads behind the end of a list; the
  model has no result then.
- The variable-byte codec sizes its buffers by a bound made for another codec
  (include/irkit/coding/vbyte.hpp:51-55). The bound is a parameter here; the writes stay in the
  buffers if and only if every block has room (`CompactTable.BuildCompactTable`), which ten bytes
  a value ensure (`CompactTable.TenBytesFit`), and four bytes, about what the program takes, for
  numbers below 2 to the 28th (`CompactTable.FourBytesFit`); for two large values fewer than twelve
  bytes do not (`CompactTable.LargeValuesOverflow`).
- A block size for which count plus block size exceeds 2 to the 32nd power makes a compact table
  without blocks (`CompactTable.BlocksCover`).
- The rank tables are inverse permutations exactly when the ordering names no document twice;
  otherwise the program writes past the end of a table (`DocMap.RankDocuments`).
- `reconstruct` returns as soon as a tree is complete at level 0, also when leaves wait on the
  stack or in the list (`HuTucker.LeafLeftOver`, `HuTucker.LeafBuried`). What it returns is said for
  all levels (`HuTucker.Reconstruct`), and when leaves are left over by the sum of the levels
  (`HuTucker.OutcomeBySum`). The levels of a first-phase tree sum to one, so no leaf is ever left
  over in the codec (`HuTucker.CodecTree`).

## Model

| member | source | states |
|---|---|---|
| Heap.SiftDownRestores | include/irkit/utils.hpp:131-132 | If only the links below one entry are out of order, sinking that entry restores the heap on the whole range |
| Heap.PoppedIsHeap | include/irkit/utils.hpp:131-132 | Popping right after a bare append needs the heap order only on the part before the append: what is left is a heap |
| Heap.ReplacedTop | include/irkit/utils.hpp:127-133 | Append and pop together replace the top: the bag of entries loses the old top and gains the new entry, and the order holds |
| Heap.PushedOn | include/irkit/utils.hpp:128-129 | A push keeps the heap order and adds exactly the new entry |
| Heap.RootBelowAll | include/irkit/utils.hpp:134 | The first entry of a heap is in it and is no better than any other |
| Heap.PopHeap | include/irkit/utils.hpp:131 | The loop that pops moves the old top to the back and leaves the popped heap before it |
| Heap.MakeHeap | include/irkit/unionrange.hpp:80 | Heapifying any list yields a heap of the same entries |
| TopK.RunSummarizes | include/irkit/utils.hpp:124-138 | After any run of offers the accumulator is a heap of k best non-zero offers above `lowest`; its threshold is `lowest` until full and the weakest kept score after that |
| TopK.ThresholdNeverFalls | include/irkit/utils.hpp:134 | No offer lowers the threshold |
| TopK.TopKScoresUnique | include/irkit/utils.hpp:145-150 | Two descending choices of k best of the same entries agree in score at every rank |
| TopK.TradeKeeps | include/irkit/utils.hpp:130-133 | Exchanging the weakest kept entry for a better offer keeps a choice of k best |
| TopK.LeftOut | include/irkit/utils.hpp:116-123 | An entry that was not kept scores no more than any kept one |
| TopK.TopKOfCover | src/run_query.hpp:277-286 | If every entry left out of a part is matched by k entries of the part, the k best of the part are k best of the whole |
| TopK.CoversAdd | src/run_query.hpp:278-285 | Such parts of two collections together are such a part of both collections together |
| TopK.TopKAccumulator.Accumulate | include/irkit/utils.hpp:124-138 | One offer extends the run, and is accepted exactly when its score is not zero and above the threshold |
| TopK.TopKAccumulator.Sorted | include/irkit/utils.hpp:145-150 | The result is descending and a choice of k best of everything offered |
| Postings.ZerosAreNoOps | include/irkit/taat.hpp:123-125 | Offering any number of documents without score changes nothing |
| Postings.AnswerIsBest | include/irkit/taat.hpp:117-127 | The common answer keeps at most k documents, each under its non-zero total above `lowest`; of every other document with such a total, k documents are kept that score at least as much |
| Postings.AnswerIsDistinct | include/irkit/taat.hpp:117-127 | No document is kept twice |
| Postings.OfferNext | include/irkit/algorithm/query.hpp:117 | Offering the next scored document, jumping over documents without postings, advances the common answer |
| Taat.Accumulate | include/irkit/taat.hpp:81-87 | Every accumulator grows by its document's payloads and no other changes |
| Taat.AccumulateAll | include/irkit/taat.hpp:99-105 | Every accumulator grows by its document's total over all lists |
| Taat.TaatQuery | include/irkit/algorithm/query.hpp:132-147 | Term-at-a-time evaluation of any lists over n documents returns the common answer in descending order |
| Taat.AggregateTopK | include/irkit/taat.hpp:129-139 | Offering every accumulator returns k best accumulators |
| Taat.BlockAccumulatorVector.Assign | include/irkit/taat.hpp:50-55 | An assignment through the reference changes one value and keeps every block's maximum a bound |
| Taat.BlockAccumulatorVector.Add | include/irkit/taat.hpp:56-61 | An addition through the reference changes one value and keeps every block's maximum a bound |
| Taat.BlockAccumulatorVector.Accumulate | include/irkit/taat.hpp:81-87 | Accumulating a list through references equals accumulating it plainly |
| Taat.SkippedBlock | include/irkit/taat.hpp:148-150 | A block whose bound is below the threshold could not have changed the accumulator |
| Taat.BlockAccumulatorVector.AggregateTopK | include/irkit/taat.hpp:141-160 | Aggregation that skips blocks returns exactly what offering every accumulator returns |
| Taat.BlockTaatQuery | include/irkit/taat.hpp:99-160 | Evaluating lists through block accumulators and skipping blocks returns the common answer |
| UnionRange.FirstHeap | include/irkit/unionrange.hpp:70-81 | The first heap holds one entry for each list with a posting, with that list's first document |
| UnionRange.UnionRange.constructor | include/irkit/unionrange.hpp:97-104 | At the start the postings of all lists, each payload multiplied by the weight of its list, are ahead and the heap holds their fronts |
| UnionRange.NextHeap | include/irkit/unionrange.hpp:118-123 | Pushing the advanced front and popping, or popping alone, leaves a heap with one entry for each list that still has a posting |
| UnionRange.UnionRange.NextPosting | include/irkit/unionrange.hpp:113-125 | Yields the weighted front posting of the root's list; no posting ahead precedes it; only that list advances |
| UnionRange.UnionRange.NextDoc | include/irkit/unionrange.hpp:136-144 | Yields the first document ahead with the sum of its weighted payloads over all lists; later documents keep their mentions and totals, and the payloads ahead lose exactly what is yielded |
| UnionRange.UnionRange.DrainDocs | include/irkit/unionrange.hpp:136-144 | Until empty, every document of the union comes exactly once, in strictly increasing order, with its whole score, and the scores sum to all payloads |
| UnionRange.UnionRange.DrainPostings | include/irkit/unionrange.hpp:112-125 | Until empty, the postings come in non-decreasing document order and are, as a bag, all weighted postings |
| UnionRange.DaatUnion | include/irkit/unionrange.hpp:113-144 | Draining the union into an accumulator returns the common answer on the weighted lists |
| UnionRange.UnitWeights | include/irkit/unionrange.hpp:117 | With unit weights the weighted lists are the lists, so the answer is that of term-at-a-time evaluation |
| Merge.SettleFront | include/irkit/index/posting_list.hpp:424-428 | Swapping the advanced first range backwards lines the ranges up again and loses none |
| Merge.LineUp | include/irkit/index/posting_list.hpp:415 | Sorting by the program's order, which is not strict, lines up the ranges and loses none |
| Merge.UnionIterator.Increment | include/irkit/index/posting_list.hpp:420-430 | A step takes the first range's front posting, keeps the ranges lined up and counts one position |
| Merge.StepTakesFront | include/irkit/index/posting_list.hpp:420-432 | A step removes exactly the front posting from the totals and from the mentioned documents |
| Threshold.AccumulateWhile | include/irkit/algorithm/accumulate.hpp:43-51 | The fold over the merged postings of a document sums all its payloads and stops behind them |
| Threshold.ComputeTopK | include/irkit/threshold.hpp:64-85 | The count is the size of the set of documents that have a posting in some list and a total that reaches the threshold, for every threshold |
| Threshold.AccumulateMerged | include/irkit/threshold.hpp:112-137 | The loop over the merged lists brings an empty accumulator to the common answer |
| Threshold.ComputeThreshold | include/irkit/threshold.hpp:139-150 | The threshold of the common answer, for an accumulator of size k |
| Threshold.ThresholdIsDual | include/irkit/threshold.hpp:64-150 | The threshold is positive if and only if k documents score above zero, and then k documents reach it and fewer than k reach the next number |
| Threshold.DaatMerged | include/irkit/daat.hpp:51-76 | The group-and-accumulate loop over merged lists returns the common answer |
| Daat.Pass | include/irkit/algorithm/query.hpp:99-116 | One pass sums the current document's payloads, moves every list behind it, and finds the next document below the largest identifier and a list that has it |
| Daat.MinElement | include/irkit/algorithm/query.hpp:93-94 | The least range has a posting exactly if some range has one, and no posting precedes its front |
| Daat.VisitAll | include/irkit/algorithm/query.hpp:98-124 | The loop over documents brings an empty accumulator to the answer on all documents it can tell from the end mark |
| Daat.DaatQuery | include/irkit/algorithm/query.hpp:85-126 | There is no result exactly if all lists are empty; else it is the common answer on all documents up to the horizon (`Daat.HorizonIs`) |
| Daat.HorizonIs | include/irkit/algorithm/query.hpp:100-123 | Documents below the largest identifier are searched, and all if every posting is of the largest one |
| Daat.WithinHorizon | include/irkit/index/types.hpp:88-100 | Collections of at most 0x7FFFFFFF documents are searched whole |
| Daat.LargestDocumentMissed | include/irkit/algorithm/query.hpp:100-123 | Document 0x7FFFFFFF behind another document is missed: two documents score, one is kept |
| Shards.RunQuery | src/run_query.hpp:104-122 | Both processing types return the same list, the common answer; there is none exactly when going by documents in a shard whose lists are all empty |
| Shards.ShardAnswer | src/run_query.hpp:279-284 | A shard's result under its titles is a choice of k best among its documents |
| Shards.OfferShard | src/run_query.hpp:278-284 | Offering one more shard's results keeps the offers a part that covers all documents seen |
| Shards.RunShards | src/run_query.hpp:267-287 | There is no result exactly when going by documents and all lists of some shard are empty. Every result is a document of a shard, under the title that stands at its position in that shard and its total there, which is not zero and above `lowest`; every other such document is matched by k results. The result is k best over all documents of all shards, with the scores of an unsharded run at every rank |
| Rescore.AddTerm | src/run_query.hpp:220-233 | One forward pass with early exit adds the term's score to exactly the results its list contains |
| Rescore.Rescore | src/run_query.hpp:208-234 | Every result ends with a sum that starts at zero and gains, term after term, what the scorer of the term gives the payload of the document in its list, if the list has it; whatever the initial order and scores; the documents are kept, sorted |
| DocMap.RankDocuments | src/irk-docidmap.cpp:76-94 | The two loops succeed if and only if no two lines of the ordering name the same document; then the tables are inverse permutations, documents named by lines rank in the order of the lines, before every document that no line names, and those rank by identifier |
| DocMap.ListedLines | src/irk-docidmap.cpp:82-87 | What the first loop ranks are the documents of all lines that name one, in the order of the lines |
| DocMap.TitleListedTwice | src/irk-docidmap.cpp:82-90 | An ordering that names one document twice repeats it, so the ranks run out |
| DocMap.RankListed | src/irk-docidmap.cpp:82-87 | The first loop ranks what the lines name, line by line (`DocMap.ListedLines`), and keeps both tables consistent; it runs out of ranks only if a document is listed twice |
| DocMap.RankRest | src/irk-docidmap.cpp:91-97 | The second loop ranks the others in order; it runs out of ranks only if a document was listed twice |
| DocMap.NoRoomLeft | src/irk-docidmap.cpp:91-97 | With all ranks given and a document without one, some document holds two |
| DocMap.MappedTaat | include/irkit/taat.hpp:107-115 | Evaluation through a mapping without repeats is plain evaluation, permuted |
| DocMap.RankedTaat | include/irkit/taat.hpp:107-115 | Evaluation through the ranks of an ordering that repeats no document: every rank ends with the total of the document that has it |
| BitMemory.WithBit | include/irkit/bitptr.hpp:122-125 | The branch-free assignment sets one bit to the value and keeps the other seven (`BitMemory.BitIsDigit` says what a bit is) |
| BitMemory.WithBitIs | include/irkit/bitptr.hpp:122-128 | It is setting or clearing with the mask 1, 2, 4, ... 128 |
| BitMemory.BitIsDigit | include/irkit/bitptr.hpp:124 | Bit i of a byte is the binary digit of weight 2 to the i of the byte's value |
| BitMemory.ByteOfBits | include/irkit/bitptr.hpp:156 | Every byte of a buffer is the number its eight bits spell, lowest first |
| BitMemory.PlusIsExact | include/irkit/bitptr.hpp:177-183 | A pointer moves by exactly n bits if and only if shift plus n lies between 0 and 255 |
| BitMemory.PlusLosesPages | include/irkit/bitptr.hpp:177-183 | Moving by 256 bits does not move |
| BitMemory.AsByteIsCongruent | include/irkit/bitptr.hpp:177-183 | What the `uint8_t` drops is a multiple of 256 |
| BitMemory.Next | include/irkit/bitptr.hpp:166 | Incrementing moves by one bit |
| BitMemory.Memory.Set | include/irkit/bitptr.hpp:122-125 | Setting through a pointer changes exactly the bit at its position |
| BitMemory.Memory.Get | include/irkit/bitptr.hpp:156 | Reads the bit at the position |
| BitMemory.Memory.CopyBits | include/irkit/bitptr.hpp:215-224 | The target bits equal the source and no other bit changes |
| BitMemory.Memory.CopyRange | include/irkit/bitptr.hpp:234-244 | Every target bit receives the old bit of its origin and no other bit changes; inside an overlapping source the first bits repeat |
| BitMemory.CopiedApart | include/irkit/bitptr.hpp:234-244 | Unless the target starts inside the source, it receives the source's old bits |
| BitMemory.CopiedAhead | include/irkit/bitptr.hpp:234-244 | A target d bits ahead of the source ends up repeating itself every d bits |
| BitMemory.IntRoundTrip | include/irkit/prefixmap.hpp:121 | A non-negative `int` stored as four bytes is read back |
| BitMemory.IntBytesAre | include/irkit/prefixmap.hpp:121 | The four bytes of an `int` are its base-256 digits, lowest first |
| BitMemory.IntAtIs | include/irkit/prefixmap.hpp:184-192 | The `int` read is the signed number that four bytes spell, lowest first |
| BitStream.OutputBitStream.Write | include/irkit/bitstream.hpp:82-86 | A written bit follows the bits written before; a byte is handed out with every eighth |
| BitStream.OutputBitStream.Spelled | include/irkit/bitstream.hpp:67-75 | At any time every byte handed out is the sum of 2 to the j over its written ones |
| BitStream.OutputBitStream.Flush | include/irkit/bitstream.hpp:88-92 | Flushing pads with zeros to whole bytes, as many as the bits need rounded up; every byte is the sum of 2 to the j over its ones |
| BitStream.InputBitStream.Read | include/irkit/bitstream.hpp:47-55 | Reads the bits of the bytes in order and -1 at the end, any number of times |
| AlphabeticTree.DecodeInvertsCode | include/irkit/alphabetical_bst.hpp:186-200 | Decoding a symbol's code returns the symbol and consumes exactly the code, whatever follows |
| AlphabeticTree.CodeInvertsDecode | include/irkit/alphabetical_bst.hpp:186-200 | Whatever bits decode, the symbol is a leaf and the bits read are its code |
| AlphabeticTree.CodeKeepsOrder | include/irkit/alphabetical_bst.hpp:127-140 | The code of a smaller symbol branches off below the code of a greater one: order is kept and no code is a prefix of another |
| AlphabeticTree.CodeIsPath | include/irkit/alphabetical_bst.hpp:127-140 | A symbol's code is a path from the root to a leaf, 0 to the left and 1 to the right, and to the right exactly where the symbol is above the split; a symbol of the tree is the leaf |
| AlphabeticTree.WordCodeSnoc | include/irkit/coding/hutucker.hpp:299-309 | A word's code is its symbols' codes, one after the other |
| AlphabeticTree.FirstDifference | include/irkit/alphabetical_bst.hpp:131 | A word is below another only if at their first difference it has the smaller signed symbol, or is a proper prefix |
| AlphabeticTree.LessAtDifference | include/irkit/alphabetical_bst.hpp:131 | And whenever that is so |
| AlphabeticTree.WordCodeKeepsOrder | include/irkit/coding/hutucker.hpp:299-309 | Comparing coded words bit by bit is comparing the words by the tree's symbol order, in both directions |
| AlphabeticTree.EncodeBits | include/irkit/alphabetical_bst.hpp:142-156 | Following node pointers in the bytes appends the symbol's code in the represented tree |
| AlphabeticTree.EncodeTo | include/irkit/alphabetical_bst.hpp:127-140 | The same, to a bit stream |
| AlphabeticTree.DecodeFrom | include/irkit/alphabetical_bst.hpp:185-200 | Following bits from a stream finds the symbol the represented tree decodes, or fails exactly when the stream ends early |
| AlphabeticTree.DecodeAt | include/irkit/alphabetical_bst.hpp:185-200 | The same through a bit pointer, which ends behind the code |
| Compact.OrderedIsSmall | include/irkit/coding/hutucker.hpp:212-219 | An ordered tree of `char` symbols has at most 255 inner nodes, so no node pointer overflows 16 bits |
| Compact.HoldsRepresents | include/irkit/coding/hutucker.hpp:212-238 | Bytes that hold such nodes represent the tree |
| Compact.CompactTree | include/irkit/coding/hutucker.hpp:197-239 | For every tree whose nodes the pointers can address: the bytes represent the tree; every inner node takes five bytes, its split and two little-endian pointers, a symbol or 256 plus the byte offset of the child; the root comes first and children lie in the order of their parents |
| HuTucker.TagLeaves | include/irkit/coding/hutucker.hpp:131-158 | The traversal with a stack lists every leaf with its level, sorted by symbol |
| HuTucker.LevelsAreCodeLengths | include/irkit/coding/hutucker.hpp:131-158 | A leaf's level is the length of its symbol's code |
| HuTucker.ParseInverts | include/irkit/coding/hutucker.hpp:160-161 | The levels of a tree determine it: reading them back finds the tree |
| HuTucker.ParseIsSound | include/irkit/coding/hutucker.hpp:160-161 | A tree read from levels has those levels |
| HuTucker.AlignedExactly | include/irkit/coding/hutucker.hpp:160-161 | Levels can be read to the end if and only if they are those of an alphabetic tree, and then the tree read is the only one |
| HuTucker.Shift | include/irkit/coding/hutucker.hpp:185-189 | Taking the next leaf onto the stack does not change what the state leads to, even if the leaf buries the stack |
| HuTucker.Reconstruct | include/irkit/coding/hutucker.hpp:162-195 | For any levels the stack loop returns the outcome of reading trees by recursive descent, starting over at every leaf that does not fit |
| HuTucker.OutcomeBySum | include/irkit/coding/hutucker.hpp:180-193 | With a sum of 2 to the minus level below one it fails; at one it succeeds exactly for the levels of a tree; a tree that results leaves leaves over exactly if the sum is above one |
| HuTucker.LeafLeftOver | include/irkit/coding/hutucker.hpp:180-182 | Levels 1, 1, 1: the tree of the first two leaves results |
| HuTucker.LeafBuried | include/irkit/coding/hutucker.hpp:168-182 | Levels 2, 1, 1: the tree of the last two leaves results |
| HuTucker.OrderedTree | include/irkit/coding/hutucker.hpp:174-184 | With leaves in symbol order, the propagated split symbols make the tree ordered |
| HuTucker.CodecTree | include/irkit/coding/hutucker.hpp:288-290 | Bytes result exactly if the tagged levels are those of an alphabetic tree; then they represent that tree, which is ordered and has every symbol, with a code as long as the symbol's tagged level |
| Words.OrdersAgree | include/irkit/alphabetical_bst.hpp:131 | The tree's signed order of two words is the order of strings if and only if their first difference does not cross the sign |
| Words.CodesOrderStrings | include/irkit/coding/hutucker.hpp:299-309 | Comparing the coded words bit by bit is comparing the strings, under the same condition and only then |
| Words.AsciiOrder | include/irkit/alphabetical_bst.hpp:131 | On seven-bit bytes the condition always holds |
| Words.SignedOrderDiffers | include/irkit/alphabetical_bst.hpp:131 | Two words on which the orders disagree |
| Words.LessMeans | include/irkit/radix_tree.hpp:126-145 | A string is below another if and only if it has the smaller unsigned byte behind the common prefix, or is a proper prefix |
| Words.ScanDecides | include/irkit/lexicon.hpp:113-118 | A scan from the greatest leader at or below the key, stopped where the program stops it, decides whether the key is stored and where |
| Words.RadixTree.Insert | include/irkit/radix_tree.hpp:77-91 | Stores the value under the key, replacing an old one |
| Words.RadixTree.SeekLe | include/irkit/radix_tree.hpp:126-145 | Finds the value of the greatest stored key that is at most the given one, or nothing if all are greater |
| FrontCoding.CommonPrefixUnique | include/irkit/coding/prefix_codec.hpp:51-53 | Where the comparing loop stops is the length of the common prefix |
| FrontCoding.FrontCodeIs | include/irkit/coding/prefix_codec.hpp:48-60 | The front code is the length of the longest shared prefix and the length of the rest, in unary, and the coded rest |
| FrontCoding.FrontInverts | include/irkit/coding/prefix_codec.hpp:48-76 | Decoding a front-coded word after the same previous word returns the word and consumes exactly its bits |
| FrontCoding.FrontReads | include/irkit/coding/prefix_codec.hpp:62-76 | Any two numbers and a coded rest decode to that many symbols of the previous word, or all it has, and the rest |
| FrontCoding.WordOfIsSound | include/irkit/coding/hutucker.hpp:381-390 | Whatever bits decode to a number of symbols, the bits read are the code of the word |
| FrontCoding.ZerosDecodeToEmpty | include/irkit/coding/prefix_codec.hpp:62-76 | Padding decodes to the empty word, over and over |
| FrontCoding.PrefixCodec.Encode | include/irkit/coding/prefix_codec.hpp:48-60 | Writes the front code of the word against the previous one and remembers it |
| FrontCoding.PrefixCodec.Decode | include/irkit/coding/prefix_codec.hpp:62-76 | Decodes what the bits say, for any bits, and fails exactly when they end inside a symbol |
| FrontCoding.ThroughStream | include/irkit/coding/hutucker.hpp:339-390 | A word encoded to a flushed stream takes its code's bits in whole bytes, and decoding as many symbols gives the word back |
| Lexicon.BuildLexicon | include/irkit/lexicon.hpp:416-470 | For increasing keys and any number of keys per block, the lexicon holds all keys and that number; every block but the last takes as many keys, or one if it is below one, and the blocks are as many as that needs |
| Lexicon.Lexicon.BlockBits | include/irkit/lexicon.hpp:444-462 | The blocks lie side by side from offset 0; the bits of each are the front codes of its keys, the first against the empty word, and fewer than eight zeros |
| Lexicon.Lexicon.IndexAt | include/irkit/lexicon.hpp:100-119 | Returns a stored key's position, and nothing for every absent key, also past the last key of a short block |
| Lexicon.Lexicon.KeyAt | include/irkit/lexicon.hpp:121-141 | Returns the key at every position |
| Words.LastAtMost | include/irkit/lexicon.hpp:124-126 | The upper bound, one step back, is where the numbers split at the given one |
| Lexicon.LeaderStarts | include/irkit/lexicon.hpp:102-103 | The greatest leading key at or below a key starts the only block that can hold it |
| Lexicon.ReaderStep | include/irkit/lexicon.hpp:114-117 | A decode in a block yields the next key, and past the last key the empty word |
| Blocks.BlockBuilder.EncodeUnary | include/irkit/prefixmap.hpp:91-100 | Writes n ones and a zero at the bit pointer and nothing else; pointer and position move together |
| Blocks.BlockBuilder.SharedPrefix | include/irkit/prefixmap.hpp:127-132 | The scan over the last word finds the common prefix if no terminator is mistaken for a symbol |
| Blocks.BlockBuilder.Add | include/irkit/prefixmap.hpp:124-145 | Succeeds exactly when the bits written, both unary numbers and the code of the suffix have room; then writes the front code at the bit pointer and changes no byte outside the block's data; the pointer keeps up exactly when it did before and the copied code ends within 255 bits of the byte it starts in; after a new word the block holds all its words if and only if the pointer had kept up before |
| Blocks.BlockBuilder.WriteCount | include/irkit/prefixmap.hpp:157-160 | Stores the number of words and changes nothing else |
| Blocks.BlockBuilder.Close | include/irkit/prefixmap.hpp:162 | No further word fits |
| Blocks.AppendedContent | include/irkit/prefixmap.hpp:137-141 | Bits written behind a block's content extend the content |
| Blocks.CodeWritten | include/irkit/prefixmap.hpp:133-141 | A code written between header and end of the content leaves header and surroundings; the block holds the new word as well if and only if the code was written at the end |
| Blocks.BlockPtr.ReadUnary | include/irkit/prefixmap.hpp:195-204 | Counts the ones up to the next zero, whatever the bits are, and moves behind it |
| Blocks.WordAtInverts | include/irkit/prefixmap.hpp:206-216 | Where a word was front-coded behind the last one read, reading gives the word back and consumes its bits |
| Blocks.WordAtReads | include/irkit/prefixmap.hpp:206-216 | Any two numbers and a coded rest are read as the last word, cut off or filled up with zero bytes to the first number, and the rest |
| Blocks.WordsAtInverts | include/irkit/prefixmap.hpp:206-216 | A block of front-coded words is read back whole |
| Blocks.MisplacedReadsEmpty | include/irkit/prefixmap.hpp:206-216 | For all trees, words and memories: a code written too early by at least its length leaves the empty word to be read where it belongs |
| Blocks.WordWritten | include/irkit/prefixmap.hpp:124-145 | Every word, in place or not, continues the picture of the block's bits and of the bit pointer that is drawn from the words alone |
| Blocks.BlockPtr.NextWord | include/irkit/prefixmap.hpp:206-216 | Reads what any bits say as a word behind the last one, padded with zero bytes if the shared length is too long, and moves behind it |
| PrefixMap.PrefixMap.AppendBlock | include/irkit/prefixmap.hpp:279-290 | Finishes the old block and starts a new one at the end of the memory; finished blocks keep their content |
| PrefixMap.PrefixMap.ExpandBlock | include/irkit/prefixmap.hpp:292-299 | The last, still empty block takes one more slot; finished blocks keep their content |
| PrefixMap.PrefixMap.AddFresh | include/irkit/prefixmap.hpp:439-444 | A new block takes any word with a code of any length and holds it; it is expanded, by no more slots than it needs, and then closed, exactly if the word does not fit alone |
| PrefixMap.PrefixMap.AddItem | include/irkit/prefixmap.hpp:434-447 | One turn of the loop takes any next word and keeps: blocks cut the words in order, finished blocks stand in memory, every block takes just the slots it needs, the leaders are exactly the blocks' first words, the builder is where the layout says; the blocks hold their words if and only if they did and the pointer had kept up when the word joined one |
| PrefixMap.PrefixMap.constructor | include/irkit/prefixmap.hpp:413-450 | For any increasing words the map has the blocks of the layout, each with just the slots it needs, all leaders and headers, and in every block of one slot exactly the bits drawn from its words; every block holds its words if and only if the bit pointer keeps up before each word that joins a block; no block is expanded if and only if every word fits a block of its own |
| PrefixMap.TakesMeans | include/irkit/prefixmap.hpp:439-444 | The slots of a block have room for header and front codes, and one slot less would not |
| BlockLayout.CutsAreGreedy | include/irkit/prefixmap.hpp:434-447 | The layout, for all words: several words share a block only if header and front codes have room in one slot, and the first word of the next block had no room behind them |
| BlockLayout.FitsAloneMeans | include/irkit/prefixmap.hpp:102-105 | A word fits a block of its own if header, both unary numbers and its whole code do |
| BlockLayout.KeepsUpMeans | include/irkit/prefixmap.hpp:133-140 | The pointer keeps up if and only if in every block of the layout the codes of all words but the last are short enough for it |
| BlockLayout.ExactMeans | include/irkit/prefixmap.hpp:133-140 | A code is short enough if the copied suffix ends within 255 bits of the byte it starts in |
| BlockLayout.SteadyKeepsUp | include/irkit/prefixmap.hpp:133-140 | The pointer keeps up if every code that may be written is at most 248 bits long |
| BlockLayout.ShortIsSteady | include/irkit/prefixmap.hpp:133-140 | A word with a whole code of at most 248 bits meets that condition behind any word |
| BlockLayout.LongWordsKeepUp | include/irkit/prefixmap.hpp:133-140 | Three words of 200 to 301 symbols that share long prefixes keep up without meeting it |
| BlockLayout.LongCodeFallsBehind | include/irkit/prefixmap.hpp:133-140 | A word with a code of 256 bits and a word that joins it do not keep up, in blocks of 73 bytes or more |
| BlockLayout.LongCodeReads | include/irkit/prefixmap.hpp:206-216 | Their block reads as a word that was never added and the empty word |
| PrefixMap.LongCodeLost | include/irkit/prefixmap.hpp:413-467 | In the map built of these two words a lookup finds neither |
| BlockLayout.KeepsUpSnoc | include/irkit/prefixmap.hpp:434-447 | Word by word: one more word keeps up if the words before it do and, if it joins a block, the pointer is in place |
| BlockLayout.JoinerFitsAlone | include/irkit/prefixmap.hpp:102-105 | A word that fits behind others in a block, coded by its suffix alone, would also fit a block of its own with its whole code |
| Blocks.CodeMisplaced | include/irkit/prefixmap.hpp:133-140 | For all trees, words and memories: the code of a new word, written behind a lagging pointer with blank bits where it belongs, is not found there |
| PrefixMap.BuildPrefixMap | include/irkit/prefixmap.hpp:423-427 | There is a map exactly when there is a word, and it holds the words exactly if the pointer keeps up |
| PrefixMap.LeaderBlock | include/irkit/prefixmap.hpp:454-457 | The greatest leader at or below a key leads the only block that can hold it |
| PrefixMap.LookedDecides | include/irkit/prefixmap.hpp:460-466 | A scan of the only block that can hold a word, stopped where the program stops it, gives its index, or nothing if it is not stored |
| PrefixMap.PrefixMap.IndexOf | include/irkit/prefixmap.hpp:452-467 | In every built map: nothing before the first word, else the outcome of a scan of what is read in the block that should hold the word; if the blocks hold their words, the index of a stored word and nothing for others |
| PrefixMap.PrefixMap.OnlyBlock | include/irkit/prefixmap.hpp:452-467 | What is read in a map of one block follows from its words alone |
| PrefixMap.PrefixMap.KeyAt | include/irkit/prefixmap.hpp:469-486 | In every built map, for an index whose block is where the slots' first indices split: what is read there; if the blocks hold their words, the word with that index |
| PrefixMap.PrefixMap.FlatFinds | include/irkit/prefixmap.hpp:346-354 | In a map without expanded blocks that holds for every index |
| PrefixMap.PrefixMap.Iterate | include/irkit/prefixmap.hpp:238-258 | Iterating from begin to end yields exactly the words, in a map without expanded blocks |
| PrefixMap.PrefixMap.End | include/irkit/prefixmap.hpp:500-512 | In every built map the end is position 0 behind the last block, if that is not expanded |
| VByte.ReadInvertsCode | include/irkit/coding/vbyte.hpp:102-127 | Reading a number's code returns the number and consumes exactly the code, whatever follows |
| VByte.CodeIsDigits | include/irkit/coding/vbyte.hpp:58-75 | A code is the number's seven-bit digits, lowest first, the last one not above 127 and marked by the high bit |
| VByte.ReadIsDigits | include/irkit/coding/vbyte.hpp:102-127 | Any bytes up to the first with the high bit are read as the number of their seven-bit digits, lowest first |
| VByte.ReadWithoutEnd | include/irkit/coding/vbyte.hpp:118-124 | There is no number to read exactly if no byte has the high bit |
| VByte.CodeSize | include/irkit/coding/vbyte.hpp:58-75 | A number takes at most s bytes if and only if it has at most s seven-bit digits |
| VByte.NarrowBack | include/irkit/coding/vbyte.hpp:58-63 | Converting a value of any integer type, signed or not, to `size_t` and back restores it |
| VByte.NarrowIsCongruent | include/irkit/coding/vbyte.hpp:125 | Converting any other number gives the value of the type a multiple of the modulus away |
| VByte.CodeSizes | include/irkit/coding/vbyte.hpp:51-55 | Numbers from 2 to the 28th on take more than four bytes, and no number of 64 bits takes more than ten |
| VByte.Encode | include/irkit/coding/vbyte.hpp:58-75 | The loop writes the value's code into the buffer and stays within it if and only if the code has room |
| VByte.EncodeAll | include/irkit/coding/vbyte.hpp:79-84 | The same for a list of values |
| VByte.Decode | include/irkit/coding/vbyte.hpp:102-127 | The loop over bytes with growing shift reads the number back |
| VByte.SumsOfDeltas | include/irkit/coding/vbyte.hpp:86-100 | Adding up wrapped differences restores the values in any order, sorted or not |
| VByte.DeltaEncode | include/irkit/coding/vbyte.hpp:86-100 | Writes the codes of the wrapped differences from any first value, within the buffer if and only if they have room |
| VByte.DecodeAll | include/irkit/coding/vbyte.hpp:131-135 | Restores any number of the first values from their codes |
| VByte.DeltaDecode | include/irkit/coding/vbyte.hpp:137-149 | Restores any number of the first values from coded differences |
| CompactTable.BlocksCover | include/irkit/compacttable.hpp:300-301 | The blocks cover the values if and only if count plus block size is at most 2 to the 32nd power; otherwise the rounding sum wraps around and there are none |
| CompactTable.BlocksLost | include/irkit/compacttable.hpp:300-301 | Two values in blocks of the largest size: there are no blocks |
| CompactTable.BlockPart | include/irkit/compacttable.hpp:306-313 | A block takes a full block of values from its start, or those that are left |
| CompactTable.WordBytesAre | include/irkit/compacttable.hpp:53-62 | A stored 32-bit number is its base-256 digits, lowest first |
| CompactTable.EncodeBlock | include/irkit/coding.hpp:37-82 | Encoding a block, its values or their differences from 0 on, into a buffer of the codec's bound gives its code if and only if the code has room |
| CompactTable.BuildCompactTable | include/irkit/compacttable.hpp:288-321 | All writes stay in their buffers if and only if every block has room; then the bytes hold count, block size and flag, for every block the position of its first value and the offset of its code, and behind them the blocks' codes side by side and nothing else; with a wrapping block size they are the header alone |
| CompactTable.TenBytesFit | include/irkit/coding/vbyte.hpp:51-55 | A bound of ten bytes a value always gives room |
| CompactTable.FourBytesFit | include/irkit/coding/vbyte.hpp:51-55 | A bound of four bytes a value gives room if every coded number, value or wrapped difference, is below 2 to the 28th |
| CompactTable.SmallValuesFit | include/irkit/coding/vbyte.hpp:51-55 | That is so for values from 0 to below 2 to the 28th, in order where differences are coded |
| CompactTable.LargeValuesOverflow | include/irkit/coding/vbyte.hpp:51-55 | Two values of 2 to the 35th leave a buffer of fewer than twelve bytes |
| CompactTable.LowerBound | include/irkit/compacttable.hpp:79-80 | The first leader whose key is not below the key |
| CompactTable.SeekLeader | include/irkit/compacttable.hpp:79-84 | After the step back the leader is that of the block with the key |
| CompactTable.ReadCompactValue | include/irkit/compacttable.hpp:69-90 | Returns the value stored at every key, for either encoding |
| CompactTable.Iterator.NextBuffer | include/irkit/compacttable.hpp:202-218 | Decodes exactly the next block, also a short or an exactly full last one |
| CompactTable.Iterator.Increment | include/irkit/compacttable.hpp:220-225 | Moves one position on and keeps the buffer on the current block |
| CompactTable.CompactTable.ToVector | include/irkit/compacttable.hpp:177 | Iterating from begin to end yields exactly the values |

## Left out

- `select_pivot` and `next_doc_wand` (include/irkit/unionrange.hpp:148-199): they push the old document back after advancing and add unweighted scores, so the usual guarantee is not kept as written.
- The on-the-fly `run_shards` (src/run_query.hpp:236-265): it reranks local results with global scorers and is not exact by design; only its `rescore` is modelled.
- Scorers (BM25, query likelihood), quantization and Taily: a scorer is any function; floating-point rounding is not modelled, `Rescore` uses real numbers.
- Overflow of score sums: scores are unbounded integers.
- k = 0: the accumulator then reads the first entry of an empty vector; k is at least 1.
- TopK.SortDescending: the order among equal scores is the library's; the model fixes one insertion sort, and `TopK.TopKScoresUnique` shows the scores do not depend on it.
- Heap.MakeHeap: the arrangement of entries the library's heap functions choose may differ from the model's; any choice of k best has the same scores (`TopK.TopKScoresUnique`), but which of several tied entries is kept may differ.
- Merge.LineUp: the program passes `std::sort` an order that is not strict, which the library does not support; the model sorts by insertion with the same order.
- Threshold.DaatMerged: does not model the lookup of a scorer by term, because every payload stands for what the scorer gives the posting.
- Rescore.Rescore: does not model update in place; the results are a sequence that is rebuilt.
- Posting list views, block-encoded posting lists and fetching: lists are sequences of postings, each list sorted by document as the program requires.
- PrefixMap.PrefixMap.KeyAt: does not model a lookup whose first indices do not split at the word's block, because the library's search is then undefined or leads to a slot that holds code bits; `init_reverse_lookup` reads a first index from such slots too. Lookup by word has no such condition.
- PrefixMap.PrefixMap.IndexOf: does not model a lookup that reads over the end of the memory, which can happen only in a map that does not hold its words (`PrefixMap.PrefixMap.constructor`); the same holds for `PrefixMap.PrefixMap.KeyAt`.
- PrefixMap.PrefixMap.Iterate: does not model maps with an expanded block (those with a word that does not fit a block of its own), because the iterator steps into the block's further slots and takes their bytes for headers.
- PrefixMap.PrefixMap.End: does not model maps whose last block is expanded, because the program takes the bytes of its last slot for a header.
- Building a prefix map from a file, loading, dumping and mapping files, JSON properties and command-line programs.
- The lexicon's iterators and its serialized form.
- The first phase of the Hu-Tucker construction (`join_next_valid`, `build_tree`): that its levels are always those of an alphabetic tree, and that the tree is optimal, is not proved; `HuTucker.CodecTree` holds for any first-phase tree with distinct symbols.
- `alphabetical_bst::decode` of a bitset and `hutucker_codec::decode` of a bitset: they decode the whole bitset for every symbol.
- The rax library behind `radix_tree`: only its contract is modelled.
- VByte.DeltaEncode: differences of signed types wrap around as those of unsigned types do; the program leaves their overflow to the compiler.
- CompactTable.BuildCompactTable: does not model reading tables of 2 to the 32nd power bytes or more, because leaders hold 32-bit offsets.
- CompactTable.CompactTable.ToVector: does not model iterating over 2 to the 31st values or more, or blocks of such a size, because the program's iterator keeps count, block size and position in `int` (include/irkit/compacttable.hpp:242-256); `CompactTable.ReadCompactValue` has no such limit.
- Stream-vbyte coding, zip views, memory views, `nbits` and `nbytes`, timers, stemming, WARC and HTML reading.
