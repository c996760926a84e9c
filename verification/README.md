# VoxLib's algorithms, modelled and proved

VoxLib is a C library for asynchronous I/O. This project models the self-contained algorithms inside it, in Dafny, and
proves what they promise:

- the lock-free multi-producer queue of `vox_queue.c`, as a state machine over every interleaving of its atomic accesses;
- the regular-expression engine of `vox_regex.c`: the compiler to automata, the simulator, search, and the scan for all matches;
- the open-addressing hash table of `vox_htable.c` and the red-black tree of `vox_rbtree.c`, as maps;
- the JSON parser and serialiser of `vox_json.c`, over the scanner of `vox_scanner.c`;
- digest streaming, CRC-32 and Base64 of `vox_crypto.c`;
- the size-class allocator of `vox_mpool.c` and the array heap of `vox_mheap.c`;
- the generation barrier of `vox_mutex.c`, the circular list of `vox_list.h` and the handle life cycle of `vox_handle.c`.

Code that works in place is modelled by classes and loops. Each operation is proved against a mathematical description of
the state (a map, a sequence, a language, a multiset, a sum of sizes), and the promise of the code is then proved of that
description. `dafny verify dfyconfig.toml` checks everything.

## How the modules fit together

- `MpscQueue` holds the whole protocol. Its steps are the atomic accesses of enqueue and dequeue; history variables that no
  step reads record reservations, deliveries and failed calls.
- `Prelude` has optional values, the bounds of machine words, and sequences put together.
- `RegexLang` has the syntax trees, the languages that they denote, and the languages that the compiler really builds.
  `RegexNfa` has automata and what it means that a fragment of one is certified for a language. `RegexCompiler` follows the
  source's parse functions from the tree on. `RegexText` has the text of a pattern and the scan for lazy quantifiers.
  `RegexMatcher` has the numbering, the prefix, and the matching.
- `KeyOrder` has ordered sequences of entries as a reference for maps, `RbShape` tree shapes and how they lie in memory,
  `RbFixup` and `RbSplice` the effect of each repair case on order, colours and black height, and `RbTree` the tree itself.
- `Json` describes text and parsing as functions, `JsonCode` has the scanner, the parser and the serialiser as code that is
  proved to compute those functions, `JsonGrammar` has the grammar of texts, of numbers and of escapes that the functions are
  proved to follow, and `JsonRoundTrip` relates the two directions.
- `PoolModel` has the allocator's state as a value with its invariant, and `MemPool` the allocator's operations.
- `Bits` has the arithmetic of masks and powers of two.

## Where the code departs from what it intends

- At queue capacity 1 the mark "holds the element of position p" is the mark "free for position p + 1", and an element is
  overwritten. The order of delivery is kept exactly from capacity 2 on (`MpscQueue.OrderedExactlyFromTwo`).
- A counted repetition means what it says on a one-character atom exactly for the counts given by `RegexLang.Supported`:
  counts up to 128, and no upper bound with lower bound 0. `{0,m}` accepts the empty word only, and `{n,m}` with m below n
  is taken for `{n}` (`RegexLang.SupportedExactly`).
- Counted repetition copies two states of its body. The copy is right exactly for the fragments that
  `RegexCompiler.MayCopy` describes, which a capturing group is not (`RegexCompiler.CopyIsRightExactly`,
  `RegexCompiler.GroupMayNotBeCopied`).
- Lazy quantifiers are looked for in the text of the pattern, where an optional literal asterisk looks like one
  (`RegexText.ScanIsExact`, `RegexText.OptionalAsterisk`).
- `vox_rbtree_delete` keeps the order, the contents, the links and the colour rules, but equal black heights exactly under
  the condition `RbSplice.StaysBalanced` (`RbTree.RbTree.Delete`); `RbTree.DeleteLeftOfThree` is a case where they are lost.
- The scanner skips white space after an opening quote, so parsing loses the leading blanks of a string, and the parser
  keeps escapes as they are spelled. A tree comes back unchanged exactly if no string is affected
  (`JsonRoundTrip.RoundTripExactly`, `JsonRoundTrip.BlankAndBreak`).
- The accepted grammar is that of RFC 8259 but for strings, in which control characters and a backslash before any character
  may stand, and white space, which includes vertical tabs and form feeds (`JsonGrammar.ParsesExactly`).
- A handle that is closed when its references are already gone is never queued, and its callback never runs
  (`Handles.Loop.NoneForgotten`).
- The URL Base64 decoder demands one or two bytes more room than it fills, for a text without padding whose length is not a
  multiple of four (`Base64.RoundTrip` with `Base64.Demand`). For texts that no encoder produces, the room that a decoder
  demands is as much as it writes exactly for the lengths given by `Base64.RoomSuffices` (`Base64.WritesInsideExactly`).

## Model

| member | source | states |
|---|---|---|
| MpscQueue.SlotMod | vox_queue.c:236 | masking with capacity - 1 is the remainder by the capacity, for powers of two from 2 on |
| MpscQueue.InitInv | vox_queue.c:171-186 | slot i initialised with sequence number i satisfies the invariant, for any numbers of producers and consumers |
| MpscQueue.StepInv | vox_queue.c:226-344 | every atomic access of any thread keeps the invariant: each slot serves one position within a lap, its mark tells free from filled, and each reserved or claimed position has one owner |
| MpscQueue.StepGood | vox_queue.c:226-344 | every step also keeps what the history says: deliveries match reservations one to one, call order per producer, and justified failure reports |
| MpscQueue.ReachedGood | vox_queue.c:171-344 | the full invariant holds after every schedule of any length, any number of producers and consumers, capacity a power of two from 2 on |
| MpscQueue.DeliveredInReservationOrder | vox_queue.c:233-344 | with one consumer the sequence of returned elements is a prefix of the sequence of reserved ones |
| MpscQueue.ProducerOrderKept | vox_queue.c:233-244 | two reservations of one producer stand in the order of its calls |
| MpscQueue.ExactlyOnePlace | vox_queue.c:233-344 | every reserved position is in exactly one place (with its producer, in its slot, with a consumer, or returned) and is returned at most once |
| MpscQueue.NothingLost | vox_queue.c:308-344 | when the consumer is idle and the queue is empty, the returned elements are exactly the reserved ones |
| MpscQueue.SlotsAreExclusive | vox_queue.c:261-265 | two threads that may touch the data of the same slot are the same thread |
| MpscQueue.FailuresLinearise | vox_queue.c:231-318 | in a system with one consumer, "full" is reported only if no slot was released at the instant tail was read, and "empty" only if head equalled tail when tail was read |
| MpscQueue.StepRefinesQueue | vox_queue.c:226-344 | each step is a no-op, an append or a removal of the front of an abstract queue, and the removing consumer holds the front element |
| MpscQueue.TailMark | vox_queue.c:233-259 | the slot of tail bears the number tail exactly when the position one lap back has been released, and a smaller one otherwise |
| MpscQueue.SoloEnqueue | vox_queue.c:226-259 | an enqueue that takes its first steps alone reserves the tail position exactly if the slot is free, and reports full otherwise, changing nothing |
| MpscQueue.SoloDequeue | vox_queue.c:308-344 | a dequeue that runs alone on a published front element returns it, releases its slot and leaves the consumer idle |
| MpscQueue.SoloDequeueEmpty | vox_queue.c:308-318 | a dequeue that runs alone on an empty queue returns with exactly one report of an empty queue and changes nothing else |
| MpscQueue.EmptyAtOnce | vox_queue.c:315-318 | in any state, a consumer whose position equals the tail that it reads is idle after that step, with exactly one report |
| MpscQueue.WaitsForWriter | vox_queue.c:320-331 | while the front element is reserved but not yet published, a round of dequeue leads back to its start and changes nothing |
| MpscQueue.ConsumerReturns | vox_queue.c:308-344 | a step of dequeue returns exactly with one more delivery or one more report of an empty queue, and any other step adds neither |
| MpscQueue.ProducerReturns | vox_queue.c:226-267 | a step of enqueue returns exactly with the element published or with one more report of a full queue |
| MpscQueue.Publishes | vox_queue.c:261-267 | after its reservation a producer stores its element and the mark of a filled slot in two steps, and returns |
| MpscQueue.NullIsRefused | vox_queue.c:206 | the null pointer is refused and nothing changes |
| MpscQueue.CapacityOneLosesAnElement | vox_queue.c:265-341 | a schedule at capacity 1 in which 1 and then 2 are enqueued and the consumer is given 2 first |
| MpscQueue.OrderedExactlyFromTwo | vox_queue.c:171-344 | among the powers of two, the capacities at which every schedule with one consumer returns the elements in reservation order are exactly those from 2 on |
| RegexLang.SupportedQuant | vox_regex.c:806-1265 | for supported quantifiers the compiled language is the meant one, over any body language |
| RegexLang.SupportedExactly | vox_regex.c:806-1265 | on a one-character atom a quantifier compiles to what it means if and only if it is supported (counts up to 128; no upper bound with lower bound 0; no m below n unless both are empty) |
| RegexLang.SupportedExprMeaning | vox_regex.c:487-1345 | a pattern all of whose quantifiers are supported compiles to the language that it denotes |
| RegexLang.RepeatFromIsChain | vox_regex.c:989-1061 | n copies followed by a loop are all repetitions from n on |
| RegexLang.SameIsAlike | vox_regex.c:160-165 | comparing by to_lower_if_needed finds two characters the same exactly if they are equal or, when case is ignored, the upper and the lower case of one of the 26 letters |
| RegexLang.LiteralMeaning | vox_regex.c:1281-1301 | a literal word denotes exactly the words of its length that are like it character by character |
| RegexLang.QuantifiedChars | vox_regex.c:806-1265 | a quantified character or class denotes the words of its characters whose length the quantifier asks for |
| RegexNfa.ConsumeFrag | vox_regex.c:783-802 | a one-character state before a fragment prepends that character |
| RegexNfa.CatFrag | vox_regex.c:1281-1301 | linking the end of one fragment to the start of another gives the concatenation of their languages |
| RegexNfa.OrFrag | vox_regex.c:1304-1345 | a split before two fragments and a common end gives the union |
| RegexNfa.StarFrag | vox_regex.c:816-850 | a split around a body whose end loops gives the closure under repetition, whichever way the priorities are ordered |
| RegexNfa.PlusFrag | vox_regex.c:851-883 | a body whose end loops gives one or more repetitions |
| RegexNfa.OptFrag | vox_regex.c:884-913 | a split around a body gives the body or the empty word |
| RegexNfa.Closed | vox_regex.c:1412-1431 | linking the open end to a match state gives an automaton that accepts exactly the fragment's language |
| RegexCompiler.Compiler.CloneFragment | vox_regex.c:432-474 | the copy consists of the start and the end state only; an edge to the old end leads to the new one, the second edge is dropped |
| RegexCompiler.CopyReads | vox_regex.c:432-474 | what leads through a copy: one character if the start reads one and leads straight to the end, the empty word if it is a split that does, and nothing otherwise |
| RegexCompiler.CopyIsRightExactly | vox_regex.c:432-474 | a copy reads what the fragment reads if and only if the start leads straight to the end and, when it reads nothing, the fragment reads the empty word only; or nothing leads through the fragment at all |
| RegexCompiler.GroupMayNotBeCopied | vox_regex.c:432-474 | the fragment of a capturing group around one character: it reads the character, and its copy reads nothing |
| RegexCompiler.Compiler.ZeroOrMore | vox_regex.c:816-850 | the fragment for `*`, and for `{0,}`, is certified for the closure; earlier states but the body's end are unchanged |
| RegexCompiler.Compiler.OneOrMore | vox_regex.c:851-883 | the fragment for `+` is certified for one or more repetitions |
| RegexCompiler.Compiler.ZeroOrOne | vox_regex.c:884-913 | the fragment for `?` is certified for the body or the empty word |
| RegexCompiler.Compiler.ExactCount | vox_regex.c:1207-1258 | `{n}` links n copies into exactly n repetitions; beyond 128 copies the fragment accepts nothing |
| RegexCompiler.Compiler.AtLeastCount | vox_regex.c:989-1061 | `{n,}` links n copies and the looping body into at least n repetitions; beyond 128 nothing |
| RegexCompiler.Compiler.UpperOnly | vox_regex.c:1072-1108 | `{0,m}` accepts exactly the empty word, whatever the body |
| RegexCompiler.Compiler.BetweenCount | vox_regex.c:1109-1206 | `{n,m}` links n copies and m - n optional ones into n to m repetitions, within the limits of 128 |
| RegexCompiler.Compiler.ApplyQuantifier | vox_regex.c:806-1265 | every quantifier gives a fragment certified for the compiled language |
| RegexCompiler.Compiler.CompileAtom | vox_regex.c:487-803 | characters, classes and groups give certified fragments on fresh states; a single-character atom, also inside non-capturing groups, is one reading state that leads straight to a fresh open end |
| RegexCompiler.Compiler.CompileFactor | vox_regex.c:1268-1278 | an atom with its quantifier is certified for the factor's language, on fresh states only |
| RegexCompiler.Compiler.CompileTerm | vox_regex.c:1281-1301 | the loop over factors yields a fragment for their concatenation |
| RegexCompiler.Compiler.CompileExpr | vox_regex.c:1304-1345 | the loop over alternatives yields a fragment for their union |
| RegexCompiler.Compiler.Compile | vox_regex.c:1412-1431 | the finished automaton accepts a word if and only if it is in the compiled language |
| RegexMatcher.Numbering.AssignIds | vox_regex.c:1348-1360 | every reachable state receives a number, no two the same, and numbers once given stay |
| RegexMatcher.ExtractPrefix | vox_regex.c:1441-1462 | every accepted word begins with the extracted prefix, which has at most 255 characters |
| RegexMatcher.CompileRegex | vox_regex.c:1363-1465 | for any value of the flag for lazy quantifiers, the compiled object is valid and accepts exactly the compiled language of the pattern |
| RegexText.ScanForLazy | vox_regex.c:1398-1410 | the loop finds a question mark behind `*`, `+`, `?` or `}` if and only if there is one |
| RegexText.MarkedExpr | vox_regex.c:1398-1410 | in the text of a pattern, however counts and classes are spelled, there is one if and only if the pattern has a lazy quantifier, or an optional literal `*`, `+`, `?` or `}`, or a class spelled with one inside |
| RegexText.ScanIsExact | vox_regex.c:1398-1410 | so the flag is right exactly unless something of the latter kind stands in a pattern without lazy quantifiers |
| RegexText.OptionalAsterisk | vox_regex.c:1398-1410 | `\*?` is a pattern whose flag is wrong |
| RegexMatcher.CompilePattern | vox_regex.c:1363-1465 | the compiled object accepts the compiled language, and its flag is set exactly if the text has a lazy quantifier or something that is misread for one |
| RegexMatcher.MatchContext.AddState | vox_regex.c:1510-1548 | the generation stamps mark a set that becomes closed under empty edges from the added state; the list gains exactly its non-split states, each reachable |
| RegexMatcher.MatchContext.HasMatchState | vox_regex.c:1551-1558 | the list holds a match state if and only if the text read so far is accepted |
| RegexMatcher.MatchContext.Advance | vox_regex.c:1595-1627 | one round turns the frontier of a text into the frontier of the text with one more character |
| RegexMatcher.MatchContext.MatchFrom | vox_regex.c:1561-1641 | full match succeeds exactly if the rest of the text is accepted; otherwise the longest accepted end is returned, the shortest if the pattern has a lazy quantifier, and none if there is none |
| RegexMatcher.MatchWhole | vox_regex.c:1655-1658 | true if and only if the automaton accepts the whole text |
| RegexMatcher.Strstr | vox_regex.c:1677-1681 | the least position at or after the start where the prefix stands |
| RegexMatcher.PrefixNeeded | vox_regex.c:1677-1681 | where the prefix does not stand no match begins, so skipping loses nothing |
| RegexMatcher.Search | vox_regex.c:1661-1696 | with or without the prefix skip: the least start from which some end matches, with the end chosen there, and failure only if no start matches |
| RegexMatcher.FindAll | vox_regex.c:1712-1762 | the list is a complete scan: each match is leftmost from where the scan resumed, and none begins after the last |
| RegexMatcher.ScanIncreases | vox_regex.c:1732-1758 | matches of a scan start in strictly increasing order and do not overlap |
| RegexMatcher.ScanMissesNone | vox_regex.c:1732-1758 | every position where a match begins is the start of a listed match or lies inside one |
| RegexMatcher.EmptyMatchIsHere | vox_regex.c:1750-1754 | an empty match is always found where the scan stands, so stepping on by one position skips nothing |
| RegexMatcher.CompileAndMatch | vox_regex.c:1363-1658 | compiling a supported pattern and matching a text returns true if and only if the text is in the language that the pattern denotes |
| RegexMatcher.CompileAndSearch | vox_regex.c:1363-1709 | compiling a supported pattern and searching a text gives the leftmost piece in the language of the pattern, the shortest there if the text has, or seems to have, a lazy quantifier, the longest if not, and none exactly if there is none |
| Bits.NextPowerOfTwoIsLeast | vox_htable.c:145-155 | the bit smearing yields a power of two not below n that no other such power is below, for n up to 2^63, and 0 above |
| HashTable.HomeInRange | vox_htable.c:158-161 | the masked hash is a slot of the table, for any hash |
| HashTable.HomeIs | vox_htable.c:158-161 | it is the hash modulo the capacity |
| HashTable.NextIndex | vox_htable.c:231-272 | the masked successor is the next slot, or the first after the last |
| HashTable.RoomLeft | vox_htable.c:167-172 | the two counters add up to less than the capacity if and only if an empty slot exists |
| HashTable.CountIsSize | vox_htable.c:446-448 | with unique keys the number of occupied slots is the size of the map |
| HashTable.ContentsValue | vox_htable.c:402-411 | the map that the slots stand for holds the value of every occupied slot |
| HashTable.InsertOk | vox_htable.c:345-399 | filling an open slot on the key's probe path keeps unique keys and open paths, and updates the map |
| HashTable.UpdateOk | vox_htable.c:345-399 | overwriting a stored value keeps them and updates the map |
| HashTable.DeleteOk | vox_htable.c:414-438 | a tombstone keeps every other path open and removes just that key from the map |
| HashTable.NotStored | vox_htable.c:231-272 | an empty slot on the path, or a full circle, proves that the key is not stored |
| HashTable.Table.FindEntry | vox_htable.c:231-272 | the key's slot; or, with the proof that the key is not stored, the first free slot on its path for an insertion (a tombstone counts as free) and the empty slot that ends the path otherwise; none only if no slot is empty |
| HashTable.Table.constructor | vox_htable.c:280-342 | an empty map in an array of 16 slots or of the rounded capacity; 0 and out-of-range load factors select the defaults |
| HashTable.Table.Reinsert | vox_htable.c:175-228 | the loop body of the resize adds one entry to the map |
| HashTable.Table.Resize | vox_htable.c:175-228 | doubling keeps the map, drops all tombstones and leaves an empty slot |
| HashTable.Table.Set | vox_htable.c:345-399 | refuses the empty key and then changes nothing; otherwise the map is updated at the key, and the array is doubled exactly if used slots and tombstones had reached the threshold |
| HashTable.Table.SlotAvailable | vox_htable.c:167-172 | after the size check an empty slot exists, for any load factor above 0 and up to 1 |
| HashTable.Table.Get | vox_htable.c:402-411 | the map's value, none for an empty or missing key |
| HashTable.Table.Delete | vox_htable.c:414-438 | succeeds exactly if the key is stored, and removes just that key |
| HashTable.Table.Clear | vox_htable.c:456-482 | the map is empty afterwards and the array is kept |
| KeyOrder.InsertedIsUpdate | vox_rbtree.c:354-426 | insertion into a sorted sequence of entries acts as a map update, for any comparison that orders keys |
| KeyOrder.RemovedIsGone | vox_rbtree.c:437-524 | removal acts as a map removal of one key and no other |
| KeyOrder.LookupHit | vox_rbtree.c:112-138 | between smaller and larger keys an equal key is the one found, and its removal joins the two sides |
| KeyOrder.LookupMissing | vox_rbtree.c:112-138 | a gap in the order proves that the key is missing |
| RbShape.DepthIsLogarithmic | vox_rbtree.c:157-207 | a red-black tree of n nodes is at most 2 * log2(n + 1) deep |
| RbTree.RbTree.DepthBySize | vox_rbtree.c:532-534 | a balanced tree is at most 2 * log2(size + 1) deep, by its size field |
| RbShape.PlugInOrder | vox_rbtree.c:566-575 | the in-order sequence of a tree around a position is what stands before it, what hangs there and what stands after |
| RbShape.PlugNoRedRed | vox_rbtree.c:157-207 | no red node has a red child in the whole tree if and only if that holds below and along the way to a position |
| RbShape.PlugHeight | vox_rbtree.c:210-300 | the black height of the whole depends on a position only through the black height there |
| RbFixup.UncleRedKeeps | vox_rbtree.c:163-168 | with a red uncle, recolouring moves the red-red edge two levels up and keeps order and black height |
| RbFixup.InnerKeeps | vox_rbtree.c:171-175 | the first rotation turns an inner grandchild into an outer one and keeps order and black height |
| RbFixup.OuterKeeps | vox_rbtree.c:176-179 | the second rotation removes the red-red edge and keeps order and black height |
| RbFixup.InsertDone | vox_rbtree.c:158-206 | colouring the root black completes the repair |
| RbFixup.SiblingRedKeeps | vox_rbtree.c:216-222 | with a red sibling, the rotation gives a black sibling and leaves the position as short as before |
| RbFixup.SiblingBlackKeeps | vox_rbtree.c:224-231 | with two black nephews, the shortage moves up by one level; an imbalance below stays one |
| RbFixup.NephewTurnedKeeps | vox_rbtree.c:233-241 | a red inner nephew is rotated outwards with order, colours and height kept |
| RbFixup.SiblingUpKeeps | vox_rbtree.c:242-253 | the last rotation keeps order and colours |
| RbFixup.SiblingUpBalances | vox_rbtree.c:242-253 | and restores equal black heights of the whole tree if the position was one short |
| RbFixup.DeleteDone | vox_rbtree.c:299 | colouring the node black ends the repair: a position that was one short is short no more |
| RbSplice.RemovedAt | vox_rbtree.c:437-524 | a subtree that keeps all entries but its root's is the removal of that key from the whole |
| RbSplice.RedGoes | vox_rbtree.c:437-524 | a red node with a missing child goes without a trace |
| RbSplice.BlackGoes | vox_rbtree.c:437-524 | a black node with a missing child leaves its place one black node short |
| RbSplice.LeafGoes | vox_rbtree.c:507-519 | a black leaf on the left: the fixup is called beside the gap, where nothing can be balanced any more |
| RbSplice.RedSuccessor | vox_rbtree.c:437-524 | a red successor takes the node's place with colours and black heights kept |
| RbSplice.BlackSuccessor | vox_rbtree.c:437-524 | a black successor leaves its old place one black node short |
| RbSplice.ChildlessSuccessor | vox_rbtree.c:507-519 | a black successor without children: the fixup is called with NULL beside the successor's new place, and the imbalance below it remains |
| RbTree.RbTree.constructor | vox_rbtree.c:323-351 | the empty tree |
| RbTree.RbTree.LeftRotate | vox_rbtree.c:66-86 | the pointers afterwards are those of the rotated tree at the same position, on the same nodes, parent links included |
| RbTree.RbTree.RightRotate | vox_rbtree.c:89-109 | its mirror image |
| RbTree.RbTree.FindNode | vox_rbtree.c:112-138 | the node with the key, or the empty position between the smaller and the larger keys |
| RbTree.RbTree.MinNode | vox_rbtree.c:141-146 | the leftmost node of a subtree |
| RbTree.RbTree.Find | vox_rbtree.c:429-434 | the value that looking the key up in the in-order sequence gives |
| RbTree.RbTree.InsertRound | vox_rbtree.c:158-204 | one round of the repair keeps order and black height and climbs or ends |
| RbTree.RbTree.InsertFixup | vox_rbtree.c:157-207 | ends with a black root and no red-red edge, the same entries, and equal black heights if and only if they were equal |
| RbTree.RbTree.Attach | vox_rbtree.c:411-418 | a new node hung at an empty position |
| RbTree.RbTree.UpdateNode | vox_rbtree.c:378-385 | an equal key's value is replaced and nothing else |
| RbTree.RbTree.AddNode | vox_rbtree.c:393-425 | the entry is inserted and the tree repaired |
| RbTree.RbTree.Insert | vox_rbtree.c:354-426 | refuses the empty key; otherwise the entries are those with the key inserted, all invariants hold, and equal black heights are kept |
| RbTree.RbTree.DeleteRound | vox_rbtree.c:210-300 | one round keeps order and colours, moves a shortage up or ends, and cannot mend an imbalance elsewhere |
| RbTree.RbTree.DeleteFixup | vox_rbtree.c:210-300 | restores equal black heights when called with the true parent and side of a position one short; keeps colours and order however it is called |
| RbTree.RbTree.Transplant | vox_rbtree.c:303-315 | one subtree takes another's place below its parent, the taken node's fields otherwise unchanged |
| RbTree.RbTree.ReplaceBySuccessor | vox_rbtree.c:437-524 | the least node of the right subtree takes the node's place, in both sub-cases |
| RbTree.RbTree.DeleteOuter | vox_rbtree.c:437-524 | deletion of a node with a missing child: colours and order, and balance if and only if StaysBalanced |
| RbTree.RbTree.DeleteInner | vox_rbtree.c:437-524 | deletion of a node with two children: the same |
| RbTree.RbTree.Delete | vox_rbtree.c:437-524 | -1 and no change for an empty or missing key; otherwise the entries are those without the key, order, links and colours hold, and a balanced tree stays balanced if and only if StaysBalanced holds of the node |
| RbTree.DeleteLeftOfThree | vox_rbtree.c:507-519 | on any balanced tree of three black nodes, deleting the left one by its key leaves a valid tree that is out of balance |
| RbTree.BalanceIsLost | vox_rbtree.c:507-519 | such a tree exists for every comparison and value |
| Json.SkipIsSuffix | vox_scanner.c:103-135 | what is skipped is exactly the white space at the front |
| JsonCode.Scanner.constructor | vox_scanner.c:137-154 | the scanner stands at the first byte that is no white space |
| JsonCode.Scanner.AutoSkip | vox_scanner.c:103-135 | the loop over the buffer computes Skip of the unread text |
| JsonCode.Scanner.PeekChar | vox_scanner.c:187-192 | the first unread byte, if any |
| JsonCode.Scanner.GetChar | vox_scanner.c:307-319 | takes one byte and the white space after it; at the end nothing moves |
| JsonCode.Scanner.SkipCount | vox_scanner.c:414-428 | takes at most count bytes and the white space after them |
| JsonCode.ScanWord | vox_json.c:51-80 | a keyword is taken exactly if the unread text begins with it; otherwise the scanner stays |
| JsonCode.ScanBoolean | vox_json.c:83-116 | true and false |
| JsonCode.ScanNumber | vox_json.c:120-179 | takes the number that NumberEnd finds at the start, and fails exactly where it finds none; what NumberEnd finds is stated by NumberRead and NumberFound |
| JsonCode.ScanNumberValue | vox_json.c:120-220 | the number that strtod yields for that text |
| JsonCode.ScanStringEnd | vox_json.c:263-299 | the closing quote, past all escapes |
| JsonCode.ScanString | vox_json.c:254-327 | the string as spelled, less leading blanks, or failure |
| JsonCode.ScanItems | vox_json.c:362-387 | the loop over items agrees with the recursive description, in value, in failure and in what is left unread |
| JsonCode.ScanArray | vox_json.c:334-388 | the same for arrays |
| JsonCode.ScanMember | vox_json.c:419-450 | the same for one name and its value |
| JsonCode.ScanMembers | vox_json.c:419-482 | the same for the loop over members |
| JsonCode.ScanObject | vox_json.c:391-483 | the same for objects |
| JsonCode.ScanValue | vox_json.c:488-534 | the same for any value |
| JsonCode.ParseText | vox_json.c:537-577 | the tree that Parse describes, none exactly if it fails, and how many bytes were used |
| JsonGrammar.SkipAt | vox_scanner.c:92-135 | blanks, tabs, line feeds, vertical tabs, form feeds and carriage returns are skipped up to the next other character |
| JsonGrammar.NumberRead | vox_json.c:120-179 | every number of the grammar of section 6 of RFC 8259 (optional minus, integer part without leading zero, optional fraction, optional exponent) is read to its end when nothing that continues it follows |
| JsonGrammar.NumberFound | vox_json.c:120-179 | and only such numbers are read |
| JsonGrammar.StringRead | vox_json.c:254-327 | every string of the accepted grammar is read up to its closing quote, less its leading blanks |
| JsonGrammar.StringFound | vox_json.c:254-327 | and only such strings are read |
| JsonGrammar.ValueRead | vox_json.c:488-534 | every value of the grammar, at any position of a text, is parsed to its tree and up to its end |
| JsonGrammar.ValueFound | vox_json.c:488-534 | and only such values are parsed |
| JsonGrammar.ParsesExactly | vox_json.c:537-577 | a whole text is parsed to a tree, with nothing left over, if and only if the grammar says that the text denotes that tree |
| JsonGrammar.DenotesOne | vox_json.c:537-577 | no text denotes two trees |
| JsonCode.Writer.Append | vox_json.c:919-926 | the text grows by the piece, whether or not it still fits the buffer |
| JsonCode.Writer.AppendIndent | vox_json.c:933-939 | a line break and the indentation, when pretty |
| JsonCode.Writer.AppendQuoted | vox_json.c:942-972 | the quoted and escaped string |
| JsonCode.Writer.AppendValue | vox_json.c:976-1052 | appends exactly Text of the tree at the current indentation |
| JsonCode.Writer.AppendArray | vox_json.c:1015-1032 | the same for arrays, indentation restored |
| JsonCode.Writer.AppendObject | vox_json.c:1033-1050 | the same for objects |
| JsonCode.ToString | vox_json.c:1054-1068 | the two passes, counting and writing, yield Text of the tree |
| JsonCode.Serialize | vox_json.c:1070-1092 | written is the full length in any case; the buffer holds the text and a NUL if they fit, and -1 is returned with an empty string if not |
| JsonGrammar.UnescapeBack | vox_json.c:942-972 | unescaping by section 7 of RFC 8259 what the serialiser writes for a string gives the string back |
| JsonGrammar.Indentation | vox_json.c:933-939 | a level of indentation is two blanks |
| JsonGrammar.LayoutIs | vox_json.c:933-939 | a pretty line starts with a line break and its indentation; compact text has neither |
| JsonGrammar.ArrayLayout | vox_json.c:1015-1032 | two items: each on its own line one level deeper, a comma between them, the bracket on a line of its own; compact, only the comma |
| JsonGrammar.ObjectLayout | vox_json.c:1033-1050 | one member: on its own line, a colon and, when pretty, a blank before the value; without items or members the brackets stand together |
| JsonRoundTrip.IntTextValue | vox_json.c:988-999 | the text of an integer is a decimal number without leading zero, and its value is the integer |
| JsonRoundTrip.StringBack | vox_json.c:254-327 | parsing a quoted string yields its escaped spelling without leading blanks, for every string |
| JsonRoundTrip.NumberBack | vox_json.c:120-220 | parsing the decimal text of an integer within 2^53 - 1 yields the integer |
| JsonRoundTrip.ValueBack | vox_json.c:488-534 | parsing any tree's text, followed by anything that cannot continue a number, yields its spelling and stops right there |
| JsonRoundTrip.RoundTrip | vox_json.c:537-577 | parsing the serialised form, compact or pretty, uses all input and returns the tree with strings and names in their spelling, for every tree of such integers |
| JsonRoundTrip.SpelledExactly | vox_json.c:942-972 | a tree is its own spelling if and only if no string or name needs escaping or starts with a blank |
| JsonRoundTrip.RoundTripExactly | vox_json.c:537-577 | the very tree comes back if and only if that is so |
| JsonRoundTrip.BlankAndBreak | vox_json.c:537-577 | a string of one blank comes back empty, and a line break comes back as backslash and n |
| Digest.FoldBlock | vox_crypto.c:174-177 | compressing one more block extends the fold |
| Digest.IndexFromCount | vox_crypto.c:160-166 | the buffer index taken from the low word of the bit count is the message length modulo 64, also after wrap-around |
| Digest.Context.constructor | vox_crypto.c:468-479 | no message yet, the initial state |
| Digest.Context.Update | vox_crypto.c:156-187 | the context stands for the message with the input appended: state, count and buffer |
| Digest.Context.Compress | vox_crypto.c:170-178 | the buffered block and all whole blocks of the input are folded in, in order |
| Digest.Context.Final | vox_crypto.c:189-220 | padding leaves no partial block, and the digest is that of the padded message |
| Digest.HashParts | vox_crypto.c:534-599 | however a message is cut into update calls, the digest is the fold over the padded message |
| Digest.PaddingIsInjective | vox_crypto.c:564-599 | two messages with the same padded form are equal, while the bit count fits 64 bits |
| Digest.PaddedBytes | vox_crypto.c:564-599 | the padded message by position: the message, 0x80, zeros up to eight bytes before a block ends, and the bit count modulo 2^64, least significant byte first for MD5 and most significant first for SHA-1 and SHA-256 |
| Digest.InitialWords | vox_crypto.c:468-479 | the initial words: bytes counting up and down for MD5 and SHA-1, the fractions of the square roots of the first eight primes for SHA-256 |
| Digest.DigestBytes | vox_crypto.c:396-402 | word i of the state makes bytes 4 i to 4 i + 3 of the digest, in the byte order of the algorithm |
| Digest.DigestSizes | vox_crypto.c:396-402 | digests of 16, 20 and 32 bytes |
| Crc32.BitStepsXor | vox_crypto.c:1054-1070 | the bitwise register steps are linear |
| Crc32.TableStep | vox_crypto.c:1099-1103 | one table look-up is eight bitwise steps |
| Crc32.WordSteps | vox_crypto.c:1092-1104 | adding a little-endian word and four table steps equal four bytes taken one by one |
| Crc32.RegisterConcat | vox_crypto.c:1077-1114 | taking in a and then b is taking in their concatenation |
| Crc32.Crc.ComputeTable | vox_crypto.c:1054-1070 | every table entry is eight bitwise steps from its index |
| Crc32.Crc.TableEntry | vox_crypto.c:1054-1070 | the inner loop for one entry |
| Crc32.Crc.AddByte | vox_crypto.c:1083-1087 | one byte by the table is one byte of the bitwise reflected CRC |
| Crc32.Crc.AddWord | vox_crypto.c:1092-1104 | one word by the table is its four bytes of the bitwise reflected CRC |
| Crc32.Crc.Update | vox_crypto.c:1077-1114 | the whole update equals the bit-by-bit CRC with polynomial 0xEDB88320, for any data, starting register and alignment |
| Crc32.ChecksumOfParts | vox_crypto.c:1072-1124 | updates part by part yield the checksum of the concatenation |
| Crc32.CheckValue | vox_crypto.c:1072-1124 | the checksum of the ASCII digits 1 to 9 is the published check value 0xCBF43926 |
| Crc32.Residue | vox_crypto.c:1072-1124 | any message followed by its own checksum leaves the residue 0xDEBB20E3 in the register |
| Base64.RoundTrip | vox_crypto.c:843-1047 | decoding an encoding yields the bytes, in both alphabets and for the URL decoder on standard text, if and only if the output has the room that the decoder demands |
| Base64.UrlDemandsMore | vox_crypto.c:971-990 | the URL decoder does not decode the text of one byte into room for one byte |
| Base64.WritesInsideExactly | vox_crypto.c:843-1047 | for n digits and p padding characters, no text makes a decoder write more than the given size if and only if there is no padding, or no digit, or n is no multiple of four (and, for the URL decoder, not three more than one before two padding characters) |
| Base64.RoomIsExact | vox_crypto.c:971-990 | what the decoder demands for an encoding: the exact length, or one or two bytes more for the URL decoder on unpadded text |
| Base64.DigitsDecode | vox_crypto.c:866-901 | group by group the digits give back the bytes |
| Base64.AlphabetIs | vox_crypto.c:751-841 | the digits are those of the alphabets of sections 4 and 5 of RFC 4648, written out |
| Base64.ValueIs | vox_crypto.c:791-841 | a decoder gives a character the value of its place in the alphabet; the URL decoder knows both alphabets |
| Base64.DigitsAre | vox_crypto.c:751-789 | the four digits of three bytes are their 24 bits in order, six at a time |
| Base64.GroupIs | vox_crypto.c:866-901 | a group of four digits decodes exactly if all of them are in the alphabet |
| Base64.BitsBack | vox_crypto.c:866-901 | the three bytes of a group hold the 24 bits of its digits in order |
| Base64.AcceptedExactly | vox_crypto.c:866-901 | which digit texts decode: all digits that are read are in the alphabet, and what follows the last whole group fits the padding |
| Base64.Examples | vox_crypto.c:751-789 | encodings of section 10 of RFC 4648 |
| Base64.EncodeTo | vox_crypto.c:751-789 | -1 and an unchanged output exactly if text and NUL may not fit; otherwise the text, its NUL and its length |
| Base64.DecodeStandard | vox_crypto.c:843-906 | the loop, the trimming of blanks and the padding cases write exactly what Decode says, change nothing behind it, and return its length or -1 |
| Base64.DecodeUrl | vox_crypto.c:961-1047 | the same for the URL alphabet with optional padding |
| MinHeap.RootIsLeast | vox_mheap.c:193-196 | heap order puts a least element at the root |
| MinHeap.SiftUp | vox_mheap.c:49-63 | one exchange with the parent leaves only the parent possibly out of place |
| MinHeap.SiftDown | vox_mheap.c:66-94 | one exchange with the smaller child leaves only the child possibly out of place, and mends the place above |
| MinHeap.Heap.HeapifyUp | vox_mheap.c:49-63 | restores heap order with the same elements, and does nothing if the order already holds |
| MinHeap.Heap.HeapifyDown | vox_mheap.c:66-94 | the element sinks with the same elements kept; heap order holds if it moved, or if it started at the root |
| MinHeap.Heap.Expand | vox_mheap.c:97-120 | twice the capacity and the same elements; -1 exactly if that overflows |
| MinHeap.Heap.Push | vox_mheap.c:172-190 | heap order is kept and the multiset gains exactly the element |
| MinHeap.Heap.Pop | vox_mheap.c:199-215 | NULL for an empty heap; otherwise a least element leaves the multiset and heap order is kept |
| MinHeap.Heap.Settle | vox_mheap.c:308-315 | sinking and then rising puts an element in place that may be out of order both ways |
| MinHeap.Heap.TakeOut | vox_mheap.c:298-315 | removal at any position keeps heap order and takes away just that element |
| MinHeap.Heap.MoveLast | vox_mheap.c:304-306 | the elements without the one at the position, the last one in its place |
| MinHeap.Heap.Remove | vox_mheap.c:282-318 | one occurrence leaves the multiset; -1 and no change exactly if there is none |
| MinHeap.Heap.Drain | vox_mheap.c:199-215 | as many pops as there are elements yield all of them in order |
| PoolModel.SlotIndex | vox_mpool.c:72-85 | the least size class that fits, and none exactly above 8192 bytes |
| PoolModel.SizesDouble | vox_mpool.c:20-22 | the sizes run from 16 bytes to 8192, each twice the one before |
| PoolModel.LiveApart | vox_mpool.c:208-279 | blocks in use do not overlap and are aligned to 8 bytes |
| PoolModel.TakenOk | vox_mpool.c:267-278 | taking the head of a free list keeps the pool's invariant |
| PoolModel.GivenOk | vox_mpool.c:328-337 | pushing a block back keeps the pool's invariant |
| PoolModel.ExpandedOk | vox_mpool.c:118-158 | carving a new chunk and linking its blocks in front of the free list keeps the pool's invariant |
| PoolModel.LargeAddedOk | vox_mpool.c:229-252 | a new large block at the front of the doubly linked list keeps the pool's invariant |
| PoolModel.BigUnlinked | vox_mpool.c:305-313 | unlinking any node leaves the list of the others |
| PoolModel.LargeRemovedOk | vox_mpool.c:299-320 | freeing a large block keeps the pool's invariant |
| PoolModel.ResetOk | vox_mpool.c:444-495 | refilled free lists and no large blocks satisfy the pool's invariant |
| MemPool.Pool.constructor | vox_mpool.c:167-205 | an empty pool |
| MemPool.Pool.ThreadBlocks | vox_mpool.c:132-152 | the loop links all blocks of a chunk in order and the last one to the old list |
| MemPool.Pool.ExpandSlot | vox_mpool.c:118-158 | the free list gains exactly the new blocks; nothing changes when no memory is granted |
| MemPool.Pool.AddChunk | vox_mpool.c:127-155 | the fields of a new chunk make the pool that Expanded describes |
| MemPool.Pool.AllocLarge | vox_mpool.c:214-253 | a new block of the exact size, or NULL exactly on overflow or without memory |
| MemPool.Pool.PushLarge | vox_mpool.c:229-252 | the fields of a new large block make the pool that LargeAdded describes |
| MemPool.Pool.TakeFirst | vox_mpool.c:267-278 | the first free block of the class comes into use |
| MemPool.Pool.Alloc | vox_mpool.c:208-289 | a block not in use before, of at least the size, aligned; total_used grows by its size; NULL exactly in the failing cases, with nothing changed |
| MemPool.Pool.FreeBlock | vox_mpool.c:292-338 | just that block goes out of use and total_used shrinks by its size; a large block's memory goes back to the system, and no other |
| MemPool.Pool.GiveBack | vox_mpool.c:328-337 | a block of a size class goes out of use and to the front of its free list |
| MemPool.Pool.FreeLarge | vox_mpool.c:299-320 | a large block goes out of use and leaves the list, and its memory goes back to the system |
| MemPool.Pool.Unlink | vox_mpool.c:305-313 | the links are those of the list without the node |
| MemPool.Pool.GetSize | vox_mpool.c:350-374 | the usable size of a block, 0 for NULL |
| MemPool.Pool.Realloc | vox_mpool.c:377-441 | NULL exactly for size 0, or if a new block is needed and its size overflows or the memory that it needs is not granted; otherwise a block of the capacity of the new size, the old one exactly if it is of that size class, with the first min(old, new) bytes kept; no other block in use changes a byte, and on failure nothing changes |
| MemPool.Pool.Move | vox_mpool.c:424-438 | the first n bytes of one block go to another, no other byte changes, and the first block goes out of use |
| MemPool.Pool.ResetSlot | vox_mpool.c:459-489 | one class's free list is rebuilt from its chunks |
| MemPool.Pool.ResetSlots | vox_mpool.c:459-489 | so are the free lists of all classes, and their chunks and totals stay |
| MemPool.Pool.Reset | vox_mpool.c:444-495 | nothing is in use, large blocks go back to the system, every block ever carved is free again, and the invariant holds |
| Barrier.StepInv | vox_mutex.c:657-683 | every arrival and every wake-up, spurious or not, keeps the invariant |
| Barrier.LastArrival | vox_mutex.c:664-671 | the thread that completes the count finds all others asleep in the same round |
| Barrier.GenerationTells | vox_mutex.c:673-680 | comparing 32-bit generations tells the open round from the last one, whatever the wrap-around |
| Barrier.NoneLeavesEarly | vox_mutex.c:699-716 | no call of a round returns before all threads have arrived in it |
| Barrier.ArrivalReturns | vox_mutex.c:657-683 | a call returns without sleeping exactly if all other threads have arrived in its round, and then the round is over |
| Barrier.WakeReturns | vox_mutex.c:673-683 | a thread that wakes returns exactly if its round is over, and goes back to sleep without a change otherwise |
| Barrier.SomeoneCanGo | vox_mutex.c:699-716 | in every state some thread can make progress |
| Barrier.RunInv | vox_mutex.c:699-716 | the invariant holds in every state of every run |
| Barrier.RoundsStayTogether | vox_mutex.c:699-716 | over every run: no thread has returned more often than any other has arrived, and the barrier is at most one round ahead of a sleeper |
| List.List.constructor | vox_list.h:122-126 | the empty circular list |
| List.List.Empty | vox_list.h:144-146 | the sentinel points to itself exactly if there are no nodes |
| List.List.PushBack | vox_list.h:246-249 | the node is last in a consistent ring |
| List.List.Remove | vox_list.h:258-262 | the ring without the node, and the node isolated |
| List.List.Splice | vox_list.h:317-334 | the other list's nodes follow this list's, and the other list is empty |
| Handles.Loop.AddRef | vox_handle.c:47-54 | one more reference |
| Handles.Loop.New | vox_handle.c:18-44 | a fresh handle with one reference, known to the loop and in none of its lists |
| Handles.Loop.Release | vox_handle.c:57-85 | one reference less, never below zero; the last one of a closing handle queues it, once, and takes it from the active list; any other leaves lists and flags as they were |
| Handles.Loop.CloseHandle | vox_handle.c:98-121 | closing, not active any more, one reference given up, queued exactly if that was the last; a second close changes nothing |
| Handles.Loop.Join | vox_handle.c:124-146 | an open handle becomes active once; -1 for a closing one |
| Handles.Loop.Leave | vox_handle.c:149-167 | the handle leaves the active list, and the counter follows |
| Handles.Loop.ProcessOne | vox_handle.c:216-228 | one queued handle: its callback runs once, whatever further handles it closes |
| Handles.Loop.ProcessClosing | vox_handle.c:197-229 | the callback of every handle queued before runs exactly once and no other, and handles closed by callbacks wait for the next call |
| Handles.Loop.RunCallback | vox_handle.c:216-228 | a callback runs once, whatever references it takes, gives up or closes, and starts no other |
| Handles.Loop.NoneForgotten | vox_handle.c:57-121 | a closed handle without references has had its callback, or waits for the next round, exactly if it had a reference when it was closed |
| Handles.Loop.Run | vox_handle.c:18-229 | over any sequence of operations and rounds: no callback runs twice, and none while its handle has references |
| Handles.Loop.CloseAndGiveUp | vox_handle.c:57-121 | a handle with any number of references is closed and all are given up: its callback runs in the next round, and not before |
| Handles.ActiveCountIs | vox_handle.c:124-167 | the active count is the length of the active list and the number of active flags |

## Left out

- MpscQueue.StepInv: positions are unbounded integers, so the wrap-around of the 64-bit counters is not modelled; memory is sequentially consistent.
- RegexCompiler.Compiler.ApplyQuantifier: counted repetition is limited to bodies of one reading state (characters, classes, and these in non-capturing groups); what a copy of any other body reads is stated by CopyReads, but not what becomes of the whole pattern.
- RegexCompiler.Compiler.ExactCount: the same limit on its body, and so for AtLeastCount and BetweenCount.
- RegexCompiler.Compiler.Compile: patterns that repeat another group by a positive count are left out, here and in all that compiles.
- RegexCompiler.Compiler.CompileExpr: starts from the syntax tree; the surface syntax, anchors, lookaround and the recording of captures are not modelled, and allocation does not fail.
- RegexMatcher.CompilePattern: the pattern's text and its tree are given together; that parsing the one yields the other is not modelled.
- RegexMatcher.MatchWhole: the text is shorter than 2^32 - 1, beyond which the 32-bit generation wraps and old stamps become valid again.
- RegexMatcher.FindAll: the same bounds as for Search.
- RegexMatcher.Search: the text has no NUL, which strstr takes for its end; and the same bound on its length.
- vox_regex_replace and match_internal's storage of groups are left out.
- States of an automaton and list entries are indices into an arena instead of pointers.
- HashTable.Table.Set: the release functions for keys and values, and the overflow of a doubled capacity, are not modelled; the hash is any function.
- HashTable.Table.constructor: capacities above 2^63, for which the rounded capacity is 0 and no array is found, are left out, and an array of any smaller capacity is found.
- RbTree.RbTree.Delete: the release of the node's memory and of key and value is not modelled; Dafny objects stay readable.
- Tree traversals, minimum, maximum, clearing and destruction would only add easy members.
- JsonCode.ScanNumberValue: the value of a number's text is what strtod says, a parameter, assumed exact on integers within 2^53 - 1 for the round trips; the %.15g format likewise.
- JsonGrammar.UnescapeBack: the reading of escaped surrogates, which the serialiser never writes, is left out.
- JsonCode.ParseText: error messages and positions, the parent pointers, memory and the recursion depth are not modelled; lists of items are sequences.
- Digest.Context.Update: the compression functions are parameters; the big-endian branches and HMAC are left out. MD5 and SHA-1 take less than 2^32 - 63 bytes in one call, because their index is 32 bits wide.
- Digest.DigestSizes: that the compression functions keep the number of words is assumed, since they are parameters.
- Digest.PaddingIsInjective: limited to messages whose bit count fits 64 bits, as the length field does.
- Base64.DecodeStandard: the output reaches as far as the decoder writes, which the given size does not always guarantee (WritesInsideExactly); the same for DecodeUrl.
- MinHeap.Heap.Push: NULL elements, which push and remove refuse, are not modelled, and memory for a larger array is always found.
- MemPool.Pool.Alloc: memory is addressed by numbers, and what malloc grants is a parameter (any fresh region aligned to 16 bytes, or none); the thread lock, statistics, destruction and the overflow of a chunk's size are left out.
- MemPool.Pool.FreeBlock: the pointer is one that the pool has given out and not taken back, as the source demands.
- Barrier.StepInv: the mutex makes the parts of a call that hold it single steps; errors of the condition variable and the native barriers are left out.
- Handles.Loop.ProcessClosing: the two lists are sequences (List has the pointers), callbacks are lists of operations on handles, and a callback does not process closing handles itself.
- Handles.Loop.ProcessOne: the handles that a callback acts on belong to the same loop.
- Handles.Loop.AddRef: a handle is not referenced again after its count has reached zero; the 32-bit count does not wrap.
- The single-producer queue, the ordinary growing queue, and all of I/O, timers, processes and configuration are left out.
