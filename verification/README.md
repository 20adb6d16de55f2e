# Verification of the ingress plugin's algorithms

A Dafny model of the hardest algorithms in the repository of the Kubernetes ingress
plugin for Traffic Server: its own code and the libraries under `contrib/`, with proofs
of what they promise. `dafny verify dfyconfig.toml` checks everything. The rax library is
behind `util/hash.c` only when `HASH_USE_RAX` is set; the chained table that is used
otherwise is modelled as well. The main results:

- **Rax** (`Rax*.dfy`). The radix tree is modelled on the heap, with node objects that
  are split, relinked, reclaimed and recompressed in place. Every run of inserts,
  removals and lookups answers as a finite map; the layout (sorted edges, compressed
  nodes of two bytes or more, no dead nodes) and both counters are kept; each call leaves
  a compact tree, one without two nodes that could be one, exactly under a condition on
  the key; iteration yields the sorted keys, and seeks find the least key that meets the
  bound.
- **Brotli encoder.** The capped Viterbi block splitter is optimal
  (`FindBlocks.dfy`). Both parsers, greedy (`Greedy.dfy`) and Zopfli (`Zopfli*.dfy`),
  write commands (`Commands.dfy`, `Distances.dfy`) from which a decoder that follows
  RFC 7932 reproduces the input, whatever the costs, and it is proved exactly when the
  Zopfli parser fails, and which copies it tries and takes. Clustering, which is greedy
  while its queue has room, renumbering, block splits and block switches
  (`Cluster*.dfy`, `Renumber.dfy`, `Block*.dfy`) up to one theorem over splitter and
  coder (`SplitCoder.dfy`), the context-map codec (`Context*.dfy`), the Huffman merge and
  its sort (`Huffman*.dfy`, `TreeSort.dfy`).
- **SHA-256 and SHA-512** (`Sha2*.dfy`). Any chunking gives the digest of the padded
  message exactly if every update is counted, which is a condition on the lengths and
  alignments of the updates.
- **Requests** (`Base64.dfy`, `StrMatch.dfy`, `UnixGlob.dfy`, `Query*.dfy`,
  `CacheKey.dfy`): canonical queries and cache keys, both with an exact condition for
  being equal, and exactly when a pattern is the UNIX glob it is documented to be.
- **Cluster state** (`HashTable.dfy`, `Endpoints.dfy`, `Watcher.dfy`): the chained table
  as a map of stacks, the comparison that lets updates be skipped, and the event
  stream for any chunking.

## Promises that hold only under a condition

- `rax.c` (lines 966 to 1008) recompresses after a removal, and gives "FOO" and "FOOBAR"
  as an example in which the removal of "FOO" leaves one string. It leaves two nodes
  (`RaxRun.RemoveLeavesChain`), because a removed key is looked at only if its node has one
  byte. A removal leaves a compact tree compact exactly unless the key sits in a
  compressed node that then joins a chain (`RaxDict.Rax.Remove`); an insertion exactly
  unless it splits, before its last byte, a string that leads to a chain
  (`RaxDict.Rax.Insert`, `RaxRun.InsertLeavesChain`). Without removals every tree is compact
  (`RaxRun.Run`).
- `StartPosQueue` is documented to keep the smallest eight cost differences. A push into
  a full queue drops the last entry whatever the new one costs
  (`ZopfliQueue.KeepsLeastIff`, `ZopfliQueue.NotAlwaysLeast`).
- `sha256_process_block` adds a 64-bit length to a 32-bit word with one carry. A split of a
  message is hashed as the standard says exactly if every update is counted
  (`Sha2Context.ChunksIff`); `Sha2Context.CarryFails` is a case where one is not.
- The Zopfli node array invariant (`backward_references_hq.h`, lines 74 to 79) and the end
  of the backtrace fail exactly if a block of 2^24 bytes is copied whole
  (`ZopfliPath.FindNodes`, `ZopfliPath.WalkIff`), because a node keeps 24 bits of a copy
  length; `ZopfliPath.ConstantFails` is such a block. A block of fewer bytes never is.
- The word of `InitCommand` has the same limit (`Commands.WordIff`). From the words of a
  block, a decoder reproduces the text exactly if no copy has 2^24 bytes
  (`Commands.StoredIff`, in the contract of `Greedy.CreateBackwardReferences`), which holds
  for every block of fewer bytes; `Commands.ConstantLost` is a case where it does not.
- `docs/caching.md` (line 151) promises UNIX globs, which POSIX.1-2017 defines in section
  2.13.1 of its Shell Command Language. A pattern matches the same strings for strmatch
  and as a UNIX glob exactly if it is read alike, or matches nothing for either
  (`UnixGlob.UnixIff`): no letter stands for itself, no escape is before the last byte, and
  every bracket expression is closed, not by its first byte, and lists the same bytes for
  both. Strings on which they differ: the other case of a letter (`UnixGlob.CaseFolds`),
  `a` for `\a` (`UnixGlob.EscapeLast`), for `[a-]` (`UnixGlob.DashLast`) and for `[]a]`
  (`UnixGlob.CloseFirst`), `[a` for itself (`UnixGlob.OpenBracket`), and the upper end of a
  range from a byte below 128 to one above (`UnixGlob.SignedRange`). A character class such
  as `[[:alpha:]]` matches no single byte (`UnixGlob.NamedClass`).
- `util/base64.c` promises -1 for invalid encodings. The exact set that is accepted is that
  of `Base64.DecodingIff`, which includes more than the standard (`Base64.Lenient`).
  Encoding what was decoded gives the string back exactly if it is an encoding of the
  standard (`Base64.CanonicalIff`).
- `remap_make_cache_key` stores lengths in one or two bytes. A key tells its request from
  the others exactly when every part fits its prefix (`CacheKey.KeyTellsIff`);
  `CacheKey.Collides` gives two requests with one key.
- `util/hash.h` leaves a second set of one key undefined. The code pushes a value that a
  delete uncovers again, and that is what is modelled.

## Assumptions

- Rax: no allocation fails, and keys are no longer than `RAX_NODE_MAX_SIZE`.
- Costs are exact reals. `FindBlocks` needs symbol costs that stay below its 1e99 start
  value, `HistogramCombine` merge costs below 1e99, and Zopfli literal runs below its
  infinity of 1.7e38.
- Hashers and match finders are functions that report only true matches, with the length
  itself as the length code except for words of the dictionary, and those and their codes
  have fewer than 256 bytes; block lengths are at most 2^24 and distances below 2^25, as
  the encoder's limits give them.
- The cost model, `BrotliPopulationCost`, `ClusterCostDiff`,
  `BrotliHistogramBitCostDistance`, the compression function, the hash function of the
  table and the JSON parser are parameters. Costs of histograms are taken to lie in
  [0, 1e99), and `ClusterCostDiff` not to be positive.
- Patterns of the glob matcher can be read within their bounds and a NUL that follows them,
  which is looked at when the last two bytes are stars and which every hash key has, and
  they have no literal equal to the byte behind the string, which the source compares
  before it looks for the end. Characters are signed.
- The Huffman merge has fewer than 2^14 leaves, whose counts sum to less than 2^32 - 1, so
  that 16-bit indices and the sentinel are right.
- An object's own name is the name in the metadata of its event: `ingress_make`,
  `service_make`, `secret_make` and `endpoints_make` read it there.
- The tables of all namespaces are one hash table with kind, namespace and name as key.

## Model

| member | source | states |
|---|---|---|
| `RaxTree.GetPut` | contrib/rax/rax.c:755-770 | storing a node through its parent link changes the lookups below that node's path key and no others |
| `RaxTree.PutUpdated` | contrib/rax/rax.c:755-770 | an update of one subtree is the same update of the whole map |
| `RaxTree.TallyPut` | contrib/rax/rax.c:411-793 | replacing a subtree changes the counts of keys and nodes by the difference of the two subtrees |
| `RaxSteps.LinkCut` | contrib/rax/rax.c:635-667 | cutting a node with one child in two, at any byte, changes no lookup |
| `RaxSteps.SplitSame` | contrib/rax/rax.c:572-677 | the nodes of split algorithm 1 look up the same keys as the compressed node they replace |
| `RaxSteps.SplitTally` | contrib/rax/rax.c:627-667 | algorithm 1 adds one node for the trimmed part and one for the postfix, each exactly when it is not empty |
| `RaxSteps.SplitKeyUpdates` | contrib/rax/rax.c:678-737 | algorithm 2 is the insertion of the key that ends inside the compressed node |
| `RaxSteps.GetAddKid` | contrib/rax/rax.c:216-290 | a lookup in a node with an added edge goes to the new child exactly for that byte |
| `RaxSteps.CompressSame` | contrib/rax/rax.c:312-343 | turning a childless node into a string that leads to a fresh node adds no key |
| `RaxSteps.DropSame` | contrib/rax/rax.c:830-891 | dropping a child without keys changes no lookup |
| `RaxSteps.MergedSame` | contrib/rax/rax.c:1041-1084 | one compressed node in place of a chain of only children looks up the same keys |
| `RaxSteps.MergedTally` | contrib/rax/rax.c:1055-1070 | recompressing a chain of m nodes keeps the number of keys and removes m - 1 nodes |
| `RaxSteps.ChainFits` | contrib/rax/rax.c:1030-1039 | with every key no longer than the node size limit, the bytes of a chain fit in one node, so the scan is never stopped by that limit |
| `RaxSteps.Prune` | contrib/rax/rax.c:934-947 | unlinking a branch without keys keeps the map, takes its nodes off the counts, and leaves at most that node against the documented layout |
| `RaxSteps.Recompress` | contrib/rax/rax.c:1009-1089 | recompressing a chain of m nodes keeps the map, the documented layout and the number of keys, and removes m - 1 nodes |
| `RaxForm.NeatPut` | contrib/rax/rax.c:755-770 | a replacement leaves a tree compact exactly if it is compact itself, all beside it is, and it does not go on a chain of its parent |
| `RaxForm.Recompacts` | contrib/rax/rax.c:1009-1089 | the chain merged from its topmost node to its end leaves a compact tree if all but one node of it was compact |
| `RaxForm.StrandsIff` | contrib/rax/rax.c:920-960 | where nothing is recompressed the tree is compact exactly unless the node is compressed and joins a chain |
| `RaxForm.DropAllBut` | contrib/rax/rax.c:934-955 | dropping a branch leaves all compact but the links of the node it hung from |
| `RaxForm.InsertNeat` | contrib/rax/rax.c:411-793 | an insertion leaves a compact tree compact exactly unless it splits a string that leads to a chain before its last byte, which a strictly compact tree never has |
| `RaxForm.StoppedInsert` | contrib/rax/rax.c:411-793 | what is done at the node where the walk stops is the insertion on the whole tree |
| `RaxForm.SplitLeads` | contrib/rax/rax.c:572-677 | algorithm 1 and the loop of insertions behind it give the tree of the insertion |
| `RaxHeap.Splice` | contrib/rax/rax.c:411-1092 | when only the subtree below one node object was rewritten, the whole heap structure represents the tree with that subtree replaced |
| `RaxHeap.BuildSplit` | contrib/rax/rax.c:590-677 | the node objects built by algorithm 1 represent the split of the compressed node |
| `RaxHeap.BuildKeySplit` | contrib/rax/rax.c:690-737 | the two node objects built by algorithm 2 represent the cut of the compressed node, the lower one being the key |
| `RaxHeap.FindParentLink` | contrib/rax/rax.c:815-824 | returns the slot of the parent that holds the child |
| `RaxHeap.OnlyChild` | contrib/rax/rax.c:1030-1033 | the test raxRemove makes on a child tells whether the chain goes on |
| `RaxOrder.KeyIff` | contrib/rax/rax.c:1177-1269 | the preorder list of keys holds exactly the stored keys |
| `RaxOrder.KeysSorted` | contrib/rax/rax.c:1177-1269 | preorder is strictly increasing byte order |
| `RaxOrder.KeysCount` | contrib/rax/rax.c:771-776 | the number of listed keys is the number of key nodes |
| `RaxOrder.DictSize` | contrib/rax/rax.c:771-776 | numele is the size of the map |
| `RaxOrder.DictInsert` | contrib/rax/rax.c:411-793 | an insertion on the tree is the update of the finite map |
| `RaxOrder.DictRemove` | contrib/rax/rax.c:895-1092 | a removal on the tree is the removal from the finite map |
| `RaxCursor.GoDeeper` | contrib/rax/rax.c:1195-1213 | the keys after a node's own key start in its first child |
| `RaxCursor.GoNext` | contrib/rax/rax.c:1219-1266 | the keys after a finished subtree start in the next edge above it |
| `RaxCursor.SeekEdge` | contrib/rax/rax.c:1467-1480 | at a normal node without the searched byte the bound falls between its children |
| `RaxCursor.SeekString` | contrib/rax/rax.c:1481-1499 | at a compressed node that differs from the bound the comparison of one byte decides for all keys below |
| `RaxCursor.SeekInside` | contrib/rax/rax.c:1514-1526 | a bound that ends at a node or inside a compressed string precedes exactly the keys below it that go on |
| `RaxDict.StoppedGet` | contrib/rax/rax.c:804-807 | where the walk stops decides whether the key is stored, and its value |
| `RaxDict.SplitGrows` | contrib/rax/rax.c:572-677 | after algorithm 1 the insertion can go on below the split node |
| `RaxDict.SplitKeyInserts` | contrib/rax/rax.c:678-737 | algorithm 2 completes the insertion |
| `RaxDict.MatchBytes` | contrib/rax/rax.c:373-377 | the number of bytes of a compressed node that match the key |
| `RaxDict.FindSlot` | contrib/rax/rax.c:246-249 | the slot that keeps the edges strictly sorted |
| `RaxDict.Rax.LowWalk` | contrib/rax/rax.c:363-404 | the walk stops at the node, position and split offset that the key determines, with the parent link and the stack of nodes passed |
| `RaxDict.Rax.Find` | contrib/rax/rax.c:799-808 | returns the value the map holds under the key, or not-found |
| `RaxDict.Rax.AddChild` | contrib/rax/rax.c:216-290 | the tree grows by one empty child below a new edge in its sorted place |
| `RaxDict.Rax.CompressNode` | contrib/rax/rax.c:312-343 | a childless node becomes a string leading to a fresh child |
| `RaxDict.Rax.RemoveChild` | contrib/rax/rax.c:830-891 | child i is dropped and the other edges stay in order |
| `RaxDict.Rax.SplitMismatch` | contrib/rax/rax.c:572-677 | algorithm 1 on the heap: the tree with the compressed node cut at j, and the node object that holds the mismatching byte (SplitSame: same map) |
| `RaxDict.Rax.SplitAtKey` | contrib/rax/rax.c:678-737 | algorithm 2 on the heap: the tree with the compressed node cut at j, the lower half being the key (SplitKeyUpdates: the key inserted) |
| `RaxDict.Rax.Insert` | contrib/rax/rax.c:411-793 | the map updated at the key; *old and the 0/1 result tell whether it was there; the layout, numele and numnodes stay right; the tree is that of one recursive function, a compact one stays compact exactly unless a string that leads to a chain is split, and one built by insertions stays strictly so |
| `RaxDict.Rax.TryCompress` | contrib/rax/rax.c:1009-1089 | recompression from a node with an only child that is not a key keeps the map, the layout and both counters, and leaves a compact tree if all but the links of that node was compact |
| `RaxDict.Reclaim` | contrib/rax/rax.c:920-933 | the upward reclamation frees only nodes without keys and stops at the node the rest hangs from |
| `RaxDict.Rax.Detach` | contrib/rax/rax.c:934-955 | the reclaimed branch is unlinked from its parent: same map, documented layout, right counters, and what was compact beside it stays so |
| `RaxDict.Rax.Remove` | contrib/rax/rax.c:895-1092 | the map without the key; *old and the 0/1 result tell whether it was there; the layout, numele and numnodes stay right, and a compact tree stays compact exactly unless the key sits in a compressed node that then joins a chain |
| `RaxDict.ScanChain` | contrib/rax/rax.c:1027-1039 | the number of nodes of the whole chain of only children and of its bytes |
| `RaxDict.CollectChain` | contrib/rax/rax.c:1060-1076 | the bytes of the chain and the node it leads to |
| `RaxIter.GoUp` | contrib/rax/rax.c:1214-1267 | climbing ends at the next edge above, or at the end when there is none |
| `RaxIter.Advance` | contrib/rax/rax.c:1177-1269 | the next step ends on the least stored key beyond the current one, or reports that there is none |
| `RaxIter.RebuildKey` | contrib/rax/rax.c:1441-1461 | the key spelled out from the stack is the path key of the node |
| `RaxIter.RaxIterator.Next` | contrib/rax/rax.c:1538-1548 | yields the least pending key, or ends exactly when none is left |
| `RaxIter.RaxIterator.Seek` | contrib/rax/rax.c:1370-1533 | after ">", ">=", "=" and "^" the iterator stands on the least stored key that meets the bound, or at the end if there is none |
| `RaxRun.Run` | contrib/rax/rax.c:411-1092 | from raxNew on, every run of insert, remove and find calls answers as a finite map does, the counters are the sizes of the map and the tree, and the trees are compact throughout exactly if no call spoils them, and always if nothing is removed |
| `RaxRun.AlwaysCompactIff` | contrib/rax/rax.c:411-1092 | a run has compact trees throughout exactly if none of its calls is one that leaves two nodes that could be one |
| `RaxRun.InsertsCompact` | contrib/rax/rax.c:411-793 | a run without removals has compact trees throughout |
| `RaxRun.RemoveLeavesChain` | contrib/rax/rax.c:956-992 | after inserting FOOBAR and FOO and removing FOO the tree is not compact, against the example in the source |
| `RaxRun.InsertLeavesChain` | contrib/rax/rax.c:635-667 | after inserting A, ABC and ABCDE, removing ABC and inserting AX the tree is not compact |
| `RaxRun.Traverse` | contrib/rax/rax.c:1370-1548 | seek "^" and next until it fails yields exactly the preorder list of keys (by KeysSorted strictly increasing, by KeyIff complete) with their values, numele of them |
| `RaxRun.Free` | contrib/rax/rax.c:1096-1116 | freeing the tree brings numnodes to zero, so the assertion holds |
| `FindBlocks.Bound` | contrib/brotli/enc/block_splitter_inc.h:106-134 | no labelling of the data is cheaper than the recurrence of the forward pass says |
| `FindBlocks.AddCosts` | contrib/brotli/enc/block_splitter_inc.h:113-120 | the costs are the true differences to the best labelling so far, and the cheapest code is recorded |
| `FindBlocks.SwitchIs` | contrib/brotli/enc/block_splitter_inc.h:121-124 | the discounted switch cost starts at 77 percent of the nominal one and grows by 7 percent of it over 2000 positions in equal steps, and is the nominal one from there on |
| `FindBlocks.CapCosts` | contrib/brotli/enc/block_splitter_inc.h:125-133 | each difference is capped at the switch cost and its bit is set exactly when it is capped |
| `FindBlocks.TraceBack` | contrib/brotli/enc/block_splitter_inc.h:135-152 | following the bits back gives a labelling of the optimal cost and counts its blocks |
| `FindBlocks.FindBlocks` | contrib/brotli/enc/block_splitter_inc.h:67-154 | the labels cost no more, symbols plus switches, than any labelling of the data, and the result is the number of runs of equal labels |
| `Distances.CodeDecodes` | contrib/brotli/enc/backward_references.c:24-46 | the distance code chosen decodes, by section 4 of RFC 7932 and against the same cache, to the distance |
| `Commands.Reproduces` | contrib/brotli/enc/backward_references_inc.h:79-94 | a decoder that is given the literals, length codes and distance codes of commands that mean true copies reproduces the text and ends with the last distances of the encoder |
| `Commands.UpdateDistances` | contrib/brotli/enc/backward_references_inc.h:82-90 | the encoder's update of its last distances is the decoder's |
| `Commands.WordIff` | contrib/brotli/enc/command.h:115-171 | a copy length is read back from the word of InitCommand exactly if it has 24 bits, and then its code exactly if the two differ in the low byte only |
| `Commands.StoredIff` | contrib/brotli/enc/brotli_bit_stream.c:100-111 | from commands as they are read back from their words, whose copies have at most 2^24 bytes together, a decoder reproduces the text exactly if no copy has 2^24 bytes |
| `Commands.ConstantLost` | contrib/brotli/enc/command.h:115-171 | the second block of a constant text, of 2^24 bytes and written as one copy, is not reproduced from its word |
| `Greedy.Lazy` | contrib/brotli/enc/backward_references_inc.h:48-75 | the lazy search moves the start of the match forward and stays inside the block |
| `Greedy.Jump` | contrib/brotli/enc/backward_references_inc.h:109-137 | the jump over data that does not match never passes the end of the block |
| `Greedy.CreateBackwardReferences` | contrib/brotli/enc/backward_references_inc.h:36-143 | for any matcher that reports true matches: insert and copy lengths plus the literals left over cover block and carried literals, a decoder reproduces the text and ends with the encoder's distances, which stay in range, no copy is longer than the block, and the stored words of a block of at most 2^24 bytes give the text exactly if no copy has 2^24 bytes |
| `ZopfliNodes.Packed` | contrib/brotli/enc/backward_references_hq.c:220-228 | distance and short code come back through the accessors, and the copy length exactly if it has 24 bits, its code and the command length then too |
| `ZopfliNodes.WholeLost` | contrib/brotli/enc/backward_references_hq.c:220-228 | a copy of 2^24 bytes without literals reads back as a command of length 0 |
| `ZopfliNodes.GatherRight` | contrib/brotli/enc/backward_references_hq.c:330-347 | following shortcuts gives the distances of replaying the commands on the path |
| `ZopfliNodes.FrozenGrows` | contrib/brotli/enc/backward_references_hq.c:351-369 | evaluating one more node keeps what holds of the earlier ones |
| `ZopfliQueue.StartPosQueue.Push` | contrib/brotli/enc/backward_references_hq.c:251-265 | the ring holds, sorted, the new entry and the first seven of the old ones |
| `ZopfliQueue.KeepsLeastIff` | contrib/brotli/enc/backward_references_hq.c:237-265 | the documented promise to keep the smallest eight holds exactly when the queue has room or the new entry does not cost more than the last |
| `ZopfliQueue.NotAlwaysLeast` | contrib/brotli/enc/backward_references_hq.c:237-265 | a concrete push, of position 9 at cost difference 0 after positions 1 to 8 at -1, after which the smallest eight are not kept |
| `Zopfli.ComputeDistanceShortcut` | contrib/brotli/enc/backward_references_hq.c:300-321 | the shortcut is the latest node on the path that pushes a distance |
| `Zopfli.ComputeDistanceCache` | contrib/brotli/enc/backward_references_hq.c:330-347 | the four distances are those of replaying the path from the block start |
| `Zopfli.EvaluateNode` | contrib/brotli/enc/backward_references_hq.c:351-369 | the node gets its shortcut and is queued, with its cost difference and distances, exactly when its cost is at most the literal cost |
| `Zopfli.MatchRepeats` | contrib/brotli/enc/find_match_length.h:52-73 | what is found is a copy, and a longer one would not be |
| `ZopfliSearch.UpdateZopfliNode` | contrib/brotli/enc/backward_references_hq.c:217-228 | the node is as packed and no other node changes |
| `ZopfliCopies.IsNear` | contrib/brotli/enc/backward_references_hq.c:414-431 | with wrapping 64-bit indices a last distance is tried exactly when it is positive, inside the window and the ring, and the next byte agrees |
| `ZopfliSearch.TryCopy` | contrib/brotli/enc/backward_references_hq.c:447-450 | a node is replaced exactly when the copy reaches it at less cost |
| `ZopfliSearch.LastDistances` | contrib/brotli/enc/backward_references_hq.c:409-454 | the copies of the sixteen last distances are taken in order, and the longest one taken is returned |
| `ZopfliSearch.TryMatches` | contrib/brotli/enc/backward_references_hq.c:461-502 | the same for the matches, a dictionary word being taken only as a whole |
| `ZopfliSearch.ComputeMinimumCopyLength` | contrib/brotli/enc/backward_references_hq.c:273-296 | the first copy length whose end is not yet reached within the start cost and the extra bits of section 5 of RFC 7932 |
| `ZopfliSearch.UpdateNodes` | contrib/brotli/enc/backward_references_hq.c:372-505 | for every cost model under the infinity and all true matches: the node is evaluated and queued, all copies from the first command starts are tried, every node behind ends with the least of its cost and those of the copies that end there, the longest copy taken is returned, and the documented node array invariant is kept but for a command of length 0 at the end of a block of 2^24 bytes |
| `ZopfliCopies.TakeLeast` | contrib/brotli/enc/backward_references_hq.c:447-499 | a node tried with copies ends with the least of its cost and theirs, and with the copy that has it |
| `ZopfliCopies.TakeAllHolds` | contrib/brotli/enc/backward_references_hq.h:74-79 | whatever true copies are taken, the documented invariant is kept but for a command of length 0 at the end of a block of 2^24 bytes |
| `ZopfliCopies.TriedFine` | contrib/brotli/enc/backward_references_hq.c:372-505 | every copy that is tried is a true one, with a distance code that decodes to its distance |
| `ZopfliSearch.UpdateLaw` | contrib/brotli/enc/backward_references_hq.c:372-505 | no cost grows, no copy tried is cheaper than its end is then, and nothing behind the longest copy taken changes |
| `ZopfliSearch.LastTried` | contrib/brotli/enc/backward_references_hq.c:405-454 | from each of the first starts every near last distance is tried with every length that none before it had |
| `ZopfliSearch.MatchTried` | contrib/brotli/enc/backward_references_hq.c:456-503 | from the first two starts every match is tried with every length that none before it had, a dictionary word or a very long match only as a whole |
| `ZopfliSearch.BrokenIff` | contrib/brotli/enc/backward_references_hq.c:217-228 | the copies at the block start break the end of the block exactly if one of 2^24 bytes is among them, at a cost below infinity |
| `ZopfliPath.FindNodes` | contrib/brotli/enc/backward_references_hq.c:614-671 | the calls of UpdateNodes follow each other from the block start to its end, long copies being skipped, and the documented invariant holds afterwards exactly if no block of 2^24 bytes is copied whole (FullCopy, a condition on the inputs) |
| `ZopfliPath.ConstantFails` | contrib/brotli/enc/backward_references_hq.c:614-671 | the second block of a constant text is such a block when it has 2^24 bytes |
| `ZopfliPath.WalkIff` | contrib/brotli/enc/backward_references_hq.c:507-520 | the walk back from the last reached node ends exactly if the invariant holds; otherwise it never moves |
| `ZopfliPath.ComputeShortestPathFromNodes` | contrib/brotli/enc/backward_references_hq.c:507-520 | the walk back from the last reached node ends at 0 and links the path forwards |
| `ZopfliPath.CreateCommands` | contrib/brotli/enc/backward_references_hq.c:523-567 | the commands on the path and the literals left over cover the block, each is read back from its word, each distance code decodes to its distance, and a decoder reproduces the text and ends with the encoder's distances, which stay in range |
| `ZopfliPath.CreateZopfliBackwardReferences` | contrib/brotli/enc/backward_references_hq.c:675-693 | the whole parser: coverage, commands that are read back from their words, reproduction of the text and equal last distances in range, for any cost model under the infinity and any true matches, unless a block of 2^24 bytes is copied whole |
| `Cluster.CompareAndPushToQueue` | contrib/brotli/enc/cluster_inc.h:14-66 | the queue becomes that of PushOne, whose laws are PushOneQueue and OfferTracked |
| `Cluster.PushOneQueue` | contrib/brotli/enc/cluster_inc.h:14-66 | the pair that saves most, and of those the closest, stays first, and queued pairs are of live clusters at current costs |
| `Cluster.OfferTracked` | contrib/brotli/enc/cluster_inc.h:40-65 | a pair is queued at most once, and every pair offered that saves is queued unless the queue was full |
| `Cluster.UntouchedKeeps` | contrib/brotli/enc/cluster_inc.h:122-143 | the compaction keeps exactly the pairs that touch neither merged cluster, the best first |
| `Cluster.RemovePairs` | contrib/brotli/enc/cluster_inc.h:122-143 | the loop that compares with an entry not yet overwritten computes that compaction |
| `ClusterCombine.Merges` | contrib/brotli/enc/cluster_inc.h:103-108 | merging keeps every live histogram the sum of exactly its clusters |
| `ClusterCombine.MergeBest` | contrib/brotli/enc/cluster_inc.h:103-143 | one round merges the first pair, renames the symbols and removes the cluster and its pairs |
| `ClusterCombine.PushedTracked` | contrib/brotli/enc/cluster_inc.h:83-93 | all pairs of one cluster with others are offered, and a queue with room for all pairs never overflows |
| `ClusterCombine.TopIsBest` | contrib/brotli/enc/cluster_inc.h:98-105 | while no pair was dropped, the first of the queue saves exactly if any pair of live clusters does, and is then the best of all |
| `ClusterCombine.HistogramCombine` | contrib/brotli/enc/cluster_inc.h:68-152 | given pair costs below 1e99 and at least one cluster to leave, it terminates with at most max_clusters clusters, each the sum of exactly the clusters merged into it, and each symbol on the cluster that absorbed its own; while the queue has room, which it has if it fits the pairs of the clusters at the start, every merge is of the best of all pairs if any saves, and once none does it goes on only while there are too many clusters |
| `Renumber.FirstsCanonical` | contrib/brotli/enc/cluster_inc.h:199-208 | after renumbering, first occurrences are 0, 1, 2, ... |
| `Renumber.HistogramReindex` | contrib/brotli/enc/cluster_inc.h:199-245 | the symbols are renamed by a bijection in order of first occurrence, the histograms follow, and the number of distinct symbols is returned |
| `Renumber.RemapBlockIds` | contrib/brotli/enc/block_splitter_inc.h:156-176 | the same renaming of block ids, whose count fits in a byte |
| `BlockSplit.MeasureBlocks` | contrib/brotli/enc/block_splitter_inc.h:225-237 | the block lengths are those of the runs, and there are as many as FindBlocks counted |
| `BlockSplit.AssignClusters` | contrib/brotli/enc/block_splitter_inc.h:300-328 | each block gets a cluster no other beats, and clusters are numbered as they are met |
| `BlockSplit.JoinBlocks` | contrib/brotli/enc/block_splitter_inc.h:336-354 | joining neighbours of one type keeps the type of every symbol, and neighbours then differ |
| `BlockSplit.Coarser` | contrib/brotli/enc/block_splitter_inc.h:336-354 | a relabelling of blocks switches only where the blocks do |
| `BlockSplit.TypeBlocks` | contrib/brotli/enc/block_splitter_inc.h:297-354 | after the clustering: the split covers the data, lengths are positive, neighbours differ, types start at 0 with consecutive first occurrences, and it switches only at block boundaries |
| `BlockSplit.FindIds` | contrib/brotli/enc/block_splitter_inc.h:156-176 | the number of blocks still matches the ids after renumbering |
| `BlockCluster.ModerateUsable` | contrib/brotli/enc/cluster_inc.h:14-66 | costs of histograms in [0, 1e99) and size differences that cost nothing extra make every merge affordable |
| `BlockCluster.Batches` | contrib/brotli/enc/block_splitter_inc.h:239-276 | the batches of 64 blocks leave no more clusters than blocks, all of modest cost, and put every block on one of them |
| `BlockCluster.CombineBlocks` | contrib/brotli/enc/block_splitter_inc.h:239-293 | the batches and the last clustering put every block on one of at most 256 clusters |
| `BlockCluster.ClusterBlocks` | contrib/brotli/enc/block_splitter_inc.h:189-358 | for any distance of blocks to clusters the split covers the data, neighbours differ, at most 256 types in order of first occurrence, and switches only where the block ids do |
| `BlockCluster.SplitByteVector` | contrib/brotli/enc/block_splitter_inc.h:360-430 | for any symbol costs below 1e99 and any moderate costs of histograms the split covers the data with at most 256 types, lengths are positive and neighbours differ |
| `BlockSwitch.BlockLengthCode` | contrib/brotli/enc/brotli_bit_stream.c:52-64 | base plus extra bits, as the table of section 6 of RFC 7932 has them, is the length and the extra bits fit, for lengths up to 2^24 |
| `BlockSwitch.TableIs` | contrib/brotli/enc/brotli_bit_stream.c:44-50 | the table of the encoder is that of section 6 of RFC 7932 |
| `BlockSwitch.BlockEncoder.NextBlockTypeCode` | contrib/brotli/enc/brotli_bit_stream.c:76-83 | a decoder that knows the two last types reads the type from the code (section 6 of RFC 7932) |
| `BlockSwitch.BlockEncoder.constructor` | contrib/brotli/enc/brotli_bit_stream.c:854-868 | the state and the first switch command agree with a decoder's initial state |
| `BlockSwitch.BlockEncoder.StoreSymbol` | contrib/brotli/enc/brotli_bit_stream.c:886-902 | after every symbol a decoder has read all symbols so far, each with the type of the block that holds it |
| `BlockSwitch.StoreAll` | contrib/brotli/enc/brotli_bit_stream.c:886-902 | the same for a whole category: types, lengths and symbols decode |
| `SplitCoder.SplitsFrom` | contrib/brotli/enc/brotli_bit_stream.c:768-798 | what the splitter gives is what the block-switch coder needs |
| `SplitCoder.SplitAndStore` | contrib/brotli/enc/block_splitter_inc.h:360-430 | splitter and coder together: for any costs a decoder reads all symbols of the data back, each with the type of its block |
| `ContextMap.MoveToFrontTransform` | contrib/brotli/enc/brotli_bit_stream.c:609-635 | the decoder's inverse transform gives the context map back |
| `ContextRuns.LongestRun` | contrib/brotli/enc/brotli_bit_stream.c:649-656 | the longest run of zeros |
| `ContextRuns.RunLengthCodeZeros` | contrib/brotli/enc/brotli_bit_stream.c:643-690 | a decoder expands the entries to the input, extra bits fit, and the in-place writer never overtakes the reader |
| `ContextRuns.EncodeContextMap` | contrib/brotli/enc/brotli_bit_stream.c:715-719 | by section 7.3 of RFC 7932 the symbols turn back into the context map, for all values below 256, and the extra bits fit |
| `Huffman.HeadLeast` | contrib/brotli/enc/brotli_bit_stream.c:488-501 | the node taken has the least count of all that wait |
| `Huffman.MergeTrees` | contrib/brotli/enc/brotli_bit_stream.c:468-509 | every parent joins two live roots of least count, parents ascend, every node but the root is a child exactly once, and the root at 2n-1 has the sum of the leaves |
| `Huffman.ChildOnce` | contrib/brotli/enc/brotli_bit_stream.c:475-481 | every node but the root is the child of exactly one parent |
| `HuffmanBuild.BuildTree` | contrib/brotli/enc/brotli_bit_stream.c:454-509 | the same for the sorted leaves of a histogram with counts raised to the limit |
| `HuffmanBuild.LeavesAre` | contrib/brotli/enc/brotli_bit_stream.c:454-466 | every leaf is of a symbol that occurs, with the greater of its count and the limit, the last symbol first |
| `HuffmanBuild.EverySymbol` | contrib/brotli/enc/brotli_bit_stream.c:454-466 | every symbol that occurs has a leaf |
| `TreeSort.PassSorts` | contrib/brotli/enc/entropy_encode.h:106-113 | a pass with any gap orders what lies that gap apart and permutes |
| `TreeSort.InsertGap` | contrib/brotli/enc/entropy_encode.h:107-112 | the moving of items up is the insertion of one item |
| `TreeSort.InsertDown` | contrib/brotli/enc/entropy_encode.h:89-97 | the same for the insertion sort |
| `TreeSort.SortHuffmanTreeItems` | contrib/brotli/enc/entropy_encode.h:82-116 | for every n and every strict weak order the result is a sorted permutation, on both paths |
| `Sha2.GapIs` | crypt/crypt_sha256.c:198-199 | the zeros of the padding are the fewest that fill the last block (section 5.1.1 of FIPS 180-2) |
| `Sha2.PaddingIs` | crypt/crypt_sha256.c:186-214 | the padding is, in bits, a one, the zeros, and the length in bits (section 5.1 of FIPS 180-2) |
| `Sha2.CarryIff` | crypt/crypt_sha256.c:78-83 | the byte count is right exactly when the low word plus the length is below twice the word modulus |
| `Sha2.FieldIs` | crypt/crypt_sha256.c:201-204 | the two words written are the bit length, most significant byte first |
| `Sha2Context.Context.constructor` | crypt/crypt_sha256.c:164-178 | an empty message |
| `Sha2Context.Context.ProcessBlock` | crypt/crypt_sha256.c:64-159 | all blocks are compressed in order and counted, but for the carries that are lost |
| `Sha2Context.Context.FillBuffer` | crypt/crypt_sha256.c:220-242 | what was buffered is joined with the data and nothing is lost; how much is taken and what stays in the buffer |
| `Sha2Context.Context.ProcessBytes` | crypt/crypt_sha256.c:217-284 | the message grows by the data on either alignment path, at most one block stays buffered, and exactly the bytes of Loss are not counted, which is given by the lengths and the alignment |
| `Sha2Context.Context.Finish` | crypt/crypt_sha256.c:186-214 | the state is the fold over the message and the padding for the counted length |
| `Sha2Context.HashChunks` | crypt/crypt_sha512.c:216-317 | any split of a message into updates: what is hashed is the message with the padding for the bytes counted, and the digest is that of the standard if every update is counted |
| `Sha2Context.LossIff` | crypt/crypt_sha256.c:78-83 | a split loses no byte exactly if every update is counted: not aligned, or its whole blocks and the low word of the count below twice the word modulus |
| `Sha2Context.ChunksIff` | crypt/crypt_sha256.c:186-284 | for every message the standard admits, the padded message is hashed exactly if every update is counted |
| `Sha2Context.ShortCounted` | crypt/crypt_sha512.c:248-317 | aligned updates shorter than the word modulus are counted, so all updates of SHA-512 are |
| `Sha2Context.OneChunkIff` | crypt/crypt_sha256.c:217-284 | one aligned update on a new context is counted exactly below twice the word modulus |
| `Sha2Context.CarryFails` | crypt/crypt_sha256.c:78-83 | 2^33 bytes in one aligned update lose 2^32 in SHA-256, and what is hashed is not the padded message |
| `Sha2Context.LostShows` | crypt/crypt_sha256.c:186-214 | what is hashed is the padded message exactly when no byte was lost |
| `Base64.Encode` | util/base64.c:35-73 | the encoding of section 4 of RFC 4648 |
| `Base64.Decode` | util/base64.c:83-126 | the decoding of the complete groups of four, or an error exactly as DecodingIff says |
| `Base64.DecodingIff` | util/base64.c:83-126 | fails exactly if a complete group of four has something else than letters, or pads elsewhere than in the last two places of a group that ends the string |
| `Base64.Lenient` | util/base64.c:83-126 | AB=C and trailing letters are accepted |
| `Base64.CanonicalIff` | util/base64.c:35-126 | a string decodes, and encoding the result gives it back, exactly if it is accepted, has whole groups of four, pads only at the end, and zero bits before them |
| `Base64.RoundTrip` | util/base64.c:35-126 | decoding an encoding gives the bytes back |
| `Base64.AlphabetIs` | util/base64.c:17-18 | the letters are those of table 1 of RFC 4648 in its order |
| `StrMatch.StrMatch` | contrib/netbsd/strmatch.c:41-99 | for patterns that can be read within their bounds and have no literal equal to the byte behind the string: matches exactly the strings the items of the pattern describe, upper and lower case being the same |
| `StrMatch.RangeMatch` | contrib/netbsd/strmatch.c:101-137 | the bytes a bracket expression takes if the byte is in its class, and nothing otherwise or if it is not closed |
| `UnixGlob.UnixIff` | contrib/netbsd/strmatch.c:41-137 | a pattern matches the same strings as its reading as a UNIX glob exactly if no letter stands for itself, no escape is before the last byte and every bracket expression is closed, not by its first byte, and lists the same bytes for both, or if both match nothing |
| `UnixGlob.Unlike` | contrib/netbsd/strmatch.c:41-137 | a pattern read differently matches the same strings only if both readings have an item that matches no byte |
| `UnixGlob.Separate` | contrib/netbsd/strmatch.c:41-99 | two sequences of items whose stars stand at the same places up to an item where they take different bytes do not match the same strings |
| `UnixGlob.SameExtent` | contrib/netbsd/strmatch.c:114-136 | a bracket expression whose first byte does not close it ends at the same byte for both, or for neither |
| `UnixGlob.LowBytes` | contrib/netbsd/strmatch.c:117-134 | lists of bytes below the letters are the same for both |
| `UnixGlob.CaseFolds` | contrib/netbsd/strmatch.c:93-96 | a letter matches the other case of it, as a UNIX glob does not |
| `UnixGlob.EscapeLast` | contrib/netbsd/strmatch.c:86-96 | an escaped last byte does not match that byte, as a UNIX glob does |
| `UnixGlob.DashLast` | contrib/netbsd/strmatch.c:117-134 | [a-] does not match the letter a, as a UNIX glob does |
| `UnixGlob.CloseFirst` | contrib/netbsd/strmatch.c:117-136 | []a] does not match the letter a, as a UNIX glob does |
| `UnixGlob.OpenBracket` | contrib/netbsd/strmatch.c:117-136 | [a does not match itself, as a UNIX glob does |
| `UnixGlob.SignedRange` | contrib/netbsd/strmatch.c:122-131 | a range from 0 to a byte of 128 or more does not match that byte, as a UNIX glob does |
| `UnixGlob.NamedClass` | contrib/netbsd/strmatch.c:114-136 | a bracket expression that is a character class matches no single byte |
| `Query.KeepParameter` | remap/remap_db.c:353-394 | for such patterns: kept unless an ignore pattern matches the name, or a whitelist exists and none of its patterns does |
| `QueryCanon.TokensJoin` | remap/remap_db.c:410-444 | splitting a joined query gives its parameters back |
| `QueryCanon.LtIff` | remap/remap_db.c:431-431 | the order is that of the first byte that differs, a proper prefix being less |
| `QueryCanon.SortedUnique` | remap/remap_db.c:431-431 | there is one sorted order of a bag of parameters, whatever the sort |
| `QueryCanon.MakeQuery` | remap/remap_db.c:396-448 | the canonical query: the kept parameters sorted and joined, absent if there are none |
| `QueryCanon.CanonicalIff` | remap/remap_db.c:396-448 | two queries get the same result exactly when their kept, not empty parameters are the same bag |
| `QueryCanon.CanonicalTwice` | remap/remap_db.c:396-448 | a canonical query is its own canonical form |
| `CacheKey.MakeCacheKey` | remap/remap_db.c:568-618 | the key is a slash and the base64 of the four length-prefixed fields |
| `CacheKey.KeyReads` | remap/remap_db.c:568-618 | behind a slash the key decodes to four fields that a reader of lengths, low byte first, takes apart again |
| `CacheKey.KeyIff` | remap/remap_db.c:568-618 | keys are equal exactly when the parts that fit their prefixes are, absent being the same as empty |
| `CacheKey.KeyTellsIff` | remap/remap_db.c:579-587 | a key tells its request from all requests that fit exactly when the request fits |
| `CacheKey.Collides` | remap/remap_db.c:576-588 | a host of 256 bytes and an empty one get the same key |
| `HashTable.Table.Set` | util/hash.c:325-349 | the value is pushed on the stack of its key and no other key changes |
| `HashTable.Table.Get` | util/hash.c:357-378 | the top of the stack |
| `HashTable.Table.Delete` | util/hash.c:386-415 | the stack of the key is popped and no other key changes |
| `HashTable.Table.Iterate` | util/hash.c:263-299 | yields the entries one by one, each once, and then ends |
| `HashTable.Table.GetIsFirst` | util/hash.c:263-378 | a get returns the value of the first entry iterated with its key |
| `HashTable.Run` | util/hash.c:325-415 | in every run each get returns the top of the stack that the operations before it made |
| `Endpoints.SamePorts` | api/endpoints.c:220-246 | the two tables iterate to the same ports |
| `Endpoints.Equal` | api/endpoints.c:175-250 | equal exactly when the values are (names, addresses and iterated ports), and then the targets are the same for every port name |
| `Endpoints.AddEndpoints` | remap/remap_build.c:237-253 | the targets are determined by the addresses and the iterated ports |
| `Endpoints.TargetsIff` | remap/remap_build.c:237-253 | the targets are every address of every subset that has a port of the name, with the first such port, and nothing else |
| `Watcher.LinesPlus` | api/watcher.c:389-397 | reading on from what was left gives the lines of the whole |
| `Watcher.Fetcher.Put` | api/namespace.c:65-127 | on the hash table: one object is taken off the stack of its key and the new one put on, and no other key changes |
| `Watcher.Fetcher.Apply` | api/watcher.c:263-368 | the hash table holds at most one object per kind, namespace and name, the current one; the configmap and the changed flag follow |
| `Watcher.ChangesAlter` | api/watcher.c:263-368 | every event that changes an object or the configmap that is kept sets the changed flag |
| `Watcher.QuietIsEmpty` | api/watcher.c:263-368 | as long as the flag was never set nothing is kept |
| `Watcher.AltersOnly` | api/watcher.c:263-368 | the flag is set without a change only by a deletion of what is not there, a version that does not parse, or one that is the same, and for endpoints not by the last two |
| `Watcher.Fetcher.WatchRead` | api/watcher.c:370-400 | the complete lines of buffer and data are processed and the rest is kept |
| `Watcher.SkippedUpdates` | api/watcher.c:342-358 | nothing that depends only on what endpoints_equal compares can tell that equal updates were skipped |
| `Watcher.SkippedTargets` | api/watcher.c:342-358 | with endpoints_equal as Endpoints.Equal decides it, the targets for every port name are those of the last version put, although equal updates were skipped |
| `Watcher.WatchAll` | api/watcher.c:263-400 | for any chunking the events are those of the newline-terminated lines of the concatenation, and the hash table holds what they make current |

## Left out

- raxPrev, the "<", "<=" and "$" seeks and raxRandomWalk; util/hash.c calls none of them.
- The byte layout of rax nodes and all out-of-memory paths.
- Rounding of floats and doubles, FastLog2 and the quality of the cost models; optimality is claimed for FindBlocks only.
- FindBlocks: the table of symbol costs is a parameter, and the bitmap is a matrix of bytes instead of one array with computed offsets.
- ClusterCombine.HistogramCombine: when no pair saves, the pair that is merged is the best of those queued, which need not be the best of all, because a pair that does not save is queued only if the queue or one of the two histograms is empty, or if it beats the first; max_clusters of 0, which no caller passes, is excluded, because the loop would then take a pair from an empty queue.
- Cluster.CompareAndPushToQueue: histogram counts are multisets of symbols, so the 32-bit width of a count is not modelled.
- InitialEntropyCodes, RefineEntropyCodes and BuildBlockHistograms, which only influence costs.
- ZopfliSearch.UpdateNodes: the ring buffer holds the text, and its index mask matters only in the bounds tests; ZopfliIterate runs the same steps with stored matches.
- BrotliSetDepth, the retry with a higher count limit, and the writing of bits: codec results are stated on symbols.
- StoreSymbolWithContext, which differs from StoreSymbol in the table index only.
- DES, Blowfish and MD5 crypt, and the password loops around the hash contexts.
- The SHA-2 compression functions themselves.
- StrMatch.StrMatch: patterns that make the source read behind their end (an open bracket as the last byte, say), and what happens after a literal equals the byte behind the string, where the source reads on, are not modelled, because what is read then is not part of the arguments.
- UnixGlob.UnixIff: character classes, collating symbols and equivalence classes get no reading as UNIX globs, and neither does what POSIX leaves open, a range that ends before it starts and a backslash at the end; a circumflex negates as an exclamation mark does.
- Query.KeepParameter: inherits that condition on its patterns, which for parameter names means no literal equals sign.
- QueryCanon.MakeQuery: inherits it too; qsort is any function that sorts, and the order is total, so the result is determined.
- HashTable.Table.Set: the key is copied whole; a NUL inside a key, where strndup would stop, is not modelled.
- Watcher.Fetcher.Apply: the nesting of namespaces is flattened into one table, and JSON parsing is a function of the line.
- Traffic Server, curl, OpenSSL and json-c calls, configuration and annotation parsing, authentication and header handling.
