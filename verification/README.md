# Tree Bitmap forwarding table: model and proofs

The program is an IP forwarding table. It keeps prefixes in tries of multi-bit nodes (Tree Bitmap) and,
for IPv4, puts a table of 8192 slots in front that is indexed by the first 13 bits of the address. It has to
answer every lookup by longest prefix match (section 5.1 of RFC 4632) while prefixes come and go. This
project models the four layers as Dafny programs that keep the form of the C code and proves each of them
against something simple:

* **The packed node** (`words`, `trees`, `shapes`, `mb_node`). A node is a struct of two 64-bit bitmaps and a
  block that holds its rules and its children, both indexed by the number of set bits at or above a position.
  Node structs are stored by value in the block of their parent, so a node pointer is a place in an array
  (`Ptr`). The four operations that rebuild a block are methods on these arrays. A `Shape` names all blocks
  of a trie and what they hold; `Match` says that memory holds it, `Data` is its value, a `Tree`.
* **The trie** (`spine`, `walk`, `insertion`, `deletion`, `bitmap_v4`, `bitmap_v6`, `search`, `search_v4`,
  `search_batch`, `overlap`, `order`, `enumerate`, `destroy`). Insert and delete walk down with a spine of
  frames above the current node, which is how the trace of pointers into arrays that are rebuilt later is
  shown to be safe. What a freed block held is lost, so nothing can be read from it.
  `tree_laws` proves that the values they compute are map update and map removal and that the trees are
  canonical, `longest_match` how the longest match of a map splits over the nodes. The machinery works on
  keys as bit strings; `addresses` and `addresses_v6` relate it to 32-bit words and to pairs of 64-bit words.
* **The front table** (`front_table`, `table_runs`, `slots`, `flags`, `tbm_v4`, `tbm_trie`, `tbm_batch`,
  `tbm_class`, `tbm_v6`). `front_table` states what a slot has to hold and proves that every insert and delete
  keeps it, `table_runs` lifts this to all runs, and the class `TbmTrie` does the same in memory. `tbm_v6` is
  the lookup of the IPv6 table.
* **Allocation** (`memory`, `usage`, `colors`, `pools`, `mm_color`, `composition`). The counters per level, the
  allocator that places the levels on page colours, and the tries on top of it: a ghost log of the calls that
  the tries make is legal at every moment, and every legal log is a run of that allocator.

The configuration is the 64-bit one: stride 6, next hops not compressed, table form of `tree_function`. Next
hops and pointers are 64-bit words and 0 is NULL. The union of a table slot is a struct whose `external` word
is also the next hop. `destroy_nhi` is a flag, and the calls it would get are returned. Allocation succeeds.
The callers' obligations of the source are preconditions: host bits are zero (tbm/tbmv4.c:55-61), and only
stored prefixes are deleted.

Many methods and lemmas begin with `hide`: they are put together from lemmas alone, and the definitions they
do not need only cost the verifier time.

## Model

| member | source | states |
|---|---|---|
| Words.RankInjective | lib/mb_node.h:49-57 | the number of set bits at or above a set bit identifies that bit, so two entries never share an index |
| Words.RankSurjective | lib/mb_node.h:59-66 | every index below the number of set bits belongs to a set bit, so no entry is unreachable |
| Addresses.PosInjective | lib/mb_node.h:68-72 | two prefixes with the same internal position are the same prefix |
| Addresses.PosMono | lib/mb_node.h:68-72 | longer prefixes have higher internal positions, which is why the highest set bit is the longest match |
| Memory.UpRuleFormula | lib/mb_node.h:38-41 | the units needed for x rules, counted one by one, are (x * 8 + 24 - 1) / 24 |
| Memory.Mm.AllocNode | lib/mm.c:79-87 | the exact ledger grows by the request on its level and nowhere else; the four counters grow by the request, or by 24 bytes a unit, modulo 2^32 |
| Memory.Mm.DeallocNode | lib/mm.c:90-98 | the size is taken off its level and nowhere else, from the ledger and, modulo 2^32, from the four counters |
| Memory.Mm.Shown | lib/mm.h:21-26 | every counter is below 2^32, differs from the ledger, or from 24 times it, by a multiple of 2^32, and shows it exactly while it is below 2^32 |
| Memory.Mm.Lend | lib/mb_node.c:13-18 | a block that the allocator returned is new to the log and within 85 units, and the log stays legal |
| Memory.Mm.TakeBack | lib/mb_node.c:22-27 | a block given back was in use, and the log stays legal |
| Trees.AddRuleKeeps | lib/mb_node.c:50-144 | after a rule is added every other set internal bit still reaches its own rule, and the new bit the new rule |
| Trees.DropRuleKeeps | lib/mb_node.c:248-331 | after a rule is dropped every other set internal bit still reaches its own rule |
| Trees.AddChildKeeps | lib/mb_node.c:148-196 | after a child is added every other set external bit still reaches its own subtree, and the new bit the new one |
| Trees.DropChildKeeps | lib/mb_node.c:198-246 | after a child is dropped every other set external bit still reaches its own subtree |
| MbNode.NewNode | lib/mb_node.c:6-19 | a new block of the wanted sizes, all rules NULL and all children empty, booked with exactly its size and from now on in use; only an empty request may yield NULL; requests are at most 64 children and 63 rules |
| MbNode.FreeNode | lib/mb_node.c:22-27 | nothing for NULL; else only for a block in use, with the base, the size and the level it was allocated with: books exactly that size back, the block is no longer in use, and what it held is lost |
| MbNode.ExtendRule | lib/mb_node.c:50-144 | in place, the split copies give the node with the one rule added at its rank; every other node keeps its contents, the ledger changes by the difference, and the calls are: the new block is got, then the old one is given back, which was in use and held its contents until then |
| MbNode.ExtendChild | lib/mb_node.c:148-196 | in place, the node with one empty child added at its rank, and the place of that child; the new block is got first, then the old one is given back |
| MbNode.ReduceRule | lib/mb_node.c:248-331 | in place, the node without the one rule; the new block is got first, then the old one is given back |
| MbNode.ReduceChild | lib/mb_node.c:198-246 | in place, the node without the one child; the new block is got first, then the old one is given back |
| MbNode.OverwriteRule | lib/bitmap_v4.c:79-83 | writing through the rule pointer replaces the one rule of that bit and moves nothing |
| TreeLaws.InsertIsUpdate | lib/bitmap_v4.c:74-108 | what the loop builds has the map of the old trie updated at the one key, for every trie and key |
| TreeLaws.DeleteIsRemoval | lib/bitmap.c:20-51 | what removal and pruning leave has the map of the old trie without the one key |
| TreeLaws.InsertFits | lib/bitmap_v4.c:92-107 | a prefix no longer than the width of a trie keeps its depth bound: no internal bit for a longer prefix, no child where fewer than 6 bits are left |
| TreeLaws.DeleteFits | lib/bitmap.c:20-51 | a delete keeps the depth bound |
| TreeLaws.InsertCanonical | lib/bitmap_v4.c:92-107 | an insert leaves no empty node below the root |
| TreeLaws.DeleteCanonical | lib/bitmap.c:36-47 | pruning leaves no empty node below the root |
| TreeLaws.CanonicalUnique | lib/bitmap.c:36-47 | since empty nodes are pruned, tries with the same map are the same tree, bitmaps and packed blocks included, whatever operations built them |
| TreeLaws.InsertDelete | lib/bitmap_v4.c:115-155 | deleting a newly inserted prefix restores the very same tree |
| TreeLaws.InsertCommutes | lib/bitmap_v4.c:63-111 | inserts of different prefixes commute, down to the packed layout |
| BitmapV4.InsertPrefix | lib/bitmap_v4.c:63-111 | in place, the trie becomes the one with the prefix set; returns 1 exactly when it was stored before; everything outside the trie is unchanged and every block is booked on its level |
| Deletion.UpdateNodes | lib/bitmap.c:20-51 | working off the trace from the leaf up, over arrays that shallower entries point into, leaves the trie without the key; true exactly when the root is left empty |
| BitmapV4.DeletePrefix | lib/bitmap_v4.c:115-155 | in place, the trie becomes the one without the prefix; returns 1 exactly when the root is left empty; destroy_nhi gets the removed next hop, once; the ledger follows |
| NodeSearch.FastLookupInit | lib/mb_node.c:337-352 | entry i of the table marks exactly the positions of the prefixes of the five bits of i |
| NodeSearch.TreeFunctionFinds | lib/mb_node.c:354-366 | mask and highest bit give the longest stored prefix of the stride inside the node, or -1 |
| NodeSearch.TreeFunctionLoop | lib/mb_node.c:370-384 | the loop form gives the longest stored prefix of the stride inside the node, or -1 |
| NodeSearch.TreeFunctionsAgree | lib/mb_node.c:354-384 | both forms give the same result for every bitmap and stride |
| NodeSearch.FindOverlapInNode | lib/mb_node.c:388-407 | the longest stored prefix strictly shorter than the limit, and its length in mask |
| LongestMatch.LongestSpec | lib/bitmap_v4.c:165-188 | the longest match is the one stored prefix of the address that no longer stored prefix extends, and there is none exactly when no prefix is stored |
| LongestMatch.LongestDescend | lib/bitmap_v4.c:171-185 | with a child under the address the longest match of the whole map is that of the child, or else that of the node |
| SearchV4.DoSearch | lib/bitmap_v4.c:165-188 | eager search returns the next hop of the longest stored prefix of the address, or NULL, on every well-formed trie |
| Search.Backtrack | lib/bitmap_v4.c:214-228 | going back over the marks, the deepest node passed that has a match answers |
| SearchV4.DoSearchLazy | lib/bitmap_v4.c:194-234 | lazy search returns the same as eager search; the marks stay within LEVEL |
| SearchBatch.DoSearchLazyBatch | lib/bitmap_v4.c:238-298 | for any count up to BATCH the interleaved loop ends, and lane i gets exactly the longest match of its own trie and address |
| SearchBatch.PassBound | lib/bitmap_v4.c:259-276 | an unfinished lane has gone down once in every pass, so there are fewer than LEVEL passes before the word of finished lanes is full |
| Overlap.DetectOverlapGeneric | lib/bitmap_v4.c:306-361 | the longest stored prefix of the address strictly shorter than both cidr and the limit: its length and next hop, or 0 and the next hop unchanged; also across node boundaries |
| Overlap.PrefixExist | lib/bitmap_v4.c:157-162 | 1 exactly when the prefix is stored |
| Enumerate.OrBits | lib/bitmap_v4.c:405-409 | or-ing the shifted bits of a rule into the address gives the address of the longer prefix |
| Enumerate.MbNodeIter | lib/bitmap_v4.c:388-426 | the visitor is called for exactly the prefixes of the subtrie, strictly rising in the order of Order.EarlierIs, each with its address, length and next hop |
| Enumerate.AllPrefixes | lib/bitmap_v4.c:440-444 | over the whole trie: exactly the stored prefixes are reported, each once and with its next hop; a prefix comes before every longer one that it covers, and prefixes of the same length come by address; inserting the reports into an empty trie gives back the same tree |
| Enumerate.ListsExactly | lib/bitmap_v4.c:388-426 | every stored prefix is reported exactly once with its next hop, and nothing else is |
| Enumerate.Rebuilt | lib/bitmap_v4.c:388-426 | inserting the reports into an empty trie gives back the same tree |
| Enumerate.ListsUnique | lib/bitmap_v4.c:388-426 | the list of a trie is unique, order included |
| Order.EarlierIs | lib/bitmap_v4.c:401-423 | which order it is: in a node the shorter prefix first, of the same length the lower one; the prefixes of a node before all below it; the lower child with all below it before the higher one |
| Order.EarlierApart | lib/bitmap_v4.c:401-423 | the order is irreflexive and asymmetric |
| Order.EarlierTrans | lib/bitmap_v4.c:401-423 | the order is transitive |
| Order.EarlierTotal | lib/bitmap_v4.c:401-423 | of two different prefixes one comes first |
| Order.CoverFirst | lib/bitmap_v4.c:401-423 | a prefix comes before every longer one that it covers |
| Order.LowerFirst | lib/bitmap_v4.c:401-423 | prefixes of the same length come in the order of their numbers |
| Order.RisingUnique | lib/bitmap_v4.c:401-423 | there is only one list of the same prefixes in this order |
| Destroy.DestroySubtrie | lib/mb_node.c:439-464 | the root struct is cleared, its neighbours stay, and level by level exactly the units of the rules of all nodes are given back |
| Destroy.Leftover | lib/mb_node.c:456-463 | after a trie was the only one on the ledger, exactly one unit per node below the root stays on it, on the level of the parent; nothing stays if and only if the root has no child |
| Destroy.CountersLeft | lib/mb_node.c:456-463 | the 32-bit counters return to 0 if and only if the root has no child |
| Destroy.SizeGiven | lib/mb_node.c:456-463 | the size given back is that of the block if and only if the node has no child |
| AddressesV6.IpV6.LshiftIpv6 | lib/bitmap_v6.c:12-32 | for 1 to 127 bits: multiplication by 2^bits modulo 2^128, for all values |
| AddressesV6.IpV6.RshiftIpv6 | lib/bitmap_v6.c:34-53 | for 1 to 127 bits: division by 2^bits, for all values |
| AddressesV6.LShiftBits | lib/bitmap_v6.c:12-32 | the first bits are dropped and zeros are appended, across both words |
| AddressesV6.RShiftBits | lib/bitmap_v6.c:34-53 | the last bits are dropped and zeros are put in front, across both words |
| AddressesV6.LeafStride6 | lib/bitmap_v6.c:56-82 | the shift for a last stride leaves its number, also for length 0, where the shift by 128 only sees the address 0 |
| BitmapV6.InsertPrefix | lib/bitmap_v6.c:61-123 | the IPv6 insert is the same map update, in place |
| BitmapV6.DeletePrefix | lib/bitmap_v6.c:168-222 | the IPv6 delete is the same map removal with pruning, in place; 1 exactly when the root is left empty |
| BitmapV6.DoSearch | lib/bitmap_v6.c:236-268 | eager search over 128-bit addresses returns the longest match or NULL |
| BitmapV6.DoSearchLazy | lib/bitmap_v6.c:340-394 | lazy search over 128-bit addresses returns the longest match or NULL; the marks stay within LEVEL_v6 |
| BitmapV6.DetectOverlapGeneric | lib/bitmap_v6.c:272-332 | the longest stored prefix strictly shorter than both bounds, or 0 |
| BitmapV6.PrefixExist | lib/bitmap_v6.c:226-232 | 1 exactly when the prefix is stored |
| FrontTable.CoversIff | tbm/tbmv4.c:65-76 | the slots index to index + 2^(13 - cidr) - 1 are exactly those whose 13 bits start with the prefix, and they exist |
| Flags.FlagsRoundTrip | tbm/tbm.h:6-7 | length and child mark can be read back from the flags, and setting the mark keeps the length |
| FrontTable.TableInsertKeeps | tbm/tbmv4.c:63-155 | every insert keeps every slot in agreement with the auxiliary trie: the length of the longest covering prefix of 1 to 13 bits, its next hop as pointer or as rule of length 0, and below it exactly the longer prefixes |
| FrontTable.TableDeleteKeeps | tbm/tbmv4.c:179-302 | every delete of a stored prefix keeps every slot in that agreement |
| FrontTable.DeleteReady | tbm/tbmv4.c:208-237 | a covered slot without a longer pushed prefix has exactly the deleted length, and the rule that is removed from it is the deleted one |
| FrontTable.CoverDelete | tbm/tbmv4.c:202-204 | after a short delete such a slot falls back to the longest prefix shorter than the deleted one, all other covers stay |
| FrontTable.DeleteReadyLong | tbm/tbmv4.c:281-294 | a stored long prefix is in the trie of its slot, and if that trie becomes empty then overlap detection finds nothing: prefix_near is 0 |
| FrontTable.SlotTouched | tbm/tbmv4.c:84-148 | a slot with the child mark has a trie that is not empty, and some stored prefix covers it or lies below it; a slot without mark and length is one that no stored prefix touches |
| FrontTable.MarkInsert | tbm/tbmv4.c:84-148 | an insert sets the child mark exactly in the slot of a prefix longer than 13, and clears none |
| FrontTable.MarkDelete | tbm/tbmv4.c:208-297 | a delete clears the child mark exactly in the slots that no stored prefix covers or lies below any more, and sets none |
| TableRuns.LookupIsLongest | tbm/tbmv4.c:304-316 | a table in agreement answers every address with the longest match of the auxiliary trie, or NULL |
| TableRuns.RunLookup | tbm/tbmv4.c:63-316 | after every run of allowed inserts and deletes, for every address, the table answers with the longest match in the plain map of the run |
| TableRuns.RunCanonical | tbm/tbmv4.c:63-302 | runs with the same plain map end with the same auxiliary trie, the same length in every slot, and the same contents in slots of the same kind |
| TableRuns.RunMarks | tbm/tbmv4.c:63-302 | after every run a slot holds a trie exactly if a prefix longer than 13 was inserted below it and ever since some stored prefix has covered the slot or lain below it |
| TableRuns.RunDetermined | tbm/tbmv4.c:63-302 | runs with the same plain map and the same marks end with the very same table |
| Slots.InsertAtSlot | tbm/tbmv4.c:91-93 | inserting into one slot trie changes that trie alone, among 8192 that share one array and one allocator |
| TbmV4.PushAt | tbm/tbmv4.c:84-105 | a short prefix in one slot: kept out by a longer one, else it becomes the pointer or the rule of length 0 |
| TbmV4.AddBelowAt | tbm/tbmv4.c:112-148 | a long prefix in its slot: a next hop there first becomes the rule of length 0 of a new trie |
| TbmV4.PopAt | tbm/tbmv4.c:208-270 | a short delete in one slot: the next longest prefix, or none, takes the place of the deleted one, and a trie left empty becomes a free slot |
| TbmTables.DeleteLong | tbm/tbmv4.c:274-297 | a long delete: the slot trie loses the prefix, and a trie left empty becomes a slot with a next hop or none |
| TbmTables.CallsOnce | tbm/tbmv4.c:208-270 | destroy_nhi is called at most once, on the removed next hop, and not at all exactly when longer pushed prefixes shadow a short one in every slot |
| Tbm.TbmTrie.constructor | tbm/tbmv4.c:11-33 | an empty table, all of whose memory is new |
| Tbm.TbmTrie.Insert | tbm/tbmv4.c:63-155 | in place, one step of the table: -1 and no change for length 0, else 0 and the plain map updated at the prefix |
| Tbm.TbmTrie.Delete | tbm/tbmv4.c:179-302 | in place, one step of the table: -1 and no change for length 0, else 0 and the plain map without the prefix |
| Tbm.TbmTrie.Search | tbm/tbmv4.c:304-316 | the next hop of the longest prefix of the address in the plain map, or NULL |
| Tbm.TbmTrie.SearchBatch | tbm/tbmv4.c:318-354 | every lane gets the longest match of its own address, through gathering and scattering; lanes beyond the count are untouched |
| Tbm.TbmTrie.Exists | tbm/tbmv4.c:383-386 | 1 exactly when the prefix is in the plain map |
| TbmV6.SearchTable6 | tbm/tbmv6.c:302-317 | a slot without a trie answers with its next hop; a slot trie answers with the longest match not of the rest of the address but of 102 zeros followed by the 13 bits of the index |
| TbmV6.AlwaysRightIff | tbm/tbmv6.c:302-317 | the answer is the longest match of the rest of the address for every slot trie if and only if that rest is 102 zeros followed by the 13 bits of the index |
| TbmTables.Conservation | lib/mm.c:79-98 | at every moment the 32-bit counters of both allocators differ, level by level, from children plus UP_RULE(rules) of all nodes in the tries, or from 24 times that in bytes, by a multiple of 2^32, and are equal to it while it is below 2^32 |
| TbmTables.AllFreed | lib/mm.c:90-98 | when the last prefix is deleted every counter is 0 |
| Tbm.TbmTrie.Counters | lib/mm.c:79-98 | conservation, stated the same way for the table in memory |
| Tbm.TbmTrie.NothingLeft | lib/mm.c:90-98 | all counters at 0 for the table in memory that holds no prefix |
| Tbm.TbmTrie.RunLegal | lib/mb_node.c:6-27 | in every reachable state all calls of both allocators were legal (new blocks of at most 85 units, and frees of blocks in use), and the blocks of all nodes are in use |
| Colors.Partition | lib/mm_color.c:76-81 | the 2, 5 and 1 pages of the shares partition the 8 colours, wherever the first one falls |
| Colors.NewStartOk | lib/mm_color.c:163-198 | a new area starts on the colour of its share, stays on one huge page, and begins after the last area ends |
| Colors.AreasApart | lib/mm_color.c:163-198 | areas of different shares never have a page in common |
| Colors.FirstAreas | lib/mm_color.c:113-147 | the areas set up at the start are on the colours their shares are given, and each is the first one of its share |
| Colors.ShareLevel | lib/mm_color.c:113-147 | every byte of an area of the first share lies on the first two colours, of the second on the next five, of the third on the last one |
| Colors.NumberNext | lib/mm_color.c:163-198 | lma_init steps through all places of a share, none skipped: 64 on a huge page if the pages before the first colour and those of an area are less than 8, else 63; it leaves the mapping exactly behind the last place |
| Colors.CapacityBounds | lib/mm_color.c:163-224 | for n huge pages a share can have at least 63n and at most 64n areas |
| Pools.GrownIs | lib/mm_color.c:200-224 | a share gets one more area exactly as long as it has fewer than its capacity |
| Pools.BumpKeeps | lib/mm_color.c:227-237 | a block cut from an area is disjoint from every block cut before |
| Pools.PopKeeps | lib/mm_color.c:248-256 | a block taken from a free list was in use by nobody, and nothing is lost |
| Pools.SharesApart | lib/mm_color.c:240-269 | blocks of different shares are disjoint |
| Pools.BlockPages | lib/mm_color.c:240-269 | bytes of blocks of different shares lie on different pages |
| Pools.ServeKeeps | lib/mm_color.c:240-269 | a request that is served keeps the invariant, gives a block that was not in use, and costs the areas at most its own bytes |
| Pools.ServeIs | lib/mm_color.c:200-269 | in bytes: the head of the free list; without one the next 24n bytes of the first area with room, which loses exactly them, and no area is added; a new area only if none has room |
| Pools.ServeFails | lib/mm_color.c:200-269 | a request fails if and only if its free list is empty, no area has room, and the share has all its areas |
| Pools.PushServe | lib/mm_color.c:240-344 | after a free the next request of that size gets the same block, and the share is as before the free |
| Pools.Enough | lib/mm_color.c:200-269 | no request of n units fails while fewer than capacity * (area size - 24n) bytes are cut |
| MmColor.McPriv.constructor | lib/mm_color.c:76-147 | three shares of 8192, 20480 and 4096 bytes with their colours, one untouched area each, one behind the other at the base, each on the colour of its share; nothing in use |
| MmColor.McPriv.LmaInit | lib/mm_color.c:163-198 | one more area at the end of the list, or none if it would lie outside of the mapping; the other shares keep theirs |
| MmColor.McPriv.FindLma | lib/mm_color.c:200-224 | the first area with room, and the list is kept; else exactly one new area at its end; else, with all areas of the share there, none |
| MmColor.McPriv.LmaAlloc | lib/mm_color.c:227-237 | an area with room gives its next bytes: alloc goes up and left goes down by 24 bytes a unit; one without gives NULL; all other areas keep theirs |
| MmColor.McPriv.AllocNode | lib/mm_color.c:271-301 | for every size: NULL exactly for 0 or above the guard, an access outside of the arrays exactly for 128 or a share that is used up, else a block that was not in use: the head of the free list, else from the first area with room, else from a new one; for level 0 it lies on the first two colours, for level 1 on the next five, for every deeper level on the last one; the other shares keep their state |
| MmColor.McPriv.DeallocNode | lib/mm_color.c:303-344 | for every size: the block leaves use and heads the free list of its size; above the guard nothing happens; 0 goes to a list that no request reads; 128 has no list |
| MmColor.McPriv.Served | lib/mm_color.c:200-269 | what a caller can count on: below capacity * (area size - 24n) bytes cut, the share is not used up for n units |
| MmColor.McPriv.LiveColors | lib/mm_color.c:286-297 | over every sequence of calls each block in use lies on the colours of its level |
| MmColor.McPriv.LiveApart | lib/mm_color.c:240-269 | over every sequence of calls the blocks in use, 24 bytes a unit, are pairwise disjoint |
| MmColor.McPriv.PagesApart | lib/mm_color.c:163-198 | over every sequence of calls areas of different shares share no page |
| Composition.Replay | lib/mm.c:79-98 | every legal log is a run of the page-colour allocator from its start: every call meets its precondition, every block in use has a place of its own in the share of its level and nothing else is in use; it stops before the end only at a request for a share that is used up |
| Composition.ReplayEnds | lib/mm.c:79-98 | a log that gets fewer than capacity * (area size - 2040) bytes for each share is replayed to its end |
| Composition.TableApart | lib/mb_node.c:6-27 | the blocks of all nodes of the slot tries, after any run of the table, have places, 24 bytes a unit, that do not overlap |
| Composition.TableColors | lib/mm_color.c:286-297 | the blocks of root nodes lie on the first two colours, those one level down on the next five, all deeper ones on the last one |
| Composition.LevelsApart | lib/mm_color.c:286-297 | no page of 4096 bytes holds parts of blocks of levels 0 and 1, or of one of them and of a deeper level |

## Left out

- MmColor.McPriv.AllocNode: memory contents and the zeroing of blocks are not modelled; an access outside of the arrays is an outcome, after which nothing has changed.
- Composition.Replay: the calls are those of one allocator that the tries use; tbm/tbmv4.c:29-30 installs the simple one, which serves every request.
- BitmapV6: the struct ip_v6 that a loop copies into a local variable is a value there; the in-place shifts of the class `IpV6` are proved to compute the same functions.
- MbNode.ExtendRule: rules and children of a block are two arrays, so that one block is one stretch of memory is kept only as its size and base.
- tbm/tbmv6.c: insert, delete and the destruction of the table, which repeat the IPv4 logic; TbmV6.SearchTable6 takes the slots as they are.
- Destroy.DestroySubtrie: the calls of destroy_nhi and the clearing of the rules (lib/mb_node.c:423-436) are not modelled, nor what the page-colour allocator makes of a size that is not the one of the block.
- The variant with compressed next hops and the 32-bit configuration with stride 5.
- Overlap visitor: tbm/tbmv4.c calls bitmap_traverse_branch with overlap_nhi for 0/0 only, and only this call is modelled.
- Enumeration of IPv6 tries, which repeats the IPv4 one and only serves printing.
- Redundancy counting, printing, byte order, file loading and timing: I/O and statistics.
- Huge-page set-up, mmap and the page map: frame numbers and the base address are inputs.
- Allocator registration, prefetching, branch hints and thread-local storage.
