# Noms

Noms is a content-addressed, versioned database. Lists, maps, sets and blobs are stored as prolly trees, whose chunk
boundaries come from a rolling hash of the content; commits form a graph of such values; chunks live in table files
under a manifest. This project models the algorithms behind these and proves what they are for.

- **Prolly trees** (`BuzHash`, `Chunking`, `RollingHasher`, `LevelCursor`, `Chunker`, `ProllyTree`, `TreeSplice`,
  `Histories`). A rolling hash is a function of its window alone. A chunker that resumes in the middle of a level, and
  stops early behind an edit, produces the chunks that chunking the whole level from scratch produces. So splicing any
  stored tree gives the one canonical tree of the new values, which is stored again: after any two histories of edits
  the roots are equal exactly if the values are.
- **Diff** (`Splices`, `EditDistance`, `IndexedDiff`, `OrderlyDiff`, `TreeCursor`, `FastForward`, `OrderedDiff`,
  `DiffParts`, `TopDownDiff`, `BestDiff`). Splices are a shortest diff; diffs through two trees of any shape are diffs
  of their values; racing two diffs gives the diff whichever is ready when, exactly under a stated condition.
- **Merge** (`ListMerge`, `MergeSpec`, `MergeMeaning`, `ThreeWayMerge`). From the trees of two edits and their parent to
  the merged value, at any depth of nesting: what a merge comes to is told for each kind of value from what the two
  sides and the parent hold; it is symmetric, and keeps what is identical exactly under a stated condition.
- **Commits and synchronization** (`RefQueue`, `RefGraph`, `CommonAncestor`, `CommitProtocol`, `Pull`). The common
  ancestor search is complete and finds a highest one. In every interleaving of every number of clients no published
  head and no successful commit is lost, and a client that is not overtaken succeeds. A pull copies exactly what is
  reachable and missing.
- **Block store** (`TableIndex`, `TableFormat`, `TableLayout`, `BlockStore`, `ManifestProtocol`, `ReadBatches`,
  `TableReads`, `StoreReads`). A table that is written is read back byte for byte, one chunk or many at a time; spilling
  never loses or repeats a chunk; in every harmless interleaving of stores what was readable at a successful root update
  stays readable.
- **Value codec** (`ByteSeqs`, `TypeCodec`, `ValueCodec`, `ValueLayout`, `Codec`). Decoding undoes encoding and leaves
  exactly the bytes that follow, so the encoding is injective and prefix-free; which bytes these are is told one by one.

Classes, loops and arrays are kept where the source updates state; each such method is proved against a function or a
predicate, about which the lemmas then state the promised properties. A hash stands for what it is the hash of: two
chunks, values or sequences are the same exactly if their hashes are.

Seven promises are not kept by the code. Each is stated with an input for which it fails and with the condition under
which it holds.

- `calcSplices` past its matrix limit reports position 0 instead of the end of the shared prefix
  (`EditDistance.ExactlyWhen`, `EditDistance.BeyondLimitExample`).
- The diff of ordered collections from the top, which is raced against the one from left to right, misses changes past
  that limit, and panics where whole subtrees above the leaf chunks are only added or only removed
  (`TopDownDiff.TopDownExactly`, `TopDownDiff.PanicsExactly`, `BestDiff.BestExactly`, `BestDiff.AppendPanics`,
  `BestDiff.MissedExample`).
- `ThreeWay` is documented to merge identical values, but conflicts on identical primitives, and does not keep identical
  lists past the splice limit (`MergeSpec.IdenticalExactly`, `MergeSpec.IdenticalExample`,
  `MergeSpec.IdenticalListExample`).
- Splices that do exactly the same are documented not to conflict, but do if what was done before them differs in length
  on the two sides (`ListMerge.ConflictExactly`, `ListMerge.ElsewhereExactly`, `ListMerge.ElsewhereExample`).
- `getMany` of a set of tables stops asking where a table has only another chunk with the prefix of a request, so a
  chunk that is held may not be found (`TableReads.RemainingExactly`, `StoreReads.FoundExactly`, `StoreReads.LoseChunk`).
- The limit on what a physical read may waste is forgotten where a place is repeated (`ReadBatches.ChargedExactly`,
  `ReadBatches.ForgottenExample`).
- `UpdateRoot` can return true without installing anything, and a root that comes back lets tables drop out of the
  manifest (`ManifestProtocol.ReportsExactly`, `SoundExactly`, `HarmLosesTable`, `SameRootTwice`, `RootComesBack`).

`dafny verify dfyconfig.toml` verifies everything.

## Model

| member | source | states |
|---|---|---|
| BuzHash.ShiftPairIsRotation | js/noms/src/buzhash.js:65-89 | the pair of shifts applied to the departing byte is the rotation by the window length, for every window length |
| BuzHash.BuzHash.constructor | js/noms/src/buzhash.js:65-71 | an empty stream has the zero state and satisfies the ring-buffer invariant |
| BuzHash.BuzHash.HashByte | js/noms/src/buzhash.js:73-89 | rolling equals direct: after any stream the state is the xor of the rotated table words of exactly the last n bytes |
| BuzHash.RollStep | js/noms/src/buzhash.js:73-89 | rotate, xor out the departing byte, xor in the new one turns the hash of one window into the hash of the next |
| BuzHash.DirectBit | js/noms/src/buzhash.js:73-89 | bit by bit, the hash of a window is the parity of how many of its bytes have a set bit that the rotation by their distance from the end brings to that place |
| BuzHash.AgreeForever | js/noms/src/buzhash.js:73-89 | two hashers whose last n bytes agree agree after every further byte: nothing older is remembered |
| RollingHasher.RollingValueHasher.constructor | go/types/rolling_value_hasher.go:65-74 | a new value hasher has seen nothing and has crossed no boundary |
| RollingHasher.RollingValueHasher.HashByte | go/types/rolling_value_hasher.go:76-84 | the hasher that keeps only the rolling hash finds the same boundaries as one that keeps the window itself |
| RollingHasher.RollingValueHasher.ClearLastBoundary | go/types/rolling_value_hasher.go:86-89 | forgets the boundary and the byte count and nothing else |
| RollingHasher.RollingValueHasher.HashValue | go/types/rolling_value_hasher.go:91-100 | hashing a value refines hashing its bytes one by one on the abstract window |
| RollingHasher.HashValueMeaning | go/types/rolling_value_hasher.go:76-100 | hashing a value moves the window by its bytes and reports a boundary exactly if some prefix of them completes an accepted window; in length-only mode only the count moves |
| RollingHasher.HitsExactly | go/types/rolling_value_hasher.go:76-84 | a window is a boundary if and only if every bit that the pattern has is set in its hash, that is, an odd number of its bytes bring it |
| Chunking.CrossesExactly | go/types/rolling_value_hasher.go:76-100 | an item crosses a boundary if and only if some of its bytes, the last or another, completes an accepted window |
| Chunking.WindowIsLast | go/types/rolling_value_hasher.go:76-100 | the window is the last bytes of everything hashed |
| Chunking.ChunkListPartitions | go/types/sequence_chunker.go:131-139 | chunking from scratch partitions the items into non-empty chunks, in order |
| Chunking.WindowForgets | go/types/sequence_chunker.go:58-129 | after a full window of equal items the hash windows of two levels are equal whatever came before |
| LevelCursors.LevelCursor.AdvanceMaybeAllowPastEnd | go/types/sequence_cursor.go:90-108 | moves to the next item of the level across chunk ends; at the end it stays, or goes past it if allowed, and says so |
| LevelCursors.LevelCursor.RetreatMaybeAllowBeforeStart | go/types/sequence_cursor.go:114-132 | moves to the previous item across chunk starts; at the start it stays, or goes before it if allowed |
| Chunker.LevelChunker.Empty | go/types/sequence_chunker.go:27-29 | a chunker for a new level is in the state of having chunked nothing |
| Chunker.LevelChunker.At | go/types/sequence_chunker.go:31-56 | a chunker made at any cursor is in the state of a chunker that was fed every item before it |
| Chunker.LevelChunker.Resume | go/types/sequence_chunker.go:58-129 | walking back and forth around the cursor rebuilds window, open chunk and closed chunks of chunking the whole prefix from scratch, and puts the cursor back |
| Chunker.LevelChunker.Append | go/types/sequence_chunker.go:131-139 | keeps the state that of chunking everything fed so far from scratch |
| Chunker.LevelChunker.Skip | go/types/sequence_chunker.go:141-152 | skips one old item; the parent is told to skip exactly the chunks passed |
| Chunker.LevelChunker.HandleChunkBoundary | go/types/sequence_chunker.go:182-190 | hands the open chunk up and starts the next |
| Chunker.LevelChunker.FinalizeCursor | go/types/sequence_chunker.go:249-289 | stopping at the first old boundary past the hash window is right: closed, pending and re-used old chunks together are the chunk list of the new level from scratch |
| Chunker.LevelChunker.Done | go/types/sequence_chunker.go:206-213 | ends one level: emitted, open and unskipped old chunks are exactly the from-scratch chunk list of the edited level |
| Chunker.OldBoundary | go/types/sequence_chunker.go:249-289 | in a stored level an item other than the last ends a chunk exactly if it crosses a boundary |
| Chunker.BoundaryExactly | go/types/sequence_chunker.go:131-139 | in a level chunked from scratch an item other than the last ends a chunk if and only if, after one of its bytes, the last bytes of the whole level hash to a boundary |
| ProllyTree.LevelFlattens | go/types/sequence_chunker.go:165-180 | every level of a tree flattens to its values, is uniformly deep, and every tuple counts the values under it |
| ProllyTree.RootShape | go/types/sequence_chunker.go:206-246 | a canonical root is a leaf or has at least two children |
| ProllyTree.RootMeaning | go/types/sequence_chunker.go:206-246 | a canonical root flattens to exactly the values, at one depth, with right counts |
| ProllyTree.RootsAgree | go/types/sequence_chunker.go:206-246 | history independence: two canonical trees have the same root if and only if they have the same values |
| TreeSplice.EditLevel | go/types/sequence_chunker.go:58-289 | editing an existing level in place of any item gives the from-scratch chunks of the edited level |
| TreeSplice.NextLevel | go/types/sequence_chunker.go:148-190 | what a chunker tells its parent to skip and append is exactly the edit that turns the old level above into the new one |
| TreeSplice.AnyPendingExactly | go/types/sequence_chunker.go:193-203 | some chunker from a level up has pending items exactly if that level has been fed anything |
| TreeSplice.ClimbsExactly | go/types/sequence_chunker.go:193-213 | going on to the level above exactly if a chunk was closed or an old one kept is going on exactly if some chunker from there up has pending items |
| TreeSplice.Descend | go/types/sequence_chunker.go:233-246 | walking down from a one-tuple level ends at the canonical root |
| TreeSplice.FindRoot | go/types/sequence_chunker.go:206-246 | the root returned once nothing has been closed at a level is canonical |
| TreeSplice.Splice | go/types/list.go:154-173 | splicing any stored tree gives the canonical root of the edited values: the one building them from scratch gives |
| TreeSplice.Build | go/types/list.go:32-38 | building from scratch gives the canonical root |
| Histories.RootIsStored | go/types/list.go:154-173 | the canonical root of any values is the root of a stored tree of them, so that it can be spliced again |
| Histories.EditAll | go/types/list.go:154-173 | any sequence of splices, each made to the tree the last one gave, ends at the canonical root of the values edited one after the other |
| Histories.HistoryForgotten | go/types/list.go:154-173 | two sequences of edits that reach the same values, from whatever values each started, give the same root, and only those do |
| EditDistance.CalcEditDistances | go/types/edit_distance.go:165-201 | every cell of the matrix is the least number of removals and insertions between the two prefixes |
| EditDistance.OperationsFromEditDistances | go/types/edit_distance.go:203-246 | the operations read back from the matrix are those of the backtracking function |
| EditDistance.BackIsLegal | go/types/edit_distance.go:203-246 | each backtracking step keeps only equal elements and accounts for exactly the distance it covers; an update is never mistaken for a match |
| EditDistance.OpsLead | go/types/edit_distance.go:203-246 | the operations form a legal script that costs exactly the distance |
| EditDistance.SplicesFromOps | go/types/edit_distance.go:103-163 | collects operations into splices |
| EditDistance.ScriptSplices | go/types/edit_distance.go:103-163 | the splices of any legal script lead where it leads and cost what it costs, with a gap between any two |
| EditDistance.CalcSplices | go/types/edit_distance.go:76-163 | the splices are a diff of least size within the limit, and a diff at all if and only if the limit is met or there is no shared prefix |
| EditDistance.ExactlyWhen | go/types/edit_distance.go:90-101 | the exact condition: beyond the limit the position reported is 0, so the result is right if and only if the shared prefix is empty |
| EditDistance.BeyondLimitExample | go/types/edit_distance.go:99-101 | [1,2] to [1,3] with limit 0 gives splices that lead to [1,2] |
| EditDistance.NoCheaper | go/types/edit_distance.go:165-201 | no splices that turn one prefix into another cost less than the distance |
| EditDistance.Minimal | go/types/edit_distance.go:165-201 | the distance is a lower bound for every list of splices from one sequence to the other |
| IndexedDiff.GetCompositeChildSequence | go/types/meta_sequence.go:167-214 | concatenates the children of a range of tuples |
| IndexedDiff.CompositeLeaves | go/types/meta_sequence.go:167-214 | the values under the composite are the values between the two positions of the level above |
| IndexedDiff.CumulativeNumberOfLeaves | go/types/meta_sequence.go:100-106 | adds up the counts of the first tuples |
| IndexedDiff.IndexedSequenceDiff | go/types/indexed_sequence_diff.go:16-98 | sends the diff of the values of two trees of any two heights, in value coordinates, by descending only where tuples differ |
| IndexedDiff.SmallIsWithin | go/types/indexed_sequence_diff.go:16-98 | a limit of the product of the numbers of values is enough at every level |
| IndexedDiff.DiffWithLimit | go/types/list.go:255-272 | the diff of two lists leads from one to the other, in order, gapped and aligned, provided every level compared meets the limit or shares no prefix |
| OrderlyDiff.SpliceListOrderly | go/types/edit_distance.go:76-163 | whatever the limit, splices are in order and in range and take no element twice |
| OrderlyDiff.DiffedOrderly | go/types/indexed_sequence_diff.go:16-98 | the same for the splices of two trees, through all levels |
| OrderlyDiff.ListDiffOrderly | go/types/list.go:255-272 | the same for two lists |
| ListMerge.CanMerge | go/merge/three_way_list.go:94-106 | two splices are merged exactly if they are the same splice and add the same elements |
| ListMerge.Apply | go/merge/three_way_list.go:113-124 | replaces the removed elements by those taken from the source, at the position that 64-bit arithmetic gives |
| ListMerge.MergeSplices | go/merge/three_way_list.go:14-83 | a conflict exactly if two splices overlap without being the same; otherwise the parent with both sides' changes substituted at their original positions |
| ListMerge.MergeUnique | go/merge/three_way_list.go:14-83 | the changes of both sides determine the merged list |
| ListMerge.MergeExists | go/merge/three_way_list.go:14-83 | and there is a merged list whenever no two splices clash |
| ListMerge.ConflictExactly | go/merge/three_way_list.go:85-106 | there is a conflict if and only if no list has the changes of both sides, or both make the same change but take what it adds from different places |
| ListMerge.ElsewhereExactly | go/merge/three_way_list.go:93-106 | in two diffs the places of the same insertion differ if and only if what was done before it differs in length |
| ListMerge.ElsewhereExample | go/merge/three_way_list.go:93-106 | both sides insert the same element between the same two, and one also inserts at the start: a conflict, although one list has the changes of both |
| ListMerge.Symmetric | go/merge/three_way_list.go:14-83 | swapping the sides gives a conflict just when the other order does, and otherwise the same list |
| ListMerge.Trivial | go/merge/three_way_list.go:14-83 | an unchanged side gives way to what the other's splices make of the parent, and so do equal sides; right splices make the list itself |
| ListMerge.ThreeWayListMerge | go/merge/three_way_list.go:14-83 | the merge of any three lists: conflict exactly if the diffs clash, else both diffs substituted; an unchanged side gives way to what the other's diff makes of the parent, and that is the other list if its diff is right |
| TreeCursors.Cursor.constructor | go/types/ordered_sequences.go:49-72 | a new cursor, made without a key to search for, is at the first value on every level |
| TreeCursors.Cursor.AdvanceMaybeAllowPastEnd | go/types/sequence_cursor.go:90-108 | moves one level to its next item, advancing the parents across chunk ends and leaving the levels below alone |
| TreeCursors.Cursor.Sync | go/types/sequence_cursor.go:47-58 | loads the chunk its parent points at |
| TreeCursors.LevelsFlatten | go/types/sequence_cursor.go:61-63 | the items at each distance from the values flatten to the same values |
| FastForward.DistinctLevels | go/types/ordered_sequences_diff.go:228-250 | where no two values are the same no two chunks of a level are |
| FastForward.SyncWithIdx | go/types/ordered_sequences_diff.go:217-226 | after the level above has moved, this level is at the start of its chunk, or at the end |
| FastForward.DoFastForward | go/types/ordered_sequences_diff.go:231-250 | moves both cursors over the same number of equal items, skipping shared subtrees of any height, and stops only at a difference or an end |
| OrderedDiff.DiffIsExact | go/types/ordered_sequences_diff.go:161-206 | the pairwise walk reports exactly the keys that differ, each once, in order, with the right kind of change |
| OrderedDiff.DiffMeans | go/types/ordered_sequences_diff.go:161-206 | a diff has a key as added, removed or modified if and only if it is in the second collection only, in the first only, or in both with different entries |
| OrderedDiff.OrderedSequenceDiffLeftRight | go/types/ordered_sequences_diff.go:161-206 | the left-right diff of any two ordered trees is exactly the diff of their entries, whatever their chunking |
| DiffParts.DiffUnique | go/types/ordered_sequences_diff.go:161-206 | the entries of two collections determine their diff, order included |
| DiffParts.SplitExactly | go/types/ordered_sequences_diff.go:138-156 | leaving any entries out of two sorted sequences leaves their diff as it is if and only if the same are left out of both |
| DiffParts.HeadsExactly | go/types/ordered_sequences_diff.go:138-156 | so does leaving out their last parts if and only if these are the same |
| TopDownDiff.TopDownExactly | go/types/ordered_sequences_diff.go:112-157 | for two trees of any heights the diff from the top is exactly the diff of their entries if and only if no level compared is empty on one side only and the entries under what the splices of all levels do not reach are the same on both sides |
| TopDownDiff.PanicsExactly | go/types/ordered_sequences_diff.go:122-157 | it panics if and only if some level compared, at any depth, is empty on one side only and not a level of entries |
| TopDownDiff.NothingLeftOut | go/types/ordered_sequences_diff.go:138-156 | if every level compared meets the splice limit or shares no prefix, nothing is left out, so that only a panic can spoil the diff |
| TopDownDiff.BeyondLimitExactly | go/types/ordered_sequences_diff.go:138-156 | on a level of leaf chunks beyond the limit, what is sent is right if and only if the chunks that are never looked at hold the same entries |
| TopDownDiff.OrderedSequenceDiffInternalNodes | go/types/ordered_sequences_diff.go:122-157 | the recursion over levels sends what the function over levels says, or panics where it says |
| BestDiff.Multiplex | go/types/ordered_sequences_diff.go:71-107 | the select loop sends changes of the one diff until the other is ahead |
| BestDiff.RaceExactly | go/types/ordered_sequences_diff.go:40-108 | every order in which the two diffs become ready ends with the same changes if and only if the two diffs are the same |
| BestDiff.BestExactly | go/types/ordered_sequences_diff.go:40-108 | for two collections the race is right in every order if and only if no level compared is empty on one side only and what is never looked at is the same on both sides |
| BestDiff.OrderedSequenceDiffTopDown | go/types/ordered_sequences_diff.go:112-119 | exactly the changed keys if and only if this holds, and a panic if and only if some level compared is empty on one side only |
| BestDiff.OrderedSequenceDiffBest | go/types/ordered_sequences_diff.go:40-108 | exactly the changed keys, whatever is ready when, if this holds |
| BestDiff.AppendPanics | go/types/ordered_sequences_diff.go:141-150 | appending subtrees that are more than leaf chunks to any level above those ends the diff from the top in a panic |
| BestDiff.MissedExample | go/types/ordered_sequences_diff.go:138-156 | two collections of 5001 keys that differ in all but the first: the diff from the top misses the last |
| MergeSpec.Symmetric | go/merge/three_way.go:178-274 | swapping the sides, and what the resolver is told of them, changes neither conflict nor result, at any depth of nested lists, maps, references, sets and structs |
| MergeSpec.IdenticalExactly | go/merge/three_way.go:135-274 | identical candidates merge to themselves if and only if, all the way down behind references, they are collections or structs, the parent is of the same kind and name, and lists are what their diff makes of the parent |
| MergeSpec.UnchangedExactly | go/merge/three_way.go:178-274 | a side that did not change gives way to the other if and only if the same holds of the other |
| MergeSpec.OneChunkExactly | go/types/list.go:255-272 | for lists of one chunk the diff leads to the list if and only if it is within the splice limit or nothing is shared at the start |
| MergeSpec.IdenticalListExample | go/merge/three_way_list.go:14-83 | two equal lists of 5001 elements that share only the first with their parent do not merge to themselves |
| MergeSpec.IdenticalExample | go/merge/three_way.go:143-163 | two equal primitives conflict, although the documentation of ThreeWay says that identical values merge |
| MergeSpec.SetsNeverConflict | go/merge/three_way.go:237-250 | sets never conflict, and the merged set keeps what both kept and has what either added |
| MergeMeaning.MergeableExactly | go/merge/three_way.go:157-163 | two values are merged in turn if and only if they are of one kind, and not a primitive one |
| MergeMeaning.KindsConflict | go/merge/three_way.go:178-220 | values of different kinds, of a kind other than the parent's, or primitive ones always conflict |
| MergeMeaning.MapsMergeExactly | go/merge/three_way_ordered_sequence.go:16-103 | maps conflict if and only if both sides changed some key differently to values that conflict in turn or are not resolved; they merge to a map if and only if each of its keys is what the one side that changed it made of it, or what both agree on, merge or resolve to |
| MergeMeaning.StructsMergeExactly | go/merge/three_way.go:252-274 | so do structs of one name, field by field, and the parent's name stays |
| MergeMeaning.NamesConflict | go/merge/three_way.go:333-350 | structs of different names conflict |
| MergeMeaning.RefsMergeExactly | go/merge/three_way.go:195-202 | references conflict if and only if their targets do, and merge to a reference to what these merge to |
| MergeMeaning.ListsMergeExactly | go/merge/three_way_list.go:14-83 | lists conflict if and only if two of their splices clash, and otherwise merge to the parent with the splices of both sides made |
| MergeMeaning.ClashExample | go/merge/three_way.go:31-44 | one key changed differently on both sides: a conflict with the resolver None, the first side with Ours, the second with Theirs |
| ThreeWayMerge.TreeChanges | go/merge/candidate.go:29-31 | the diff of the trees of two maps is exactly the list of keys at which the maps differ |
| ThreeWayMerge.DiffMaps | go/types/map.go:62-75 | the changes of a map, found on the trees from left to right, or by the race with anything ready at any time where the diff from the top sees everything |
| ThreeWayMerge.LeftRightSees | go/types/map.go:70-75 | a merge that diffs from left to right asks nothing of the shapes of the trees |
| ThreeWayMerge.DiffStructs | go/types/struct.go:166-207 | the changes of a struct, one for each field that differs, in the order of their names |
| ThreeWayMerge.MergeChanges | go/merge/three_way_ordered_sequence.go:73-103 | what two changes of one key come to: agreed, merged in turn, resolved, or a conflict |
| ThreeWayMerge.ThreeWayOrderedSequenceMerge | go/merge/three_way_ordered_sequence.go:16-71 | for any two change streams that are right, one pass over both gives a conflict exactly if some key conflicts, and otherwise every key as its merge says |
| ThreeWayMerge.MergeMaps | go/merge/three_way.go:222-235 | from the trees of three maps to the merged map, end to end, with either way to diff |
| ThreeWayMerge.SetMerge | go/merge/three_way.go:237-250 | sets merged as maps of their elements never conflict and give the merged set |
| ThreeWayMerge.MergeStructs | go/merge/three_way.go:252-274 | from three structs to the merged fields |
| ThreeWayMerge.MergeListTrees | go/merge/three_way_list.go:14-83 | from the trees of three lists to the merged list |
| ThreeWayMerge.ThreeWay | go/merge/three_way.go:135-274 | the recursive merge of lists, maps, references, sets and structs, with any resolver, is the specified one: with the race wherever each diff that it runs sees everything, from left to right always |
| RefQueues.RefByHeight.PopRefsOfHeight | go/types/ref_heap.go:73-79 | takes off exactly the references of the greatest height |
| RefQueues.RefByHeight.DropIndices | go/types/ref_heap.go:42-57 | leaves exactly the references at the other places, in order |
| RefQueues.RefByHeight.Unique | go/types/ref_heap.go:59-70 | keeps each reference once, in order |
| CommonAncestor.FindCommonRef | go/datas/commit.go:100-116 | finds a shared reference exactly if there is one |
| CommonAncestor.ParentsToQueue | go/datas/commit.go:89-98 | the queue becomes the parents of the references taken off together with what was left, sorted |
| CommonAncestor.FindCommonAncestor | go/datas/commit.go:62-87 | in any commit graph, one is found exactly if a common ancestor exists, and no common ancestor is higher |
| CommitProtocol.HeadIsAncestor | go/datas/database_common.go:103-148 | the ancestor found is the head exactly if the commit descends from the head |
| CommitProtocol.DecideCommit | go/datas/database_common.go:116-142 | what is decided, told from ancestry: taken as it is if and only if there is no head or the commit descends from it; otherwise merged if and only if there is a policy and a common ancestor, from a highest one; refused in exactly the remaining cases |
| CommitProtocol.DecidesExactly | go/datas/database_common.go:116-142 | a plan is allowed if and only if ancestry calls for it: every highest common ancestor is, and nothing else |
| CommitProtocol.OnePlan | go/datas/database_common.go:116-142 | these cases exclude one another |
| CommitProtocol.StepKeeps | go/datas/database_common.go:77-199 | every step of every client keeps all heads and everything clients know in the commit graph, which only grows |
| CommitProtocol.SwapMovesForward | go/datas/database_common.go:103-148 | a successful commit or fast-forward changes one dataset, to a strict descendant of its head and of the commit |
| CommitProtocol.FastForwardTries | go/datas/database_common.go:91-101 | a commit that descends from the head its caller knows is tried, one that is no higher is not |
| CommitProtocol.SetHeadSets | go/datas/database_common.go:77-89 | setting a head sets it, whatever it was, and leaves the other datasets alone |
| CommitProtocol.DeleteRemovesWhatItSaw | go/datas/database_common.go:151-178 | a successful delete removes one dataset, with the head it first saw |
| CommitProtocol.InitialHeadStays | go/datas/database_common.go:151-178 | that head stays the same through all retries |
| CommitProtocol.NoHeadLost | go/datas/database_common.go:77-199 | in every run, a published head stays an ancestor of its dataset's head as long as nobody sets or deletes it |
| CommitProtocol.NoCommitLost | go/datas/database_common.go:77-199 | in every run, so does a commit that succeeded |
| CommitProtocol.Succeeds | go/datas/database_common.go:77-199 | a client that has read the root and is not overtaken succeeds whenever its operation is possible: at most one write and one swap later the dataset's head has its commit as an ancestor, or is its commit, or is gone |
| CommitProtocol.NeverStuck | go/datas/database_common.go:77-199 | a client that reads is given the root as it is, one that was overtaken reads again, and a delete gives up exactly if the head has gone or changed |
| Pull.FindCommon | go/datas/pull.go:222-242 | parts two queues into the tallest references of one, those in common, and the rest |
| Pull.PlanWork | go/datas/pull.go:206-220 | one round takes the tallest work of both queues and lowers the sum of their heights |
| Pull.TraverseSource | go/datas/pull.go:259-279 | a chunk the sink lacks is copied and its references followed |
| Pull.TraverseSink | go/datas/pull.go:281-286 | a reference of a closed sink leads only to lower ones that are present, and leaving out the chunks of least height misses nothing: the result is all that the chunk refers to |
| Pull.TraverseCommon | go/datas/pull.go:288-309 | a common commit is followed, except to the parents of the sink's head |
| Pull.AllResults | go/datas/pull.go:136-171 | handling the results of a round in any order keeps the invariant of the search |
| Pull.Round | go/datas/pull.go:123-176 | a round keeps the invariant and makes progress |
| Pull.PullAll | go/datas/pull.go:41-185 | afterwards the sink with what was copied is closed under references and holds everything reachable, and only what was reachable and missing was copied |
| TableIndexes.PrefixIdx | go/nbs/table_reader.go:99-114 | finds the first entry that is not below the prefix |
| TableIndexes.LookupOrdinal | go/nbs/table_reader.go:123-134 | finds an address exactly if it is in the table, also where prefixes collide |
| TableIndexes.HasMany | go/nbs/table_reader.go:142-181 | one pass over two sorted sequences marks exactly the addresses that are in the table and says whether any is left |
| TableFormat.TableWriter.AddChunk | go/nbs/table_writer.go:46-70 | appends the compressed chunk and its checksum and leaves earlier ones in place |
| TableFormat.TableWriter.WriteIndex | go/nbs/table_writer.go:95-127 | writes the sorted index, lengths and suffixes by insertion order, without touching the chunks |
| TableFormat.TableWriter.WriteFooter | go/nbs/table_writer.go:129-142 | the table is what was written so far followed by the count of its chunks, the size of their compressed data and the magic number |
| TableFormat.TableWriter.Finish | go/nbs/table_writer.go:72-81 | the buffer is then a table of exactly the chunks added; which bytes a table consists of is `TableLayout` |
| TableLayout.ChunkStarts | go/nbs/table_writer.go:46-70 | each chunk starts behind those before it, each compressed and followed by four bytes of checksum |
| TableLayout.ChunkBytes | go/nbs/table_writer.go:46-70 | the length of a table, and at each chunk's place its compressed bytes and the checksum, most significant byte first |
| TableLayout.TupleBytes | go/nbs/table_writer.go:95-127 | the index tuples, ordered by prefix: twelve bytes each, the prefix of an address and which chunk it is of, byte by byte |
| TableLayout.TupleFor | go/nbs/table_writer.go:95-127 | every chunk has a tuple |
| TableLayout.LengthBytes | go/nbs/table_writer.go:95-127 | behind the tuples the lengths, four bytes each, and then the last twelve bytes of each address, in the order of the chunks |
| TableLayout.FooterBytes | go/nbs/table_writer.go:129-142 | the last twenty bytes are the count of the chunks, the size of their compressed data and the eight bytes of the magic number |
| TableLayout.CompressedNext | go/nbs/table_writer.go:46-70 | that size adds up the compressed chunks without their checksums |
| TableFormat.ComputeOffsets | go/nbs/table_reader.go:68-79 | reads the lengths and adds them up to the offsets of the chunks |
| TableFormat.ComputePrefixes | go/nbs/table_reader.go:81-91 | reads prefixes and ordinals back |
| TableFormat.ParseTableIndex | go/nbs/table_reader.go:33-66 | the index parsed from any table describes exactly its chunks |
| TableFormat.ParseChunk | go/nbs/table_reader.go:369-379 | undoes compression and checksum |
| TableFormat.Get | go/nbs/table_reader.go:195-211 | gives the bytes stored under an address, and none exactly if the address is not in the table |
| BlockStore.TablesHave | go/nbs/table_set.go:34-41 | an address is found exactly if some table has it |
| BlockStore.TablesGet | go/nbs/table_set.go:52-59 | reads its bytes from any of the tables |
| BlockStore.TablesHaveMany | go/nbs/table_set.go:43-50 | marks the addresses that any table has |
| BlockStore.MemTable.AddChunk | go/nbs/mem_table.go:22-42 | takes a chunk unless it does not fit |
| BlockStore.MemTable.Write | go/nbs/mem_table.go:97-117 | writes exactly the chunks that no table has, each once, in the order in which they were added |
| BlockStore.WriteTable | go/nbs/table_writer.go:46-142 | written and parsed back, a table holds exactly its chunks |
| BlockStore.NomsBlockStore.Spill | go/nbs/table_set.go:92-97 | spilling memory into a table changes nothing of what is held and writes no address twice |
| BlockStore.NomsBlockStore.AddChunk | go/nbs/store.go:133-145 | adds one chunk, spilling if need be; fails exactly if the chunk is larger than the memory table |
| BlockStore.NomsBlockStore.PutMany | go/nbs/store.go:116-130 | however often memory spills, the store holds what it held and the chunks taken |
| BlockStore.NomsBlockStore.Has | go/nbs/store.go:274-282 | says whether a chunk is held |
| BlockStore.NomsBlockStore.GetChunk | go/nbs/store.go:147-164 | returns the content of every address held, whether from memory or through the bytes of a table |
| ManifestProtocol.ReportsExactly | go/nbs/store.go:290-309 | what UpdateRoot returns is right exactly if the manifest had the expected root or did not have the proposed one already |
| ManifestProtocol.SoundExactly | go/nbs/store.go:290-309 | the exact condition under which one update keeps stores and manifest consistent and tells the truth; what an update then does is `Installed`, `CatchesUp` and `TakenForDone` |
| ManifestProtocol.Installed | go/nbs/store.go:290-309 | an update that goes through: the manifest has the proposed root and tables with exactly what the store could read, the store knows both, and other stores are left alone |
| ManifestProtocol.CatchesUp | go/nbs/store.go:301-305 | an update that is refused: the manifest stays, and the store has its root and can read exactly what it could before and what is in the manifest's tables |
| ManifestProtocol.TryAgain | go/nbs/store.go:290-309 | refused and tried again with nothing in between, an update goes through, with what the store could read and what was in the manifest's tables |
| ManifestProtocol.TakenForDone | go/nbs/store.go:301-308 | an update taken for done although it was not: nothing is installed and the store learns nothing |
| ManifestProtocol.SpilledOnce | go/nbs/table_set.go:92-97 | a new table holds exactly what was in memory and in no table |
| ManifestProtocol.PutReadable | go/nbs/store.go:133-145 | a put adds one chunk to what its store can read |
| ManifestProtocol.OpenReads | go/nbs/store.go:87-104 | a store that is opened knows the manifest and can read exactly what is in its tables |
| ManifestProtocol.HarmLosesTable | go/nbs/store.go:290-309 | after any step in a consistent state that installs a root without being harmless there is a continuation in which a table drops out of the manifest |
| ManifestProtocol.StepKeeps | go/nbs/file_manifest.go:95-137 | harmless steps never drop a table from the manifest |
| ManifestProtocol.StillReadable | go/nbs/table_set.go:92-147 | a store that stays open goes on reading everything it could |
| ManifestProtocol.ManifestGrows | go/nbs/file_manifest.go:95-137 | in every harmless run the tables of the manifest only become more |
| ManifestProtocol.Durable | go/nbs/store.go:290-309 | what a store could read when its update succeeded is in the manifest's tables, and these are on disk, ever after |
| ManifestProtocol.ReadableByLaterStores | go/nbs/store.go:290-309 | every store opened later can read it |
| ManifestProtocol.FreshIsHarmless | go/nbs/store.go:290-309 | runs in which no root is proposed twice are harmless |
| ManifestProtocol.SameRootTwice | go/nbs/store.go:301-308 | two stores propose the same root: the second is told it succeeded and its chunk is lost |
| ManifestProtocol.RootComesBack | go/nbs/file_manifest.go:130-136 | a root that comes back lets a store with old tables replace a manifest: everybody is told the truth and an installed chunk is lost |
| ReadBatches.BatchesPartition | go/nbs/table_reader.go:244-293 | the physical reads partition the requests, each from the start of its first chunk to the end of its last and within the size limit |
| ReadBatches.GoodIncludes | go/nbs/table_reader.go:338-366 | every requested chunk lies in its read, even where extending a read resets the amplification |
| ReadBatches.BatchesThrifty | go/nbs/table_reader.go:338-366 | the bytes wasted since the last repeated place, times the threshold, are never more than is read; all the bytes wasted, if no place is repeated after something has been wasted |
| ReadBatches.ReadsMaximal | go/nbs/table_reader.go:338-366 | every read is as long as the limits allow: the next record would make it too long or, with what has been charged so far, too wasteful |
| ReadBatches.BackToBackAtOnce | go/nbs/table_reader.go:338-366 | records that are back to back, and not too long together, are read at once |
| ReadBatches.ChargedExactly | go/nbs/table_reader.go:338-366 | what is compared with the threshold is all the waste of a read if and only if no place is repeated after something has been wasted |
| ReadBatches.ForgottenExample | go/nbs/table_reader.go:338-347 | a chunk asked for twice between two gaps: more is wasted than the threshold allows |
| ReadBatches.GetManyBatches | go/nbs/table_reader.go:244-293 | the loop groups the requests into these reads |
| ReadBatches.CalcReads | go/nbs/table_reader.go:381-426 | predicts exactly the number of reads that getMany makes, for any records one to a request, and is never more than there are records |
| TableReads.FindOffsets | go/nbs/table_reader.go:300-336 | finds, in one pass over two sorted sequences, the place of every requested chunk that is in the table, each once; what it says is left is whether some request has no prefix in the table |
| TableReads.RemainingExactly | go/nbs/table_reader.go:300-336 | that says whether any request is still open if and only if some request has no prefix in the table or no open request collides with a chunk of it |
| TableReads.Collision | go/nbs/table_reader.go:300-336 | any table of one chunk, asked for another with the same prefix: nothing is found and nothing is said to be left |
| TableReads.TableOrder | go/nbs/table_reader.go:262-269 | sorted by offset, the places found never overlap |
| TableReads.OneRecordEach | go/nbs/table_reader.go:300-336 | for distinct addresses every request gets at most one place, also where prefixes collide |
| TableReads.ReadAtOffsets | go/nbs/table_reader.go:224-240 | one read gives each of its requests the bytes stored under its address |
| TableReads.GetMany | go/nbs/table_reader.go:244-293 | all reads together give every request that is in the table its bytes and leave the others alone |
| StoreReads.TablesGetMany | go/nbs/table_set.go:61-69 | tables are asked one after the other until one says that nothing is left |
| StoreReads.AllFoundWithout | go/nbs/table_set.go:61-69 | without prefix collisions every chunk that some table holds is found |
| StoreReads.FoundExactly | go/nbs/table_set.go:61-69 | whatever is asked for together, a chunk is found if and only if some table has it and every table before that has not even the prefix of some request still open |
| StoreReads.AloneExactly | go/nbs/table_set.go:61-69 | asked for alone, if and only if no earlier table has its prefix for another chunk |
| StoreReads.LostBehind | go/nbs/table_set.go:61-69 | behind any table that has only another chunk with the same prefix a chunk is held but not found |
| StoreReads.LoseChunk | go/nbs/table_set.go:61-69 | any two chunks whose addresses collide, written to tables and parsed back: one of them is held and getMany returns nothing for it |
| ByteSeqs.WriteByte | go/types/codec.go:227-249 | numbers are written most significant byte first: byte i of k counts for 256 to the power of k - 1 - i |
| ByteSeqs.ReadFirst | go/types/codec.go:115-137 | each byte read counts for as much |
| ByteSeqs.FourBytes | go/types/codec.go:227-235 | a 32-bit number, byte by byte |
| ByteSeqs.EightBytes | go/types/codec.go:237-249 | a 64-bit number, byte by byte |
| ValueLayout.UvarintBytes | go/types/codec.go:251-258 | seven bits to a byte, the least significant first, the eighth bit set in all but the last byte, and no byte more than the number needs |
| ValueLayout.VarintBytes | go/types/codec.go:251-258 | signed numbers take turns: 0, -1, 1, -2, 2 are written as 0, 1, 2, 3, 4 |
| ValueLayout.StringBytes | go/types/codec.go:268-275 | the length of a string, then its bytes |
| ValueLayout.TypeBytes | go/types/value_encoder.go:32-56 | the kind byte that each type begins with, and what follows it in which order |
| ValueLayout.FieldBytes | go/types/value_encoder.go:186-205 | a field is its name and then its type |
| ValueLayout.FieldsInOrder | go/types/value_encoder.go:186-205 | the fields of a struct follow one another in order |
| ValueLayout.TypesInOrder | go/types/value_encoder.go:32-56 | and so do the types of a union |
| ValueLayout.ValueBytes | go/types/value_encoder.go:119-173 | the kind byte that each value begins with, whether it is in one chunk, how many elements it has, and what follows in which order |
| ValueLayout.TupleBytes | go/types/value_encoder.go:89-117 | a tuple is a reference, a key by value or in the form of a reference, and the number of values |
| ValueLayout.ValuesInOrder | go/types/value_encoder.go:62-69 | elements follow one another in order |
| ValueLayout.EntriesInOrder | go/types/value_encoder.go:79-87 | so do entries, each the key and then the value |
| ValueLayout.TuplesInOrder | go/types/value_encoder.go:89-117 | and the chunks of a larger collection |
| ValueLayout.OrderedExactly | go/types/noms_kind.go:12-41 | a value is ordered by itself, and not by its hash, if and only if its bytes begin with 0, 1 or 2 |
| ValueLayout.BytesExample | go/types/value_encoder.go:119-173 | the bytes of the string "a" and of the numbers -1 and 100 |
| TypeCodec.TypeRoundTrip | go/types/value_decoder.go:41-74 | reading a written type gives it back and ends right after it |
| TypeCodec.StructRoundTrip | go/types/value_decoder.go:210-232 | the same for struct types with all their fields |
| ValueCodec.UvarintRoundTrip | go/types/codec.go:139-146 | a number of any size is read back |
| ValueCodec.VarintRoundTrip | go/types/codec.go:251-258 | and of either sign |
| ValueCodec.ValueRoundTrip | go/types/value_decoder.go:136-184 | reading a written value, leaf or chunked, nested to any depth, gives it back and ends right after it |
| ValueCodec.KeyRoundTrip | go/types/value_decoder.go:115-134 | the key of a chunk is read back in its by-value or by-hash form |
| ValueCodec.Leftover | go/types/value_decoder.go:136-184 | with any bytes after it, a value is read back and exactly those bytes are left |
| ValueCodec.Injective | go/types/value_encoder.go:119-173 | no two values have the same bytes, and none is a prefix of another |
| Codec.BinaryNomsWriter.constructor | go/types/codec.go:184-190 | a new writer holds no data |
| Codec.BinaryNomsWriter.EnsureCapacity | go/types/codec.go:196-210 | doubling makes room and keeps the data; the buffer stays below twice what is needed |
| Codec.BinaryNomsWriter.Emit | go/types/codec.go:212-249 | appends bytes to the data, whether or not the buffer is replaced |
| Codec.BinaryNomsWriter.WriteUvarint | go/types/codec.go:251-258 | the loop writes the variable-length form |
| Codec.BinaryNomsWriter.WriteType | go/types/value_encoder.go:32-56 | appends exactly the encoding of a type |
| Codec.BinaryNomsWriter.WriteStructType | go/types/value_encoder.go:186-205 | appends exactly the encoding of a struct type |
| Codec.BinaryNomsWriter.WriteMetaSequence | go/types/value_encoder.go:89-117 | appends flag, count and tuples of a chunked sequence |
| Codec.BinaryNomsWriter.WriteValue | go/types/value_encoder.go:119-173 | appends exactly the encoding of a value |
| Codec.BinaryNomsReader.ReadType | go/types/value_decoder.go:53-74 | reads what the type decoder says and stops where it says, also on bytes nobody wrote |
| Codec.BinaryNomsReader.ReadStructType | go/types/value_decoder.go:210-232 | the same for struct types |
| Codec.BinaryNomsReader.ReadTuples | go/types/value_decoder.go:115-134 | the loop reads the tuples of a chunked sequence |
| Codec.BinaryNomsReader.ReadValue | go/types/value_decoder.go:136-184 | reads what the value decoder says and stops where it says |
| Codec.EncodeToBytes | go/types/codec.go:17-28 | the bytes of a value, which `ValueLayout` gives one by one, decode to it whatever follows them |
| Codec.DecodeFromBytes | go/types/codec.go:30-38 | bytes that encode a value give that value, and a value is given only if it uses up all the bytes |

## Left out

- TreeSplice.Splice: requires that going up from the edited values the levels come to an end (`Ends`), because the code recurses for ever on one-tuple levels that all happen to hit the chunk pattern; `bound` only measures this.
- TreeSplice.Build: requires the same of the values it is given.
- Histories.EditAll: requires the same after every edit.
- Chunker.LevelChunker.Done: ends one level; going on to the next and finding the root are `TreeSplice.ClimbsExactly`, `TreeSplice.Descend` and `TreeSplice.FindRoot`.
- IndexedDiff.DiffWithLimit: says when the result is a diff (every level meets the limit or shares no prefix), not that it is none otherwise; at a single level both directions are proved (`EditDistance.ExactlyWhen`), but two different levels of arbitrary trees may have the same values.
- ListMerge.ThreeWayListMerge: requires the three lengths together to stay below 2^64 - 1, so that 64-bit offsets do not run into the value that marks a missing splice.
- ThreeWayMerge.ThreeWay: candidates are present, paths and progress are not tracked, and each list in the values is shorter than 2^62. With the race it requires that each diff it runs sees everything; that this is necessary as well is proved of each diff (`BestDiff.BestExactly`), not of whole merges, where a change that one diff misses may not matter.
- MergeSpec.Works: what is assumed of storage is that every map and list is some tree of its entries or elements; `MergeSpec.OneChunkWorks` gives one.
- BestDiff.OrderedSequenceDiffBest: a panic ends both diffs at once; that changes may have been sent before it is not modelled.
- ManifestProtocol.Durable: holds in harmless runs; that each step be harmless is necessary as well (`ManifestProtocol.HarmLosesTable`), and that no root is proposed twice is sufficient.
- CommitProtocol.Step: takes the outcome of a value merge as any commit whose parents are the commit and the head; what merging produces is in `ThreeWayMerge`.
- Codec.BinaryNomsWriter.EnsureCapacity: does not model 32-bit wrap-around of buffer sizes.
- The levels of a chunker run one after another instead of interleaved: what a level does to its parent depends only on its own items, and the parent sees the same calls in the same order.
- Hashing: equal hashes are taken to mean equal contents, everywhere.
- Read-ahead, caches, channels, cancellation and progress reports: they change when things are read, not what.
- The default values of hash window and pattern, and splitting chunks of values by their own bytes: both are parameters.
- Keys and field names stand for their place in the order of all of them, and sorting is any sorted permutation.
- Searching a cursor's place by key or by index, and editing ordered collections by key: only the sequence that an edit ends up splicing is modelled.
- Applying diffs through paths (`go/diff`) and schema or type simplification.
- Compression, checksums and table names are parameters or content; buffer sizes computed from compression bounds are assumed sufficient.
- HTTP, AWS, DynamoDB and LevelDB stores, hints, and garbage.
- Types whose cycles have been resolved to shared pointers, the type cache, and the conversion between floating-point numbers and integer with exponent; a number is the pair that is written.
- Decoding a key that is neither a reference nor ordered by value: no writer produces one; writing a key with the empty hash panics, which `ValueCodec.WellFormed` excludes.
- JavaScript counterparts other than the rolling hash, command-line tools, and the query language.
