# Crossword filler: a verified model

This project models the solver of a backtracking crossword filler (Go, by
NitzanHen) and the small container library it runs on, and proves properties
of the model in Dafny.

The grid is a `height` by `width` matrix of one-character strings: `"."` for an
empty cell, `"1"` for a stop cell that no word may cross, or a letter. A *cut*
is a straight run of cells (start cell, orientation, length). The filler
works as follows:

- It takes the maximal stop-free runs of every row and column that are longer
  than one cell.
- For each open cut it computes the corpus words that could still fit. A
  permissive pattern derived from the cut's letters does this filtering.
- It tries the cuts with the fewest candidates first.
- Each candidate word is tried at every offset where it fits exactly and
  where the cells just outside it do not already hold letters.
- An attempt writes the word into a copy of the grid and marks the two
  flanking cells as stops.
- It then recomputes the open cuts and splits them into independent groups:
  the connected components of the graph whose nodes are cuts and whose edges
  join cuts that cross.
- It fills the groups one after another, threading the grid through, and
  backtracks when a group cannot be completed.

The containers are these:

- an append-only singly linked list;
- an insertion-ordered map, which stores its doubly linked chain as
  prev/next key links inside the map entries;
- a set built on the ordered map;
- an undirected graph built on a set of nodes and an ordered map of
  neighbour lists.

The modules follow the Go files:

| module | file | models |
|---|---|---|
| `Seqs` | `seqs.dfy` | reference functions on sequences: filtering, de-duplication, removing an element, a stable sort by key |
| `Lists` | `list.dfy` | `src/structure/list.go`, as a class over heap nodes with a `Repr` footprint |
| `OrderedMaps` | `ordered_map.dfy` | `src/structure/ordered_map.go`, as a class whose `data` map holds the chain links; the ghost `order` is the chain |
| `Sets` | `set.dfy` | `src/structure/set.go`, as a class over a shared `OrderedMap<T, bool>` |
| `Graphs` | `graph.dfy` | `src/structure/graph.go`: depth-first search, connected components, and the reachability and partition theory behind them |
| `Utils` | `utils.dfy` | `src/crossword/utils.go` |
| `Geometry` | `geometry.dfy` | the `Cut` record (`src/crossword/cut.go`) and the pure geometry of `src/crossword/cut_matrix.go` |
| `CutMatrices` | `cut_matrix.dfy` | the rest of `src/crossword/cut_matrix.go`: the grid class, cut extraction, conflict-checked writes |
| `Patterns` | `patterns.dfy` | the two regular-expression shapes of `src/crossword/builder.go`, as a datatype with a matcher |
| `Corpora` | `corpus.dfy` | `src/crossword/corpus.go` |
| `Crosswords` | `crossword.dfy` | `src/crossword/crossword.go` and `GetCutGraph` of `src/crossword/cut.go` |
| `Builders` | `builder.dfy` | `src/crossword/builder.go` |

Each mutating operation is a method whose `ensures` ties the new state to a
function of the old one:

- `CutMatrix.Set` and `Written`;
- `CutMatrix.FillIn` and `FillResult`;
- `Crossword.Embed` and `EmbedOutcome`;
- `OrderedMap.Set` and `Model()[key := value]`.

Lemmas then prove the properties the code promises about those functions.
Each loop that computes a value is a `while`/`for` loop whose invariants
tie it to a reference function (`Runs`, `Filtered`, `Dedup`,
`IndexOfFirst`, ...). The first-success search loops of `build` and
`TryCut` carry no such invariant; what they return is given by the
contracts of the calls in their bodies.

`Builder.build` is recursive. It terminates because every embedding uses up
a corpus word that was still unused, so `build` decreases the number of
corpus words not yet embedded.

Two behaviours of the code worth noting:

- `Crossword.Embed` does not reject a word shorter than its cut. Only a
  word longer than the cut fails, through `FillIn`.
- The exact pattern is unanchored. It matches position by position only
  because `isValidOffset` builds the subcut with the word's own length.

## Model

| member | source | states |
|---|---|---|
| Geometry.Cut.Copy | src/crossword/cut.go:24-26 | the copy equals the cut in all four fields |
| Geometry.Move | src/crossword/cut_matrix.go:31-40 | a horizontal step keeps the row and advances the column by `step`; a vertical step keeps the column and advances the row |
| Geometry.InCutIffStep | src/crossword/cut_matrix.go:42-51 | (i, j) is in the cut iff it is the cell k steps from the start for some 0 <= k < len |
| Geometry.Subcut | src/crossword/cut_matrix.go:157-161 | the subcut keeps the orientation, starts `start` steps along the cut and has length `end - start` |
| Geometry.SubcutCell | src/crossword/cut_matrix.go:157-161 | the k-th cell of a subcut is the (start + k)-th cell of the cut |
| Geometry.SubcutInside | src/crossword/cut_matrix.go:157-161 | a subcut with 0 <= start <= end <= len covers only cells of the cut |
| Geometry.DoCutsMeetSymmetric | src/crossword/cut_matrix.go:184-200 | crossing is a symmetric relation |
| Geometry.DoCutsMeetSelf | src/crossword/cut_matrix.go:186-188 | every cut meets itself |
| Geometry.DoCutsMeetParallel | src/crossword/cut_matrix.go:186-188 | cuts of one orientation meet iff they are equal |
| Geometry.DoCutsMeetCrossing | src/crossword/cut_matrix.go:190-199 | cuts of different orientations meet iff some cell lies in both |
| CutMatrices.SubcutInGrid | src/crossword/cut_matrix.go:157-161 | a subcut of an in-grid cut lies in the grid |
| CutMatrices.CutCells | src/crossword/cut_matrix.go:58-68 | exactly `len` cells; the k-th is at `Move(row, col, o, k)` and carries that cell's value |
| CutMatrices.CutData | src/crossword/cut_matrix.go:70-75 | exactly `len` values; the k-th is the value of the k-th cell of the cut |
| CutMatrices.SubcutData | src/crossword/cut_matrix.go:157-161 | the data of a subcut is the slice [start, end) of the cut's data |
| CutMatrices.RunsNoStop | src/crossword/cut_matrix.go:77-102 | a non-empty cut without stops is one run covering all of it |
| CutMatrices.RunsMaximal | src/crossword/cut_matrix.go:77-102 | every run is a maximal stop-free run, bounded by a stop or an end of the cut, and the runs come in order along the cut |
| CutMatrices.RunsCover | src/crossword/cut_matrix.go:77-102 | every non-stop cell lies in one of the runs; with RunsMaximal, the runs are exactly the maximal stop-free runs |
| CutMatrices.RunsCountNonStop | src/crossword/cut_matrix.go:77-102 | the run lengths sum to the number of non-stop cells |
| CutMatrices.RunsInside | src/crossword/cut_matrix.go:77-102 | every run lies within the cut |
| CutMatrices.RunsOfInGrid | src/crossword/cut_matrix.go:77-102 | every subcut of an in-grid cut lies in the grid |
| CutMatrices.LongRunsInGrid | src/crossword/cut_matrix.go:104-115 | every cut `SubcutsOf` keeps lies in the grid and is longer than one cell |
| CutMatrices.RunsOfOpen | src/crossword/cut_matrix.go:77-102 | a cut with no stop cell is its own only subcut |
| CutMatrices.LongRunsOpen | src/crossword/cut_matrix.go:104-115 | cuts longer than one cell that contain no stop come back unchanged and in order |
| CutMatrices.InitialCuts | src/crossword/cut_matrix.go:120-126 | there are `width + height` starting cuts |
| CutMatrices.InitialCutsInGrid | src/crossword/cut_matrix.go:117-126 | the row cuts and column cuts all lie in the grid |
| CutMatrices.FreshGridCuts | src/crossword/cut_matrix.go:117-129 | on an all-empty grid with width, height > 1, `GetCuts` yields the `height` full rows and then the `width` full columns |
| CutMatrices.WrittenSucceeds | src/crossword/cut_matrix.go:136-155 | a write succeeds iff (i, j) is in bounds and empty or already equal to the value; out of bounds gives `OutOfBounds`, a conflict gives `Populated` |
| CutMatrices.WrittenOnly | src/crossword/cut_matrix.go:136-155 | a failed write leaves the grid unchanged; a successful one sets (i, j) to the value; no other cell changes |
| CutMatrices.WrittenIdempotent | src/crossword/cut_matrix.go:144-154 | rewriting a cell's own value succeeds and changes nothing |
| CutMatrices.WrittenOverEmpty | src/crossword/cut_matrix.go:144-154 | writing over an empty in-bounds cell always succeeds |
| CutMatrices.WrittenKeeps | src/crossword/cut_matrix.go:144-154 | a write never overwrites a non-empty cell with a different value, and keeps every cell one character when the value is one |
| CutMatrices.FilledCells | src/crossword/cut_matrix.go:172-181 | cells before the first failing index hold their values, in order, and stay written after a failure (no rollback); all other cells are unchanged; no error iff nothing failed |
| CutMatrices.FilledSucceeds | src/crossword/cut_matrix.go:172-181 | the writes from index k succeed iff every cell admits its value (empty or already equal) |
| CutMatrices.FilledKeeps | src/crossword/cut_matrix.go:172-181 | filling keeps every non-empty cell and keeps cells one character long |
| CutMatrices.FillResultCells | src/crossword/cut_matrix.go:163-182 | after a successful fill, the first \|vals\| values of the cut's data are `vals` |
| CutMatrices.FillPlaced | src/crossword/cut_matrix.go:163-182 | after a successful fill, the data was no longer than the cut, its first \|vals\| cells hold `vals`, and every other cell is unchanged |
| CutMatrices.FillSucceeds | src/crossword/cut_matrix.go:163-182 | the fill succeeds iff the data fits in the cut and every target cell admits its value; too-long data fails before any write |
| CutMatrices.KeepsTrans | src/crossword/cut_matrix.go:144-154 | keeping the non-empty cells is transitive across successive writes |
| CutMatrices.ScanStep | src/crossword/cut_matrix.go:84-94 | one cell of the scan: a stop closes the pending run when it is non-empty and restarts one step further on; other cells extend the run; the runs emitted so far stay a prefix of the runs of the cut |
| CutMatrices.ScanCells | src/crossword/cut_matrix.go:77-102 | the scan loop emits exactly the subcuts of the maximal stop-free runs of the cut, in order |
| CutMatrices.AddLong | src/crossword/cut_matrix.go:106-111 | appends to the list exactly the runs longer than one cell, in order |
| CutMatrices.CutMatrix.constructor | src/crossword/cut_matrix.go:21-29 | a `height` by `width` grid with every cell empty and the given empty and stop markers |
| CutMatrices.CutMatrix.IsValid | src/crossword/cut_matrix.go:131-134 | true iff the row is below the height and the column below the width, both non-negative |
| CutMatrices.CutMatrix.IterateCut | src/crossword/cut_matrix.go:58-68 | the loop yields `CutCells` of the cut |
| CutMatrices.CutMatrix.GetCutData | src/crossword/cut_matrix.go:70-75 | the cut's values, `CutData` |
| CutMatrices.CutMatrix.GetSubcuts | src/crossword/cut_matrix.go:77-102 | the maximal stop-free runs of the cut, in order, all in the grid |
| CutMatrices.CutMatrix.SubcutsOf | src/crossword/cut_matrix.go:104-115 | the runs of each cut longer than one cell, in input order |
| CutMatrices.CutMatrix.GetCuts | src/crossword/cut_matrix.go:117-129 | the long runs of the row cuts followed by the column cuts |
| CutMatrices.CutMatrix.Set | src/crossword/cut_matrix.go:136-155 | the error and the new grid are `Written` of the old grid (bounds check, then conflict check, then the write) |
| CutMatrices.CutMatrix.FillIn | src/crossword/cut_matrix.go:163-182 | the error and the new grid are `FillResult` of the old grid (length check, then cell-by-cell writes that stop at the first error) |
| CutMatrices.CutMatrix.Copy | src/crossword/cut_matrix.go:210-223 | a fresh matrix with equal dimensions, markers and cells, so writes to it leave the original alone |
| Crosswords.CutWithWord.Copy | src/crossword/crossword.go:110-112 | the copy equals the embedding |
| Crosswords.EmbedRecords | src/crossword/crossword.go:44-68 | a used word fails with `AlreadyEmbedded` and leaves grid and embeddings alone; any failure records nothing; a success appends exactly (cut, word) |
| Crosswords.EmbedSucceeds | src/crossword/crossword.go:44-54 | embedding succeeds iff the word is unused, fits in the cut and every cell admits its letter |
| Crosswords.EmbedPlaces | src/crossword/crossword.go:56-65 | after a success the first \|word\| cells hold the letters; each in-bounds flank becomes a stop when it was empty or a stop and is otherwise unchanged; no other cell changes |
| Crosswords.EmbedKeeps | src/crossword/crossword.go:44-65 | embedding keeps every non-empty cell and keeps cells one character long |
| Crosswords.ConnectFrom | src/crossword/crossword.go:82-88 | one outer iteration connects cut i with every later cut it meets; edges stay exactly the meeting pairs visited |
| Crosswords.ConnectMeeting | src/crossword/crossword.go:82-88 | after the nested loops, v is a neighbour of u iff the cuts meet |
| Crosswords.AllVisited | src/crossword/crossword.go:82-88 | visiting all pairs i <= j yields exactly the meeting relation |
| Crosswords.CutGraph | src/crossword/cut.go:51-65 | the nodes are the given set; v is a neighbour of u iff they meet; every cut is its own neighbour |
| Crosswords.Crossword.constructor | src/crossword/crossword.go:15-22 | every cell empty `"."`, stop marker `"1"`, no embeddings |
| Crosswords.Crossword.IsWordEmbedded | src/crossword/crossword.go:24-32 | true iff some embedding has that word |
| Crosswords.Crossword.IsCutEmbedded | src/crossword/crossword.go:34-42 | true iff some embedding has that cut |
| Crosswords.Crossword.Embed | src/crossword/crossword.go:44-68 | the error, new grid and new embeddings are `EmbedOutcome` of the old state |
| Crosswords.Crossword.Copy | src/crossword/crossword.go:93-103 | a fresh crossword with a fresh matrix, equal cells and equal embeddings |
| Crosswords.Crossword.GetCutGraph | src/crossword/crossword.go:72-91 | the nodes are the non-embedded `GetCuts`, each once in first order; v is a neighbour of u iff the cuts meet |
| Patterns.GracefulAllDots | src/crossword/builder.go:47-52 | when every cell is `"."`, the pattern accepts exactly the strings of length 1..len |
| Patterns.FramingFits | src/crossword/builder.go:54-71 | the framed pattern accepts w iff w is at most o free characters, then a position-wise match of cells o..t, then at most len-1-t free characters |
| Patterns.GracefulFramed | src/crossword/builder.go:37-71 | with o and t the first and last non-`"."` cells, the permissive pattern accepts exactly the framed words |
| Patterns.GracefulLength | src/crossword/builder.go:34-72 | every word the permissive pattern accepts has length 1..len |
| Patterns.GracefulAdmitsPlacement | src/crossword/builder.go:34-72 | a word that fits position-wise at some offset and covers every letter of the cut is accepted |
| Patterns.ExactInPlace | src/crossword/builder.go:112-115 | for a word of the subcut's length, the unanchored exact pattern matches iff each cell is `"."` or the word's letter there |
| Builders.GracefulCutPattern | src/crossword/builder.go:34-72 | the pattern built with `FirstIndex`/`LastIndex` is the permissive pattern of the cut data |
| Builders.CandidatesAre | src/crossword/builder.go:74-84 | w is a candidate iff it is a corpus word, the permissive pattern accepts it and it is not yet embedded; candidates fit in the cut |
| Builders.ValidOffsetEmbeds | src/crossword/builder.go:86-116 | embedding an unused word at a valid offset succeeds and leaves both flanks as stops |
| Builders.IsValidOffset | src/crossword/builder.go:86-116 | false when an in-bounds flank holds a letter; otherwise the exact pattern decides |
| Builders.ValidOffsets | src/crossword/builder.go:169-173 | exactly the offsets in 0..len-\|word\| that pass `isValidOffset`, in increasing order |
| Builders.GrowsTrans | src/crossword/builder.go:202-218 | threading results through components keeps the grow relation: same size, earlier embeddings a prefix, non-empty cells kept, new words from the corpus |
| Builders.SortBySize | src/crossword/builder.go:190-194 | the same components, reordered ascending by size |
| Builders.RemainingCuts | src/crossword/builder.go:183-187 | the long runs of the old cuts on the new grid, minus the filled subcut |
| Builders.ComponentsOf | src/crossword/builder.go:189 | each component is a subset of the cuts that no other cut crosses, and together they cover every cut |
| Builders.SplitComponents | src/crossword/builder.go:189-194 | the components, isolated and covering, sorted ascending by size |
| Builders.EmbedAt | src/crossword/builder.go:177-181 | embedding into a fresh copy succeeds, appends (subcut, word), grows the crossword and uses up one more corpus word |
| Builders.Builder.constructor | src/crossword/builder.go:24-26 | the builder keeps the dimensions and a corpus of the words with an empty cache |
| Builders.Builder.GetMatchingWords | src/crossword/builder.go:74-84 | the corpus words the permissive pattern accepts, minus embedded words, in corpus order |
| Builders.Builder.Tally | src/crossword/builder.go:141-156 | reports blocked iff some cut has no candidate; otherwise exactly one entry per cut, in the set's order, each with its candidates |
| Builders.Builder.TallyMap | src/crossword/builder.go:141-153 | the loop records each cut's non-empty candidates in a fresh ordered map, keyed in the set's order, or stops blocked at the first cut without any |
| Builders.TalliedStep | src/crossword/builder.go:148-152 | recording the next cut's non-empty candidates extends the tally by that cut, which was not yet a key |
| Builders.TalliedAll | src/crossword/builder.go:153-156 | a complete tally holds every cut in order, and every cut has a candidate |
| Builders.Builder.build | src/crossword/builder.go:130-224 | no cuts gives `cw` itself; a cut without candidates gives null; a result grows from `cw`, embeds more words when there were cuts, and leaves every given cut filled |
| Builders.Builder.TryCut | src/crossword/builder.go:162-221 | a non-null result of trying one cut's candidates at their valid offsets is fresh, grows from `cw`, embeds more words and leaves every given cut filled |
| Builders.EmbedAndSplit | src/crossword/builder.go:176-194 | the word is embedded into a fresh copy, and the components hold every long run of the cuts on the new grid other than the subcut just filled |
| Builders.Builder.TryOffset | src/crossword/builder.go:176-219 | a non-null result of one embedding attempt is fresh, grows from `cw`, embeds more words and leaves every given cut filled |
| Builders.Builder.SolveAll | src/crossword/builder.go:202-218 | threading the grid through the components in turn gives null or a crossword grown from `next` in which every cut of every component is filled |
| Builders.FilledCutRuns | src/crossword/cut_matrix.go:104-115 | a cut is filled exactly when every cell of each of its long runs holds a letter |
| Builders.FilledCutKeeps | src/crossword/builder.go:202-218 | later embeddings, which keep every non-empty cell, keep a filled cut filled |
| Builders.FilledPartsKeeps | src/crossword/builder.go:202-218 | later embeddings keep the components solved so far filled |
| Builders.CoveredFilled | src/crossword/builder.go:189-218 | cuts that each lie in a filled component are filled |
| Builders.FilledFromRuns | src/crossword/builder.go:176-187 | a cut is filled once the subcut written into it is lettered and every other long run of it on the new grid is filled |
| Builders.FilledAfterEmbed | src/crossword/builder.go:176-187 | all given cuts are filled once the written subcut is lettered and the remaining long runs are filled |
| Builders.EmbeddedLettered | src/crossword/builder.go:177-181 | a successful embedding of a word without `"."` characters leaves no cell of its subcut empty |
| Builders.EmbedThenFilled | src/crossword/builder.go:176-219 | an embedding followed by filling the remaining cuts, keeping every letter, fills all the given cuts |
| Builders.Builder.Build | src/crossword/builder.go:226-233 | a result is a valid fresh crossword of the builder's size whose words all come from the corpus; when width, height > 1 it holds at least one word and every row and column is filled |
| Corpora.Corpus.constructor | src/crossword/corpus.go:12-14 | keeps the word list, with an empty cache |
| Corpora.Corpus.Filter | src/crossword/corpus.go:16-31 | the corpus words the pattern accepts, in corpus order, on a hit or a miss; the cache gains that entry and is otherwise unchanged |
| Utils.Filter | src/crossword/utils.go:7-17 | the items satisfying the predicate, in order |
| Utils.Map | src/crossword/utils.go:19-26 | the same length, with `transform(items[i])` at position i |
| Utils.MakeMatrix | src/crossword/utils.go:28-38 | `rows` rows of `cols` entries, entry (i, j) equal to `factory(i, j)` |
| Utils.Chars | src/crossword/utils.go:40-46 | one single-character string per character |
| Utils.CharsRoundTrip | src/crossword/utils.go:40-46 | as many strings as characters, each of length one, and joining them gives the string back |
| Utils.IndexOfFirst | src/crossword/utils.go:48-55 | the least index satisfying the predicate, or -1 iff there is none |
| Utils.IndexOfLast | src/crossword/utils.go:57-64 | the greatest index satisfying the predicate, or -1 iff there is none |
| Utils.FirstIndex | src/crossword/utils.go:48-55 | the forward scan returns `IndexOfFirst` |
| Utils.LastIndex | src/crossword/utils.go:57-64 | the backward scan returns `IndexOfLast` |
| Utils.IndexArray | src/crossword/utils.go:66-73 | the sequence 0, 1, ..., size - 1 |
| Seqs.SortByProperties | src/crossword/builder.go:157-159 | the sort used for ordering is ascending by key and a permutation of its input |
| Seqs.DedupProperties | src/structure/set.go:13-20 | de-duplication keeps each element once and exactly the elements of the input |
| Lists.List.constructor | src/structure/list.go:8-12 | an empty list with nil head and tail |
| Lists.List.Size | src/structure/list.go:23-25 | the number of values added |
| Lists.List.Add | src/structure/list.go:28-40 | appends the value at the end and increases the size by one; the chain invariant is kept |
| Lists.List.ToSlice | src/structure/list.go:42-52 | the values in insertion order |
| Lists.ListFromSlice | src/structure/list.go:14-21 | a list holding the slice's values in order |
| Lists.SliceRoundTrip | src/structure/list.go:14-52 | converting a slice to a list and back gives the slice |
| OrderedMaps.SealedChain | src/structure/ordered_map.go:8-11 | the invariant the map keeps is exactly one doubly linked chain through the stored keys, each once |
| OrderedMaps.ChainReplace | src/structure/ordered_map.go:33-37 | replacing a stored value keeps the chain |
| OrderedMaps.ChainAppend | src/structure/ordered_map.go:39-52 | linking a new key after the last gives the chain extended by it |
| OrderedMaps.ChainRemove | src/structure/ordered_map.go:62-79 | unlinking a key gives the chain without it, the others in their order |
| OrderedMaps.Unlink | src/structure/ordered_map.go:62-79 | the unlinking steps drop the key's node and link its neighbours to each other (`Removed`); `first` or `last` moves to the neighbour when the key was an end |
| OrderedMaps.OrderedMap.constructor | src/structure/ordered_map.go:13-16 | an empty map with no keys |
| OrderedMaps.OrderedMap.Size | src/structure/ordered_map.go:18-20 | the number of stored keys |
| OrderedMaps.OrderedMap.Get | src/structure/ordered_map.go:22-24 | the stored value, or the zero value for an absent key |
| OrderedMaps.OrderedMap.Has | src/structure/ordered_map.go:26-30 | true iff the key is stored |
| OrderedMaps.OrderedMap.Set | src/structure/ordered_map.go:32-53 | maps the key to the value; an existing key keeps its place, a new key goes last |
| OrderedMaps.OrderedMap.Delete | src/structure/ordered_map.go:55-80 | removes the key and keeps the order of the rest; an absent key is a no-op |
| OrderedMaps.OrderedMap.Keys | src/structure/ordered_map.go:118-130 | the keys in insertion order |
| OrderedMaps.OrderedMap.Values | src/structure/ordered_map.go:132-144 | the values in key insertion order, one per key |
| OrderedMaps.OrderedMap.Entries | src/structure/ordered_map.go:104-116 | the key/value pairs in insertion order, one per key |
| OrderedMaps.OrderedMap.IterateEntries | src/structure/ordered_map.go:82-89 | calls the function once per key, in insertion order, with the key's value |
| Sets.Set.ElementsDistinct | src/structure/set.go:3-5 | a set lists each element once |
| Sets.Set.constructor | src/structure/set.go:7-11 | an empty set |
| Sets.Set.Size | src/structure/set.go:22-24 | the number of elements |
| Sets.Set.Add | src/structure/set.go:27-31 | adds the element last when it is new; adding one already present changes nothing |
| Sets.Set.Delete | src/structure/set.go:34-38 | removes the element, keeping the order of the rest |
| Sets.Set.Has | src/structure/set.go:41-43 | true iff the element is present |
| Sets.Set.Union | src/structure/set.go:46-52 | the set becomes its old elements followed by the other set's elements it lacked, in the other set's order; only this set's map is written |
| Sets.Set.Filter | src/structure/set.go:55-63 | keeps exactly the elements satisfying the predicate, in order |
| Sets.Set.Intersect | src/structure/set.go:66-68 | keeps exactly the elements also in the other set |
| Sets.Set.Diff | src/structure/set.go:71-73 | keeps exactly the elements not in the other set |
| Sets.Set.Copy | src/structure/set.go:76-81 | a fresh set with the same elements in the same order |
| Sets.Set.ToSlice | src/structure/set.go:83-90 | the elements in first-insertion order |
| Sets.SetFromSlice | src/structure/set.go:13-20 | the slice's elements, each once, in first-occurrence order |
| Graphs.Added | src/structure/graph.go:25-26 | adding a neighbour to a list adds exactly that node, keeps the list duplicate-free and is a no-op when present |
| Graphs.EmptyRepresents | src/structure/graph.go:8-19 | empty neighbour lists stand for the empty symmetric relation over the nodes |
| Graphs.ConnectRepresents | src/structure/graph.go:21-27 | adding each node to the other's list adds the edge in both directions and keeps the relation symmetric |
| Graphs.SearchResult | src/structure/graph.go:35-45 | the search result is the old set plus exactly the nodes reachable from the start through nodes not in the old set |
| Graphs.NewComponent | src/structure/graph.go:56-62 | a search from an uncovered node finds a whole component, disjoint from the covered ones |
| Graphs.TakeOut | src/structure/graph.go:64 | removing a found component from the remaining nodes removes exactly its nodes and shrinks them |
| Graphs.Graph.constructor | src/structure/graph.go:8-19 | a graph over the given nodes in which every node has an empty neighbour set |
| Graphs.Graph.Connect | src/structure/graph.go:21-27 | adds v2 to the neighbours of v1 and v1 to the neighbours of v2, and nothing else |
| Graphs.Graph.Connected | src/structure/graph.go:29-32 | true iff v2 is a neighbour of v1 |
| Graphs.Graph.Dfs | src/structure/graph.go:35-45 | the set grows to the old set plus every node reachable from `node` through nodes not already in it |
| Graphs.Graph.NextComponent | src/structure/graph.go:58-61 | a fresh set holding the component of the first remaining node, disjoint from the covered nodes |
| Graphs.Graph.Round | src/structure/graph.go:58-64 | one loop turn finds a component, removes it from the remaining nodes and extends the partition of the covered nodes |
| Graphs.Graph.Collect | src/structure/graph.go:56-65 | the loop body keeps the components found a partition into components of the covered nodes, with the rest still remaining |
| Graphs.Graph.Components | src/structure/graph.go:47-68 | the components are disjoint, non-empty, cover all nodes, and each is closed under neighbours and connected |

## Left out

- Concurrency, timeouts, file I/O, JSON handling, random shuffling and the
  final-letter folding of `src/main.go`: runtime concerns and input
  preparation, outside the solver.
- `graph.py`: plotting only.
- The Go `regexp` engine. Patterns are the datatype `Pattern`, with three
  constructors and a matcher `Accepts`. The corpus cache is keyed by the
  `Pattern` value rather than by its text; the two are in one-to-one
  correspondence for these shapes. Words are assumed to contain no regular
  expression metacharacters, and a character stands for a Go rune.
- The `MustCompile` panics: for cuts of at most 1000 cells every pattern of
  the model is well formed. Go's `regexp/syntax` rejects repeat counts above
  1000, so on a longer cut `.{1,n}` or `.{0,k}` would panic in Go, while the
  model matches it.
- Builder instrumentation (`debug`, `calls`, `start`, the listener, debug
  printing) and display functions (`PrintData`, `String`): nothing depends on
  them.
- `IterateKeys` and `IterateValues` of `src/structure/ordered_map.go`: thin
  wrappers over `IterateEntries`, which is modelled.
- OrderedMaps.OrderedMap.IterateEntries: Go's callback `func(K, V)` runs for
  its effects. The model takes a pure function `(K, V) -> R` and returns the
  results in chain order, so effects of the callback are not modelled.
- Builders.Builder.build: does not state the search order. That is the
  ascending candidate count, the cap of 100 candidates per cut, offsets in
  increasing order, and components in ascending size. The body follows this
  order; the contract states what every result satisfies (it grows from
  `cw` and leaves the given cuts filled), not which result is found first.
  It is partial correctness only: a null result carries no promise beyond
  "a cut without candidates gives null", so it does not state that null
  means no filling exists (the cap of 100 candidates can also lose one).
- Builders.Builder.build, Builders.Builder.Build: the filled-cuts promise is
  stated only when no corpus word contains `"."` (`Lettered`). A word with
  a `"."` character passes the permissive pattern, and its `"."` letter
  writes an empty cell. That cell stays empty unless a crossing word later
  letters it, so the promise can fail. `Lettered` follows from the
  assumption above that words contain no regular expression
  metacharacters, since `"."` is one.
- Builders.Builder.Build: the filled promise covers grids with width and
  height above one, whose starting cuts are all rows and all columns. For a
  single row or column the model does not say which lines are filled.
- Builders.SortBySize: states the same elements, as sets, and ascending sizes
  rather than a multiset permutation. `sort.Slice` is unstable, so ties may
  come out in any order; the model uses a stable insertion sort.
- The tallied entries are sorted in `build` with `Seqs.SortBy`, a stable
  insertion sort by candidate count. The order Go's unstable sort gives to
  ties is not modelled.
- `Builder.build` is split into `Tally`, `TryCut`, `TryOffset` and
  `SolveAll`, one per loop level. The labelled `continue EmbeddingLoop` is
  an early exit from `SolveAll`.
- Graphs.Graph.Components: does not state that the first component holds the
  first node of `Nodes`. `NextComponent` proves this for each turn, but the
  loop does not carry it out.
- Graphs.Graph.Components: returns the components as a sequence rather than
  through a `List`, and the component sets are not aliased by later code.
- Graphs.Graph.Connect, Graphs.Graph.Connected and Graphs.Graph.Dfs: require
  the nodes to be in the graph. For an absent node Go's `Get` returns a
  zero `Set` whose `members` pointer is nil. `Add` (in `Connect`), `Has`
  (in `Connected`) or `ToSlice` (in `dfs`) on it dereferences that pointer
  and panics.
- Neighbour lists are stored as values (`OrderedMap<V, seq<V>>`) rather than
  as `Set` objects that alias a shared map. `Connect` writes the updated
  lists back instead of mutating them through the alias.
- Crosswords.Crossword.Embed and CutMatrices.CutMatrix.FillIn: require an
  unused, fitting word's cut to lie in the grid. For a cut leaving the grid,
  `IterateCut` indexes outside the matrix and Go panics.
- CutMatrices.CutMatrix.IterateCut, CutMatrices.CutMatrix.GetCutData and
  CutMatrices.CutMatrix.GetSubcuts: require the cut to lie in the grid, for
  the same reason.
- `GetCutGraph` of `src/crossword/cut.go` takes a `cw` argument only to call
  `DoCutsMeet`, which does not read the grid. `Crosswords.CutGraph` omits it.
- `Set.Size` and `OrderedMap.Size` are functions rather than methods: they
  read state and change nothing.
- Go `int` overflow: coordinates and lengths are unbounded integers, and the
  grids involved are small.
