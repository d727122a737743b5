/**
 * The backtracking search. Each open cut gets its candidate words from the
 * corpus through the permissive pattern of its cells; the search writes
 * candidates at the offsets whose exact pattern they match, each time on a
 * copy of the crossword, splits the cuts still open into the components of
 * their crossing graph and solves those in turn.
 */
module Builders {
  import opened Options
  import opened Seqs
  import opened Utils
  import opened Geometry
  import opened OrderedMaps
  import opened Sets
  import opened Graphs
  import opened CutMatrices
  import opened Patterns
  import opened Corpora
  import opened Crosswords

  /** The permissive pattern of a cut's values, located by scanning for the first and last non-"." cells. */
  method GracefulCutPattern(cutData: seq<string>) returns (p: Pattern)
    ensures p == Graceful(cutData)
  {
    var openingIndex := FirstIndex(cutData, NotDot);
    var trailingIndex := LastIndex(cutData, NotDot);
    if openingIndex == -1 {
      return Slack(|cutData|);
    }
    assert NotDot(cutData[openingIndex]);
    p := Framing(cutData, openingIndex, trailingIndex);
  }

  /**
   * The words of `words` that the permissive pattern of `cut` accepts and
   * that no recorded embedding holds, in word-list order.
   */
  function Candidates(words: seq<string>, data: Grid, width: nat, height: nat, embeddings: seq<CutWithWord>, cut: Cut): seq<string>
    requires Shaped(data, width, height) && InGrid(cut, width, height)
  {
    Filtered(Filtered(words, Matcher(Graceful(CutData(data, width, height, cut)))), Unused(embeddings))
  }

  /**
   * A candidate is a listed, unused word accepted by the cut's permissive
   * pattern, and every candidate fits in the cut.
   */
  lemma CandidatesAre(words: seq<string>, data: Grid, width: nat, height: nat, embeddings: seq<CutWithWord>, cut: Cut, w: string)
    requires Shaped(data, width, height) && SingleCells(data, width, height) && InGrid(cut, width, height)
    ensures w in Candidates(words, data, width, height, embeddings, cut) <==>
      w in words && Accepts(Graceful(CutData(data, width, height, cut)), w) && !WordUsed(embeddings, w)
    ensures w in Candidates(words, data, width, height, embeddings, cut) ==> 1 <= |w| <= cut.len
  {
    var cells := CutData(data, width, height, cut);
    FilteredMember(words, Matcher(Graceful(cells)), w);
    FilteredMember(Filtered(words, Matcher(Graceful(cells))), Unused(embeddings), w);
    if w in Candidates(words, data, width, height, embeddings, cut) {
      CutDataSingle(data, width, height, cut);
      GracefulLength(cells, w);
    }
  }

  /** Whether an in-grid cell is free of letters, that is empty or a stop. */
  predicate FlankOpen(data: Grid, width: nat, height: nat, empty: string, stop: string, cell: (int, int))
    requires Shaped(data, width, height)
  {
    InBounds(width, height, cell.0, cell.1) ==> data[cell.0][cell.1] == empty || data[cell.0][cell.1] == stop
  }

  /**
   * Whether `word` may go at `offset` along `cut`: neither cell flanking the
   * subcut it would fill holds a letter, and the exact pattern of the
   * subcut's cells accepts it.
   */
  predicate ValidOffset(data: Grid, width: nat, height: nat, empty: string, stop: string, cut: Cut, word: string, offset: int)
    requires Shaped(data, width, height) && InGrid(cut, width, height) && 0 <= offset && offset + |word| <= cut.len
  {
    SubcutInGrid(cut, offset, offset + |word|, width, height);
    var sub := Subcut(cut, offset, offset + |word|);
    && FlankOpen(data, width, height, empty, stop, CellOf(sub, -1))
    && FlankOpen(data, width, height, empty, stop, CellOf(sub, sub.len))
    && Accepts(Exact(CutData(data, width, height, sub)), word)
  }

  /**
   * Embedding an unused word at a valid offset succeeds, and both in-grid
   * flanks of the subcut end up stops.
   */
  lemma ValidOffsetEmbeds(data: Grid, width: nat, height: nat, stop: string, embeddings: seq<CutWithWord>,
                          cut: Cut, word: string, offset: int)
    requires Shaped(data, width, height) && SingleCells(data, width, height) && InGrid(cut, width, height)
    requires 0 <= offset && offset + |word| <= cut.len
    requires ValidOffset(data, width, height, Empty, stop, cut, word, offset) && !WordUsed(embeddings, word)
    ensures var sub := Subcut(cut, offset, offset + |word|);
      var (err, g, e) := EmbedOutcome(data, width, height, Empty, stop, embeddings, sub, word);
      var pre, post := CellOf(sub, -1), CellOf(sub, sub.len);
      && err == None && Shaped(g, width, height)
      && (InBounds(width, height, pre.0, pre.1) ==> g[pre.0][pre.1] == stop)
      && (InBounds(width, height, post.0, post.1) ==> g[post.0][post.1] == stop)
  {
    var sub := Subcut(cut, offset, offset + |word|);
    SubcutInGrid(cut, offset, offset + |word|, width, height);
    var cells := CutData(data, width, height, sub);
    CutDataSingle(data, width, height, sub);
    ExactInPlace(cells, word);
    forall t | 0 <= t < |word|
      ensures Admits(data, width, height, Empty, sub, t, [word[t]])
    {
      assert CellMatches(cells[t], word[t]);
    }
    EmbedSucceeds(data, width, height, Empty, stop, embeddings, sub, word);
    EmbedPlaces(data, width, height, Empty, stop, embeddings, sub, word);
  }

  /** Whether `word` may go at `offset` along `cut` of the crossword. */
  method IsValidOffset(cw: Crossword, cut: Cut, word: string, offset: int) returns (b: bool)
    requires cw.Valid() && InGrid(cut, cw.mat.width, cw.mat.height) && 0 <= offset && offset + |word| <= cut.len
    ensures b == ValidOffset(cw.mat.data, cw.mat.width, cw.mat.height, cw.mat.empty, cw.mat.stop, cut, word, offset)
  {
    var subcut := Subcut(cut, offset, offset + |word|);
    SubcutInGrid(cut, offset, offset + |word|, cw.mat.width, cw.mat.height);
    var pre := Move(subcut.row, subcut.col, subcut.orientation, -1);
    if cw.mat.IsValid(pre.0, pre.1) {
      var value := cw.mat.data[pre.0][pre.1];
      if value != cw.mat.empty && value != cw.mat.stop {
        return false;
      }
    }
    var post := Move(subcut.row, subcut.col, subcut.orientation, subcut.len);
    if cw.mat.IsValid(post.0, post.1) {
      var value := cw.mat.data[post.0][post.1];
      if value != cw.mat.empty && value != cw.mat.stop {
        return false;
      }
    }
    var data := cw.mat.GetCutData(subcut);
    b := Accepts(Exact(data), word);
  }

  /** The offsets 0 .. cut.len - |word| at which `word` may go along `cut`, in ascending order. */
  method ValidOffsets(cw: Crossword, cut: Cut, word: string) returns (offsets: seq<int>)
    requires cw.Valid() && InGrid(cut, cw.mat.width, cw.mat.height) && |word| <= cut.len + 1
    ensures forall x :: x in offsets <==>
      0 <= x && x + |word| <= cut.len && ValidOffset(cw.mat.data, cw.mat.width, cw.mat.height, cw.mat.empty, cw.mat.stop, cut, word, x)
    ensures forall i, j :: 0 <= i < j < |offsets| ==> offsets[i] < offsets[j]
  {
    var maxOffset := cut.len - |word| + 1;
    var all := IndexArray(maxOffset);
    offsets := [];
    for k := 0 to |all|
      invariant forall x :: x in offsets <==>
        0 <= x < k && ValidOffset(cw.mat.data, cw.mat.width, cw.mat.height, cw.mat.empty, cw.mat.stop, cut, word, x)
      invariant forall i, j :: 0 <= i < j < |offsets| ==> offsets[i] < offsets[j]
      invariant forall i :: 0 <= i < |offsets| ==> offsets[i] < k
    {
      var ok := IsValidOffset(cw, cut, word, all[k]);
      if ok {
        offsets := offsets + [all[k]];
      }
    }
  }

  /** The set holds cuts that all lie in a `width` by `height` grid. */
  ghost predicate Open(cuts: Set<Cut>, width: nat, height: nat)
    reads cuts.members
  {
    cuts.Valid() && forall c :: c in cuts.ElemSet() ==> InGrid(c, width, height)
  }

  /** Some cut of `cuts` has no candidate. */
  ghost predicate Blocked(words: seq<string>, data: Grid, width: nat, height: nat, embeddings: seq<CutWithWord>, cuts: set<Cut>)
    requires Shaped(data, width, height) && forall c :: c in cuts ==> InGrid(c, width, height)
  {
    exists c :: c in cuts && Candidates(words, data, width, height, embeddings, c) == []
  }

  /**
   * `r` grew from `cw`: it is a valid crossword of the same size that keeps
   * every non-empty cell of `cw` and extends its embeddings with words of
   * `words`.
   */
  ghost predicate Grows(cw: Crossword, r: Crossword, words: seq<string>)
    reads cw, cw.mat, r, r.mat
  {
    && cw.mat.Valid() && r.Valid()
    && r.mat.width == cw.mat.width && r.mat.height == cw.mat.height
    && cw.embeddings <= r.embeddings
    && Keeps(cw.mat.data, r.mat.data, cw.mat.width, cw.mat.height, Empty)
    && forall k :: |cw.embeddings| <= k < |r.embeddings| ==> r.embeddings[k].word in words
  }

  lemma GrowsTrans(a: Crossword, b: Crossword, c: Crossword, words: seq<string>)
    requires Grows(a, b, words) && Grows(b, c, words)
    ensures Grows(a, c, words)
  {
    KeepsTrans(a.mat.data, b.mat.data, c.mat.data, a.mat.width, a.mat.height, Empty);
  }

  /** The number of candidates of a tallied cut. */
  function MatchCount(e: MapEntry<Cut, seq<string>>): int
  {
    |e.value|
  }

  function SizeKey(p: (Set<Cut>, int)): int
  {
    p.1
  }

  function Component(p: (Set<Cut>, int)): Set<Cut>
  {
    p.0
  }

  /**
   * Sorting components paired with their sizes and dropping the sizes keeps
   * the components and orders them by the paired size.
   */
  lemma SortedComponents(components: seq<Set<Cut>>, sized: seq<(Set<Cut>, int)>, sorted: seq<Set<Cut>>)
    requires |sized| == |components| && forall t :: 0 <= t < |sized| ==> sized[t].0 == components[t]
    requires |sorted| == |SortBy(sized, SizeKey)|
    requires forall i :: 0 <= i < |sorted| ==> sorted[i] == SortBy(sized, SizeKey)[i].0
    ensures |sorted| == |components|
    ensures forall s :: s in sorted <==> s in components
    ensures forall i :: 0 <= i < |sorted| ==> SortBy(sized, SizeKey)[i] in sized
    ensures forall i, j :: 0 <= i < j < |sorted| ==> SortBy(sized, SizeKey)[i].1 <= SortBy(sized, SizeKey)[j].1
  {
    var order := SortBy(sized, SizeKey);
    SortByProperties(sized, SizeKey);
    SortByElements(sized, SizeKey);
    forall s | s in components
      ensures s in sorted
    {
      var t :| 0 <= t < |components| && components[t] == s;
      assert sized[t] in order;
      var i :| 0 <= i < |order| && order[i] == sized[t];
      assert sorted[i] == s;
    }
    forall i | 0 <= i < |sorted|
      ensures sorted[i] in components && order[i] in sized
    {
      assert order[i] in order;
      var t :| 0 <= t < |sized| && sized[t] == order[i];
      assert sorted[i] == components[t];
    }
    forall i, j | 0 <= i < j < |sorted|
      ensures order[i].1 <= order[j].1
    {
      assert SizeKey(order[i]) <= SizeKey(order[j]);
    }
  }

  /** The components ordered by ascending size. */
  method SortBySize(components: seq<Set<Cut>>) returns (sorted: seq<Set<Cut>>)
    requires forall k :: 0 <= k < |components| ==> components[k].Valid()
    ensures |sorted| == |components|
    ensures forall s :: s in sorted <==> s in components
    ensures forall i, j :: 0 <= i < j < |sorted| ==> |sorted[i].Elements()| <= |sorted[j].Elements()|
  {
    var sized: seq<(Set<Cut>, int)> := [];
    for k := 0 to |components|
      invariant |sized| == k
      invariant forall t :: 0 <= t < k ==> sized[t].0 == components[t]
      invariant forall p :: p in sized ==> p.1 == |p.0.Elements()|
    {
      var n := components[k].Size();
      sized := sized + [(components[k], n)];
    }
    var order := SortBy(sized, SizeKey);
    sorted := Map(order, Component);
    SortedComponents(components, sized, sorted);
  }

  /**
   * The cuts still to fill after an embedding: the long runs of `cuts` on the
   * new grid, each once, without the subcut just filled.
   */
  method RemainingCuts(next: Crossword, cuts: Set<Cut>, filled: Cut) returns (nextCuts: Set<Cut>)
    requires next.Valid() && Open(cuts, next.mat.width, next.mat.height)
    ensures fresh(nextCuts.members) && Open(nextCuts, next.mat.width, next.mat.height)
    ensures nextCuts.ElemSet() ==
      Elems(LongRuns(next.mat.data, next.mat.width, next.mat.height, next.mat.stop, cuts.Elements())) - {filled}
  {
    var cutSlice := cuts.ToSlice();
    var subcuts := next.mat.SubcutsOf(cutSlice);
    LongRunsInGrid(next.mat.data, next.mat.width, next.mat.height, next.mat.stop, cutSlice);
    nextCuts := SetFromSlice(subcuts);
    DedupProperties(subcuts);
    var _ := nextCuts.Delete(filled);
    forall c
      ensures c in nextCuts.ElemSet() <==> c in subcuts && c != filled
    {
      WithoutMember(Dedup(subcuts), filled, c);
    }
  }

  /** No cut of `part` meets a cut of `cuts` outside `part`. */
  ghost predicate Isolated(part: Set<Cut>, cuts: set<Cut>)
    reads part.members
  {
    forall u, v :: u in part.ElemSet() && v in cuts && DoCutsMeet(u, v) ==> v in part.ElemSet()
  }

  /**
   * The connected components of the crossing graph of `cuts`: together they
   * hold every cut, and no cut meets a cut of another component.
   */
  method ComponentsOf(cuts: Set<Cut>, width: nat, height: nat) returns (components: seq<Set<Cut>>)
    requires Open(cuts, width, height)
    ensures forall k :: 0 <= k < |components| ==>
      Open(components[k], width, height) && components[k].ElemSet() <= cuts.ElemSet() && Isolated(components[k], cuts.ElemSet())
    ensures forall c :: c in cuts.ElemSet() ==> exists k :: 0 <= k < |components| && c in components[k].ElemSet()
  {
    var graph := CutGraph(cuts);
    ghost var parts;
    components, parts := graph.Components();
    forall k | 0 <= k < |components|
      ensures Open(components[k], width, height) && components[k].ElemSet() <= cuts.ElemSet()
      ensures Isolated(components[k], cuts.ElemSet())
    {
      UnionContains(parts, k);
      assert Closed(graph.adj, parts[k]);
    }
    forall c | c in cuts.ElemSet()
      ensures exists k :: 0 <= k < |components| && c in components[k].ElemSet()
    {
      UnionCovers(parts, c);
    }
  }

  /** The components of the crossing graph of `cuts`, smallest first when there are several. */
  method SplitComponents(cuts: Set<Cut>, width: nat, height: nat) returns (components: seq<Set<Cut>>)
    requires Open(cuts, width, height)
    ensures forall k :: 0 <= k < |components| ==>
      Open(components[k], width, height) && components[k].ElemSet() <= cuts.ElemSet() && Isolated(components[k], cuts.ElemSet())
    ensures forall c :: c in cuts.ElemSet() ==> exists k :: 0 <= k < |components| && c in components[k].ElemSet()
    ensures forall i, j :: 0 <= i < j < |components| ==> |components[i].Elements()| <= |components[j].Elements()|
  {
    components := ComponentsOf(cuts, width, height);
    if |components| > 1 {
      var unsorted := components;
      components := SortBySize(components);
      forall k | 0 <= k < |components|
        ensures Open(components[k], width, height) && components[k].ElemSet() <= cuts.ElemSet()
        ensures Isolated(components[k], cuts.ElemSet())
      {
        assert components[k] in unsorted;
      }
      forall c | c in cuts.ElemSet()
        ensures exists k :: 0 <= k < |components| && c in components[k].ElemSet()
      {
        var l :| 0 <= l < |unsorted| && c in unsorted[l].ElemSet();
        assert unsorted[l] in components;
        var k :| 0 <= k < |components| && components[k] == unsorted[l];
      }
    }
  }

  /**
   * A copy of `cw` with `word` embedded at `offset` along `cut`; the
   * embedding succeeds and the copy grew from `cw`.
   */
  method EmbedAt(cw: Crossword, cut: Cut, word: string, offset: int, ghost words: seq<string>) returns (next: Crossword)
    requires cw.Valid() && InGrid(cut, cw.mat.width, cw.mat.height) && 0 <= offset && offset + |word| <= cut.len
    requires ValidOffset(cw.mat.data, cw.mat.width, cw.mat.height, cw.mat.empty, cw.mat.stop, cut, word, offset)
    requires word in words && !WordUsed(cw.embeddings, word)
    ensures fresh(next) && fresh(next.mat) && Grows(cw, next, words)
    ensures next.embeddings == cw.embeddings + [CutWithWord(Subcut(cut, offset, offset + |word|), word)]
    ensures (None, next.mat.data, next.embeddings) ==
      EmbedOutcome(cw.mat.data, cw.mat.width, cw.mat.height, Empty, Stop, cw.embeddings, Subcut(cut, offset, offset + |word|), word)
    ensures |Elems(words) - WordSet(next.embeddings)| < |Elems(words) - WordSet(cw.embeddings)|
  {
    next := cw.Copy();
    var subcut := Subcut(cut, offset, offset + |word|);
    SubcutInGrid(cut, offset, offset + |word|, cw.mat.width, cw.mat.height);
    ValidOffsetEmbeds(next.mat.data, next.mat.width, next.mat.height, next.mat.stop, next.embeddings, cut, word, offset);
    EmbedKeeps(next.mat.data, next.mat.width, next.mat.height, next.mat.empty, next.mat.stop, next.embeddings, subcut, word);
    var _ := next.Embed(subcut, word);
    WordSetSnoc(cw.embeddings, CutWithWord(subcut, word));
    Shrinks(Elems(words), WordSet(cw.embeddings), WordSet(next.embeddings), word);
  }

  /**
   * The state of the tally after the first `i` cuts of `slice`: they are the
   * keys, in order, each with its non-empty candidates.
   */
  ghost predicate Tallied(model: map<Cut, seq<string>>, order: seq<Cut>, slice: seq<Cut>, i: int,
                          words: seq<string>, data: Grid, width: nat, height: nat, embeddings: seq<CutWithWord>)
    requires Shaped(data, width, height) && forall c :: c in slice ==> InGrid(c, width, height)
  {
    && 0 <= i <= |slice| && order == slice[..i] && model.Keys == Elems(order)
    && forall c :: c in model ==> model[c] == Candidates(words, data, width, height, embeddings, c) && model[c] != []
  }

  /** Recording the non-empty candidates of the next cut extends the tally by that cut. */
  lemma TalliedStep(model: map<Cut, seq<string>>, order: seq<Cut>, slice: seq<Cut>, i: int,
                    words: seq<string>, data: Grid, width: nat, height: nat, embeddings: seq<CutWithWord>, matches: seq<string>)
    requires Shaped(data, width, height) && forall c :: c in slice ==> InGrid(c, width, height)
    requires Distinct(slice) && i < |slice| && Tallied(model, order, slice, i, words, data, width, height, embeddings)
    requires matches == Candidates(words, data, width, height, embeddings, slice[i]) && matches != []
    ensures slice[i] !in order
    ensures Tallied(model[slice[i] := matches], order + [slice[i]], slice, i + 1, words, data, width, height, embeddings)
  {
    var next := model[slice[i] := matches];
    assert slice[..i + 1] == order + [slice[i]];
    ElemsSnoc(order, slice[i]);
    forall c | c in next
      ensures next[c] == Candidates(words, data, width, height, embeddings, c) && next[c] != []
    {
      if c != slice[i] {
        assert c in model;
      }
    }
  }

  /** A complete tally gives every cut of `slice` some candidate. */
  lemma TalliedAll(model: map<Cut, seq<string>>, order: seq<Cut>, slice: seq<Cut>,
                   words: seq<string>, data: Grid, width: nat, height: nat, embeddings: seq<CutWithWord>)
    requires Shaped(data, width, height) && forall c :: c in slice ==> InGrid(c, width, height)
    requires Tallied(model, order, slice, |slice|, words, data, width, height, embeddings)
    ensures order == slice
    ensures forall c :: c in slice ==> Candidates(words, data, width, height, embeddings, c) != []
  {
    assert slice[..|slice|] == slice;
    forall c | c in slice
      ensures Candidates(words, data, width, height, embeddings, c) != []
    {
      assert c in Elems(order);
    }
  }

  // ----- filled cuts -----

  /** The value at `cell`; a cell off the grid reads as a stop, since the edge of the grid ends every run. */
  function At(data: Grid, cell: (int, int)): string
  {
    if 0 <= cell.0 < |data| && 0 <= cell.1 < |data[cell.0]| then data[cell.0][cell.1] else Stop
  }

  /** Cell `k` of `cut` is one of its cells and not a stop. */
  predicate OpenAt(data: Grid, cut: Cut, k: int)
  {
    0 <= k < cut.len && At(data, CellOf(cut, k)) != Stop
  }

  /**
   * Every cell of `cut` that lies in a run of at least two non-stop cells,
   * that is a non-stop cell with a non-stop neighbour along the cut, holds a
   * letter.
   */
  ghost predicate FilledCut(data: Grid, cut: Cut)
  {
    forall k :: InLongRun(data, cut, k) ==> At(data, CellOf(cut, k)) != Empty
  }

  /** Cell `k` of `cut` is not a stop and neither is one of its neighbours along the cut. */
  predicate InLongRun(data: Grid, cut: Cut, k: int)
  {
    OpenAt(data, cut, k) && (OpenAt(data, cut, k - 1) || OpenAt(data, cut, k + 1))
  }

  /** Every cut of `cuts` is filled. */
  ghost predicate AllFilled(data: Grid, cuts: set<Cut>)
  {
    forall c :: c in cuts ==> FilledCut(data, c)
  }

  /** No word of `words` holds the empty-cell character, so every letter written fills its cell. */
  predicate Lettered(words: seq<string>)
  {
    forall w, t :: w in words && 0 <= t < |w| ==> [w[t]] != Empty
  }

  /** Under `Keeps`, a cell that is not a stop was not a stop before, and a non-empty cell keeps its value. */
  lemma AtKept(before: Grid, after: Grid, width: nat, height: nat, cell: (int, int))
    requires Shaped(before, width, height) && Shaped(after, width, height) && Keeps(before, after, width, height, Empty)
    ensures At(after, cell) != Stop ==> At(before, cell) != Stop
    ensures At(before, cell) != Empty ==> At(after, cell) == At(before, cell)
  {
  }

  /** Filling more cells keeps a filled cut filled. */
  lemma FilledCutKeeps(before: Grid, after: Grid, width: nat, height: nat, cut: Cut)
    requires Shaped(before, width, height) && Shaped(after, width, height) && Keeps(before, after, width, height, Empty)
    requires FilledCut(before, cut)
    ensures FilledCut(after, cut)
  {
    forall k | InLongRun(after, cut, k)
      ensures At(after, CellOf(cut, k)) != Empty
    {
      AtKept(before, after, width, height, CellOf(cut, k));
      AtKept(before, after, width, height, CellOf(cut, k - 1));
      AtKept(before, after, width, height, CellOf(cut, k + 1));
      assert InLongRun(before, cut, k);
    }
  }

  /** Filling more cells keeps filled cuts filled. */
  lemma AllFilledKeeps(before: Grid, after: Grid, width: nat, height: nat, cuts: set<Cut>)
    requires Shaped(before, width, height) && Shaped(after, width, height) && Keeps(before, after, width, height, Empty)
    requires AllFilled(before, cuts)
    ensures AllFilled(after, cuts)
  {
    forall c | c in cuts
      ensures FilledCut(after, c)
    {
      FilledCutKeeps(before, after, width, height, c);
    }
  }

  /** A long run of `cut` is the subcut of a maximal run of its values, longer than one cell. */
  lemma LongRunIsRun(data: Grid, width: nat, height: nat, cut: Cut, x: Cut) returns (s: int)
    requires Shaped(data, width, height) && InGrid(cut, width, height)
    requires x in LongRuns(data, width, height, Stop, [cut])
    ensures IsRun(CutData(data, width, height, cut), Stop, 0, (s, x.len)) && x.len > 1
    ensures x == Subcut(cut, s, s + x.len)
  {
    assert [cut][..0] == [];
    var runs := RunsOf(data, width, height, Stop, cut);
    FilteredMember(runs, IsLong, x);
    var m :| 0 <= m < |runs| && runs[m] == x;
    var vals := CutData(data, width, height, cut);
    RunsMaximal(vals, Stop, 0);
    assert IsRun(vals, Stop, 0, Runs(vals, Stop, 0)[m]);
    s := Runs(vals, Stop, 0)[m].0;
  }

  /** Every cell of the long run `x` of `cut` from `s` lies in a long run in the sense of `InLongRun`. */
  lemma LongRunCells(data: Grid, width: nat, height: nat, cut: Cut, x: Cut, s: int, k: int) returns (t: int)
    requires Shaped(data, width, height) && InGrid(cut, width, height)
    requires IsRun(CutData(data, width, height, cut), Stop, 0, (s, x.len)) && x.len > 1 && x == Subcut(cut, s, s + x.len)
    requires 0 <= k < x.len
    ensures t == s + k && InLongRun(data, cut, t)
  {
    t := s + k;
    RunOpen(data, width, height, cut, s, x.len, t);
    if k > 0 {
      RunOpen(data, width, height, cut, s, x.len, t - 1);
    } else {
      RunOpen(data, width, height, cut, s, x.len, t + 1);
    }
  }

  /** A cell inside a maximal run `(s, l)` of the values of `cut` is open. */
  lemma RunOpen(data: Grid, width: nat, height: nat, cut: Cut, s: int, l: int, t: int)
    requires Shaped(data, width, height) && InGrid(cut, width, height)
    requires IsRun(CutData(data, width, height, cut), Stop, 0, (s, l)) && s <= t < s + l
    ensures OpenAt(data, cut, t)
  {
    assert CutData(data, width, height, cut)[t] != Stop;
  }

  /** Every cell of each long run of `cut` on `data` holds a letter. */
  ghost predicate RunsLettered(data: Grid, width: nat, height: nat, cut: Cut)
    requires Shaped(data, width, height) && InGrid(cut, width, height)
  {
    forall x, k :: x in LongRuns(data, width, height, Stop, [cut]) && 0 <= k < x.len ==> At(data, CellOf(x, k)) != Empty
  }

  /** A cut is filled exactly when every cell of each of its long runs holds a letter. */
  lemma FilledCutRuns(data: Grid, width: nat, height: nat, cut: Cut)
    requires Shaped(data, width, height) && InGrid(cut, width, height)
    ensures FilledCut(data, cut) <==> RunsLettered(data, width, height, cut)
  {
    if FilledCut(data, cut) {
      FilledRunsLettered(data, width, height, cut);
    }
    if RunsLettered(data, width, height, cut) {
      LetteredRunsFilled(data, width, height, cut);
    }
  }

  /** A filled cut has every cell of its long runs lettered. */
  lemma FilledRunsLettered(data: Grid, width: nat, height: nat, cut: Cut)
    requires Shaped(data, width, height) && InGrid(cut, width, height) && FilledCut(data, cut)
    ensures RunsLettered(data, width, height, cut)
  {
    forall x, k | x in LongRuns(data, width, height, Stop, [cut]) && 0 <= k < x.len
      ensures At(data, CellOf(x, k)) != Empty
    {
      var s := LongRunIsRun(data, width, height, cut, x);
      var t := LongRunCells(data, width, height, cut, x, s, k);
      SubcutCell(cut, s, s + x.len, k);
    }
  }

  /** A cut whose long runs are lettered is filled. */
  lemma LetteredRunsFilled(data: Grid, width: nat, height: nat, cut: Cut)
    requires Shaped(data, width, height) && InGrid(cut, width, height) && RunsLettered(data, width, height, cut)
    ensures FilledCut(data, cut)
  {
    forall t | InLongRun(data, cut, t)
      ensures At(data, CellOf(cut, t)) != Empty
    {
      var t2 := if OpenAt(data, cut, t - 1) then t - 1 else t + 1;
      var x, s := LongRunAt(data, width, height, cut, t, t2);
      RunCellLettered(data, width, height, cut, x, s, t);
    }
  }

  /** Cell `t` of `cut`, inside its long run `x` from `s`, holds a letter when the long runs are lettered. */
  lemma RunCellLettered(data: Grid, width: nat, height: nat, cut: Cut, x: Cut, s: int, t: int)
    requires Shaped(data, width, height) && InGrid(cut, width, height) && RunsLettered(data, width, height, cut)
    requires x in LongRuns(data, width, height, Stop, [cut]) && x == Subcut(cut, s, s + x.len) && 0 <= t - s < x.len
    ensures At(data, CellOf(cut, t)) != Empty
  {
    SubcutCell(cut, s, s + x.len, t - s);
    assert At(data, CellOf(x, t - s)) != Empty;
  }

  /** The long runs of one cut of `cuts` are among the long runs of `cuts`. */
  lemma {:induction false} LongRunsOfMember(data: Grid, width: nat, height: nat, stop: string, cuts: seq<Cut>, c: Cut, x: Cut)
    requires Shaped(data, width, height) && forall d :: d in cuts ==> InGrid(d, width, height)
    requires c in cuts && x in LongRuns(data, width, height, stop, [c])
    ensures x in LongRuns(data, width, height, stop, cuts)
    decreases |cuts|
  {
    assert [c][..0] == [];
    var n := |cuts| - 1;
    if cuts[n] != c {
      assert c in cuts[..n];
      LongRunsOfMember(data, width, height, stop, cuts[..n], c, x);
    }
  }

  /**
   * A neighbouring non-stop cell of `k` lies in the maximal run that holds
   * `k`, so that run is long.
   */
  lemma RunHoldsNeighbour(vals: seq<string>, stop: string, run: (int, int), k: int, k2: int)
    requires IsRun(vals, stop, 0, run) && InRun(run, k)
    requires 0 <= k2 < |vals| && vals[k2] != stop && (k2 == k - 1 || k2 == k + 1)
    ensures InRun(run, k2) && run.1 > 1
  {
  }

  /**
   * The cut `x` of `cut`'s long runs on `before` that holds cell `k`, when
   * `k` and a neighbour are non-stop cells.
   */
  lemma LongRunAt(before: Grid, width: nat, height: nat, cut: Cut, k: int, k2: int) returns (x: Cut, s: int)
    requires Shaped(before, width, height) && InGrid(cut, width, height)
    requires OpenAt(before, cut, k) && OpenAt(before, cut, k2) && (k2 == k - 1 || k2 == k + 1)
    ensures x in LongRuns(before, width, height, Stop, [cut])
    ensures x == Subcut(cut, s, s + x.len) && 0 <= k - s < x.len && 0 <= k2 - s < x.len
  {
    var vals := CutData(before, width, height, cut);
    var runs := Runs(vals, Stop, 0);
    RunsCover(vals, Stop, 0, k);
    var m :| 0 <= m < |runs| && InRun(runs[m], k);
    RunsMaximal(vals, Stop, 0);
    RunHoldsNeighbour(vals, Stop, runs[m], k, k2);
    s := runs[m].0;
    x := RunsOf(before, width, height, Stop, cut)[m];
    FilteredMember(RunsOf(before, width, height, Stop, cut), IsLong, x);
    assert [cut][..0] == [];
  }

  /** A cell `k` of `cut` with a non-stop neighbour, both inside the filled subcut `x` from `s`, holds a letter. */
  lemma RunCellFilled(after: Grid, cut: Cut, x: Cut, s: int, k: int, k2: int)
    requires x == Subcut(cut, s, s + x.len) && 0 <= k - s < x.len && 0 <= k2 - s < x.len && (k2 == k - 1 || k2 == k + 1)
    requires OpenAt(after, cut, k) && OpenAt(after, cut, k2) && FilledCut(after, x)
    ensures At(after, CellOf(cut, k)) != Empty
  {
    SubcutCell(cut, s, s + x.len, k - s);
    SubcutCell(cut, s, s + x.len, k2 - s);
    if k2 == k - 1 {
      assert OpenAt(after, x, k - s - 1);
    } else {
      assert OpenAt(after, x, k - s + 1);
    }
    assert InLongRun(after, x, k - s);
  }

  /** A cell of `cut` that lies in the lettered subcut `sub` from `s` still holds its letter under `Keeps`. */
  lemma SubCellFilled(before: Grid, after: Grid, width: nat, height: nat, cut: Cut, sub: Cut, s: int, k: int)
    requires Shaped(before, width, height) && Shaped(after, width, height) && Keeps(before, after, width, height, Empty)
    requires sub == Subcut(cut, s, s + sub.len) && 0 <= k - s < sub.len
    requires At(before, CellOf(sub, k - s)) != Empty
    ensures At(after, CellOf(cut, k)) != Empty
  {
    SubcutCell(cut, s, s + sub.len, k - s);
    AtKept(before, after, width, height, CellOf(cut, k));
  }

  /** One cell of `FilledFromRuns`: cell `k` of `cut`, in a long run on `after`, holds a letter there. */
  lemma FilledCellFromRuns(before: Grid, after: Grid, width: nat, height: nat, cut: Cut, sub: Cut, k: int)
    requires Shaped(before, width, height) && Shaped(after, width, height) && Keeps(before, after, width, height, Empty)
    requires InGrid(cut, width, height) && InLongRun(after, cut, k)
    requires forall t :: 0 <= t < sub.len ==> At(before, CellOf(sub, t)) != Empty
    requires forall x :: x in LongRuns(before, width, height, Stop, [cut]) && x != sub ==> FilledCut(after, x)
    ensures At(after, CellOf(cut, k)) != Empty
  {
    var k2 := if OpenAt(after, cut, k - 1) then k - 1 else k + 1;
    AtKept(before, after, width, height, CellOf(cut, k));
    AtKept(before, after, width, height, CellOf(cut, k2));
    var x, s := LongRunAt(before, width, height, cut, k, k2);
    if x == sub {
      SubCellFilled(before, after, width, height, cut, sub, s, k);
    } else {
      RunCellFilled(after, cut, x, s, k, k2);
    }
  }

  /**
   * After an embedding into `sub`, a cut is filled on `after` when the
   * letters of `sub` are in place on `before` and every other long run of
   * the cut on `before` is filled on `after`.
   */
  lemma FilledFromRuns(before: Grid, after: Grid, width: nat, height: nat, cut: Cut, sub: Cut)
    requires Shaped(before, width, height) && Shaped(after, width, height) && Keeps(before, after, width, height, Empty)
    requires InGrid(cut, width, height)
    requires forall t :: 0 <= t < sub.len ==> At(before, CellOf(sub, t)) != Empty
    requires forall x :: x in LongRuns(before, width, height, Stop, [cut]) && x != sub ==> FilledCut(after, x)
    ensures FilledCut(after, cut)
  {
    forall k | InLongRun(after, cut, k)
      ensures At(after, CellOf(cut, k)) != Empty
    {
      FilledCellFromRuns(before, after, width, height, cut, sub, k);
    }
  }

  /**
   * After an embedding into `sub`, the cuts are filled on `after` when the
   * letters of `sub` are in place on `before` and every other long run of
   * the cuts on `before` is filled on `after`.
   */
  lemma FilledAfterEmbed(before: Grid, after: Grid, width: nat, height: nat, cuts: seq<Cut>, sub: Cut)
    requires Shaped(before, width, height) && Shaped(after, width, height) && Keeps(before, after, width, height, Empty)
    requires forall c :: c in cuts ==> InGrid(c, width, height)
    requires forall t :: 0 <= t < sub.len ==> At(before, CellOf(sub, t)) != Empty
    requires AllFilled(after, Elems(LongRuns(before, width, height, Stop, cuts)) - {sub})
    ensures AllFilled(after, Elems(cuts))
  {
    forall c | c in cuts
      ensures FilledCut(after, c)
    {
      forall x | x in LongRuns(before, width, height, Stop, [c]) && x != sub
        ensures FilledCut(after, x)
      {
        LongRunsOfMember(before, width, height, Stop, cuts, c, x);
        assert x in Elems(LongRuns(before, width, height, Stop, cuts)) - {sub};
      }
      FilledFromRuns(before, after, width, height, c, sub);
    }
  }

  /** A successful embedding of a word without empty-cell characters letters every cell of its cut. */
  lemma EmbeddedLettered(data: Grid, width: nat, height: nat, embeddings: seq<CutWithWord>, sub: Cut, word: string)
    requires Shaped(data, width, height) && InGrid(sub, width, height) && sub.len == |word|
    requires forall t :: 0 <= t < |word| ==> [word[t]] != Empty
    requires EmbedOutcome(data, width, height, Empty, Stop, embeddings, sub, word).0 == None
    ensures forall t :: 0 <= t < sub.len ==> At(EmbedOutcome(data, width, height, Empty, Stop, embeddings, sub, word).1, CellOf(sub, t)) != Empty
  {
    EmbedPlaces(data, width, height, Empty, Stop, embeddings, sub, word);
  }

  /**
   * `next` is `before` with `word` embedded at `offset` along `cut`, and
   * `rest` holds the long runs of `cuts` on `next` other than the one just
   * written.
   */
  ghost predicate Embedded(before: Grid, next: Grid, width: nat, height: nat, embeddings: seq<CutWithWord>,
                           cuts: seq<Cut>, cut: Cut, word: string, offset: int, rest: set<Cut>)
  {
    && Shaped(before, width, height) && Shaped(next, width, height)
    && InGrid(cut, width, height) && 0 <= offset && offset + |word| <= cut.len
    && (forall c :: c in cuts ==> InGrid(c, width, height))
    && EmbedOutcome(before, width, height, Empty, Stop, embeddings, Subcut(cut, offset, offset + |word|), word).0 == None
    && EmbedOutcome(before, width, height, Empty, Stop, embeddings, Subcut(cut, offset, offset + |word|), word).1 == next
    && rest == Elems(LongRuns(next, width, height, Stop, cuts)) - {Subcut(cut, offset, offset + |word|)}
  }

  /**
   * An embedding of `word` at `offset` along `cut` turns `before` into
   * `next`; when the long runs of `cuts` on `next` other than the one just
   * written are filled on `after`, which kept every letter of `next`, all of
   * `cuts` are filled on `after`.
   */
  lemma EmbedThenFilled(before: Grid, next: Grid, after: Grid, width: nat, height: nat, embeddings: seq<CutWithWord>,
                        cuts: seq<Cut>, cut: Cut, word: string, offset: int, rest: set<Cut>, words: seq<string>)
    requires Embedded(before, next, width, height, embeddings, cuts, cut, word, offset, rest)
    requires Lettered(words) && word in words
    requires Shaped(after, width, height) && Keeps(next, after, width, height, Empty) && AllFilled(after, rest)
    ensures AllFilled(after, Elems(cuts))
  {
    var sub := Subcut(cut, offset, offset + |word|);
    SubcutInGrid(cut, offset, offset + |word|, width, height);
    EmbeddedLettered(before, width, height, embeddings, sub, word);
    FilledAfterEmbed(next, after, width, height, cuts, sub);
  }

  /** The first `n` components are filled. */
  ghost predicate FilledParts(data: Grid, components: seq<Set<Cut>>, n: int)
    reads set k | 0 <= k < |components| :: components[k].members
  {
    forall k :: 0 <= k < n && k < |components| ==> AllFilled(data, components[k].ElemSet())
  }

  /** Filling more cells keeps filled components filled. */
  lemma FilledPartsKeeps(before: Grid, after: Grid, width: nat, height: nat, components: seq<Set<Cut>>, n: int)
    requires Shaped(before, width, height) && Shaped(after, width, height) && Keeps(before, after, width, height, Empty)
    requires FilledParts(before, components, n)
    ensures FilledParts(after, components, n)
  {
    forall k | 0 <= k < n && k < |components|
      ensures AllFilled(after, components[k].ElemSet())
    {
      AllFilledKeeps(before, after, width, height, components[k].ElemSet());
    }
  }

  /** Filling the next component extends the filled prefix by it. */
  lemma FilledPartsSnoc(data: Grid, components: seq<Set<Cut>>, n: int)
    requires 0 <= n < |components| && FilledParts(data, components, n) && AllFilled(data, components[n].ElemSet())
    ensures FilledParts(data, components, n + 1)
  {
  }

  /** Cuts that all lie in filled components are filled. */
  lemma CoveredFilled(data: Grid, components: seq<Set<Cut>>, cuts: set<Cut>)
    requires FilledParts(data, components, |components|)
    requires forall c :: c in cuts ==> exists k :: 0 <= k < |components| && c in components[k].ElemSet()
    ensures AllFilled(data, cuts)
  {
    forall c | c in cuts
      ensures FilledCut(data, c)
    {
      var k :| 0 <= k < |components| && c in components[k].ElemSet();
    }
  }

  /**
   * The first half of one attempt: `word` embedded at `offset` along `cut`
   * into a copy of `cw`, and the components of the crossing graph of the
   * long runs of `cuts` on the new grid other than the one just filled,
   * which together cover those runs (`rest`).
   */
  method EmbedAndSplit(cw: Crossword, cuts: Set<Cut>, cut: Cut, word: string, offset: int, ghost words: seq<string>)
    returns (next: Crossword, components: seq<Set<Cut>>, ghost rest: set<Cut>)
    requires cw.Valid() && Open(cuts, cw.mat.width, cw.mat.height)
    requires InGrid(cut, cw.mat.width, cw.mat.height) && 0 <= offset && offset + |word| <= cut.len
    requires ValidOffset(cw.mat.data, cw.mat.width, cw.mat.height, cw.mat.empty, cw.mat.stop, cut, word, offset)
    requires word in words && !WordUsed(cw.embeddings, word)
    ensures fresh(next) && fresh(next.mat) && Grows(cw, next, words)
    ensures next.embeddings == cw.embeddings + [CutWithWord(Subcut(cut, offset, offset + |word|), word)]
    ensures |Elems(words) - WordSet(next.embeddings)| < |Elems(words) - WordSet(cw.embeddings)|
    ensures Embedded(cw.mat.data, next.mat.data, cw.mat.width, cw.mat.height, cw.embeddings, cuts.Elements(), cut, word, offset, rest)
    ensures forall k :: 0 <= k < |components| ==> Open(components[k], next.mat.width, next.mat.height)
    ensures forall c :: c in rest ==> exists k :: 0 <= k < |components| && c in components[k].ElemSet()
  {
    next := EmbedAt(cw, cut, word, offset, words);
    var subcut := Subcut(cut, offset, offset + |word|);
    var nextCuts := RemainingCuts(next, cuts, subcut);
    components := SplitComponents(nextCuts, next.mat.width, next.mat.height);
    rest := nextCuts.ElemSet();
  }

  class Builder {
    const width: nat
    const height: nat
    const corpus: Corpus

    /** A builder of `width` by `height` crosswords over `words`. */
    constructor (width: nat, height: nat, words: seq<string>)
      ensures this.width == width && this.height == height
      ensures fresh(corpus) && corpus.Valid() && corpus.words == words && corpus.cache == map[]
    {
      this.width, this.height := width, height;
      var c := new Corpus(words);
      corpus := c;
    }

    /** The candidates of `cut`, through the corpus memo. */
    method GetMatchingWords(cw: Crossword, cut: Cut) returns (matches: seq<string>)
      requires corpus.Valid() && cw.Valid() && InGrid(cut, cw.mat.width, cw.mat.height)
      modifies corpus
      ensures corpus.Valid()
      ensures matches == Candidates(corpus.words, cw.mat.data, cw.mat.width, cw.mat.height, cw.embeddings, cut)
    {
      var cutData := cw.mat.GetCutData(cut);
      var pattern := GracefulCutPattern(cutData);
      var found := corpus.Filter(pattern);
      matches := Utils.Filter(found, Unused(cw.embeddings));
    }

    /**
     * The candidates of every cut of `cuts`, in the set's order, or `blocked`
     * as soon as a cut has none.
     */
    method Tally(cw: Crossword, cuts: Set<Cut>) returns (entries: seq<MapEntry<Cut, seq<string>>>, blocked: bool)
      requires corpus.Valid() && cw.Valid() && Open(cuts, cw.mat.width, cw.mat.height)
      modifies corpus
      ensures corpus.Valid()
      ensures blocked <==> Blocked(corpus.words, cw.mat.data, cw.mat.width, cw.mat.height, cw.embeddings, cuts.ElemSet())
      ensures forall e :: e in entries ==>
        e.key in cuts.ElemSet() && e.value == Candidates(corpus.words, cw.mat.data, cw.mat.width, cw.mat.height, cw.embeddings, e.key)
      ensures !blocked ==> |entries| == |cuts.Elements()| && forall i :: 0 <= i < |entries| ==> entries[i].key == cuts.Elements()[i]
    {
      var cutMatchMap;
      cutMatchMap, blocked := TallyMap(cw, cuts);
      if blocked {
        return [], true;
      }
      entries := cutMatchMap.Entries();
    }

    /** The loop of `Tally`: the candidates of each cut recorded in a fresh ordered map, in the set's order. */
    method TallyMap(cw: Crossword, cuts: Set<Cut>) returns (cutMatchMap: OrderedMap<Cut, seq<string>>, blocked: bool)
      requires corpus.Valid() && cw.Valid() && Open(cuts, cw.mat.width, cw.mat.height)
      modifies corpus
      ensures corpus.Valid() && cutMatchMap.Valid() && fresh(cutMatchMap)
      ensures blocked <==> Blocked(corpus.words, cw.mat.data, cw.mat.width, cw.mat.height, cw.embeddings, cuts.ElemSet())
      ensures !blocked ==> Tallied(cutMatchMap.Model(), cutMatchMap.order, cuts.Elements(), |cuts.Elements()|,
                                   corpus.words, cw.mat.data, cw.mat.width, cw.mat.height, cw.embeddings)
    {
      var size := cuts.Size();
      cutMatchMap := new OrderedMap<Cut, seq<string>>(size, []);
      var slice := cuts.ToSlice();
      cuts.ElementsDistinct();
      ghost var words, data, w, h, e := corpus.words, cw.mat.data, cw.mat.width, cw.mat.height, cw.embeddings;
      for i := 0 to |slice|
        invariant corpus.Valid() && cutMatchMap.Valid() && fresh(cutMatchMap)
        invariant Tallied(cutMatchMap.Model(), cutMatchMap.order, slice, i, words, data, w, h, e)
      {
        var matches := GetMatchingWords(cw, slice[i]);
        if |matches| == 0 {
          assert slice[i] in cuts.ElemSet();
          return cutMatchMap, true;
        }
        TalliedStep(cutMatchMap.Model(), cutMatchMap.order, slice, i, words, data, w, h, e, matches);
        cutMatchMap.Set(slice[i], matches);
      }
      TalliedAll(cutMatchMap.Model(), cutMatchMap.order, slice, words, data, w, h, e);
      blocked := false;
    }

    /**
     * Fills the cuts of `cuts` with candidates, backtracking: nothing to fill
     * gives `cw` itself, a cut without candidates gives null, and otherwise
     * the cuts are tried in ascending order of their number of candidates,
     * each with its first 100 candidates at every valid offset, until an
     * attempt succeeds.
     */
    method build(cw: Crossword, cuts: Set<Cut>) returns (r: Crossword?)
      requires corpus.Valid() && cw.Valid() && Open(cuts, cw.mat.width, cw.mat.height)
      modifies corpus
      decreases |Elems(corpus.words) - WordSet(cw.embeddings)|, 2
      ensures corpus.Valid()
      ensures cuts.Elements() == [] ==> r == cw
      ensures Blocked(corpus.words, cw.mat.data, cw.mat.width, cw.mat.height, cw.embeddings, cuts.ElemSet()) ==> r == null
      ensures r != null ==> (r == cw || fresh(r)) && Grows(cw, r, corpus.words)
      ensures r != null && cuts.Elements() != [] ==> |r.embeddings| > |cw.embeddings|
      ensures r != null && Lettered(corpus.words) ==> AllFilled(r.mat.data, cuts.ElemSet())
    {
      var size := cuts.Size();
      if size == 0 {
        return cw;
      }
      var cutMatches, blocked := Tally(cw, cuts);
      if blocked {
        return null;
      }
      ghost var tallied := cutMatches;
      cutMatches := SortBy(cutMatches, MatchCount);
      SortByElements(tallied, MatchCount);
      for n := 0 to |cutMatches|
        invariant corpus.Valid()
      {
        var cut, matches := cutMatches[n].key, cutMatches[n].value;
        assert cutMatches[n] in tallied;
        if |matches| > 100 {
          matches := matches[..100];
        }
        r := TryCut(cw, cuts, cut, matches);
        if r != null {
          return r;
        }
      }
      return null;
    }

    /**
     * Tries each word of `matches`, in order, at each of its valid offsets
     * along `cut`, in ascending order, and gives the first success.
     */
    method TryCut(cw: Crossword, cuts: Set<Cut>, cut: Cut, matches: seq<string>) returns (r: Crossword?)
      requires corpus.Valid() && cw.Valid() && Open(cuts, cw.mat.width, cw.mat.height) && cut in cuts.ElemSet()
      requires forall w :: w in matches ==> w in Candidates(corpus.words, cw.mat.data, cw.mat.width, cw.mat.height, cw.embeddings, cut)
      modifies corpus
      decreases |Elems(corpus.words) - WordSet(cw.embeddings)|, 1
      ensures corpus.Valid()
      ensures r != null ==> fresh(r) && Grows(cw, r, corpus.words) && |r.embeddings| > |cw.embeddings|
      ensures r != null && Lettered(corpus.words) ==> AllFilled(r.mat.data, cuts.ElemSet())
    {
      for m := 0 to |matches|
        invariant corpus.Valid()
      {
        var word := matches[m];
        assert word in matches;
        CandidatesAre(corpus.words, cw.mat.data, cw.mat.width, cw.mat.height, cw.embeddings, cut, word);
        var validOffsets := ValidOffsets(cw, cut, word);
        for v := 0 to |validOffsets|
          invariant corpus.Valid()
        {
          assert validOffsets[v] in validOffsets;
          r := TryOffset(cw, cuts, cut, word, validOffsets[v]);
          if r != null {
            return r;
          }
        }
      }
      return null;
    }

    /**
     * One attempt: embeds `word` at `offset` along `cut` into a copy of `cw`,
     * takes the long runs of `cuts` on the new grid other than the one just
     * filled, and solves the components of their crossing graph, smallest
     * first, threading the result; null as soon as one component fails.
     */
    method TryOffset(cw: Crossword, cuts: Set<Cut>, cut: Cut, word: string, offset: int) returns (r: Crossword?)
      requires corpus.Valid() && cw.Valid() && Open(cuts, cw.mat.width, cw.mat.height)
      requires InGrid(cut, cw.mat.width, cw.mat.height) && 0 <= offset && offset + |word| <= cut.len
      requires ValidOffset(cw.mat.data, cw.mat.width, cw.mat.height, cw.mat.empty, cw.mat.stop, cut, word, offset)
      requires word in corpus.words && !WordUsed(cw.embeddings, word)
      modifies corpus
      decreases |Elems(corpus.words) - WordSet(cw.embeddings)|, 0
      ensures corpus.Valid()
      ensures r != null ==> fresh(r) && Grows(cw, r, corpus.words) && |r.embeddings| > |cw.embeddings|
      ensures r != null && Lettered(corpus.words) ==> AllFilled(r.mat.data, cuts.ElemSet())
    {
      var next, components, rest := EmbedAndSplit(cw, cuts, cut, word, offset, corpus.words);
      ghost var before, after := cw.mat.data, next.mat.data;
      r := SolveAll(next, components, rest);
      if r != null {
        GrowsTrans(cw, next, r, corpus.words);
        if Lettered(corpus.words) {
          EmbedThenFilled(before, after, r.mat.data, cw.mat.width, cw.mat.height, cw.embeddings,
                          cuts.Elements(), cut, word, offset, rest, corpus.words);
        }
      }
    }

    /**
     * Solves the components one after the other, each on the result of the
     * one before; null as soon as one of them fails.
     */
    method SolveAll(next: Crossword, components: seq<Set<Cut>>, ghost covered: set<Cut>) returns (r: Crossword?)
      requires corpus.Valid() && next.Valid()
      requires forall k :: 0 <= k < |components| ==> Open(components[k], next.mat.width, next.mat.height)
      requires forall c :: c in covered ==> exists k :: 0 <= k < |components| && c in components[k].ElemSet()
      modifies corpus
      decreases |Elems(corpus.words) - WordSet(next.embeddings)|, 3
      ensures corpus.Valid()
      ensures r != null ==> (r == next || fresh(r)) && Grows(next, r, corpus.words)
      ensures r != null && Lettered(corpus.words) ==> AllFilled(r.mat.data, covered)
    {
      r := next;
      for c := 0 to |components|
        invariant corpus.Valid()
        invariant r != null && (r == next || fresh(r)) && Grows(next, r, corpus.words)
        invariant Lettered(corpus.words) ==> FilledParts(r.mat.data, components, c)
      {
        var prev := r;
        assert Open(components[c], prev.mat.width, prev.mat.height);
        WordSetGrows(next.embeddings, prev.embeddings);
        ShrinksWeakly(Elems(corpus.words), WordSet(next.embeddings), WordSet(prev.embeddings));
        r := build(prev, components[c]);
        if r == null {
          return null;
        }
        GrowsTrans(next, prev, r, corpus.words);
        if Lettered(corpus.words) {
          FilledPartsKeeps(prev.mat.data, r.mat.data, prev.mat.width, prev.mat.height, components, c);
          FilledPartsSnoc(r.mat.data, components, c);
        }
      }
      if Lettered(corpus.words) {
        CoveredFilled(r.mat.data, components, covered);
      }
    }

    /** Fills a fresh crossword of the builder's size, starting from all of its cuts. */
    method Build() returns (r: Crossword?)
      requires corpus.Valid()
      modifies corpus
      ensures corpus.Valid()
      ensures r != null ==> fresh(r) && r.Valid() && r.mat.width == width && r.mat.height == height
      ensures r != null ==> forall k :: 0 <= k < |r.embeddings| ==> r.embeddings[k].word in corpus.words
      ensures r != null && width > 1 && height > 1 ==> |r.embeddings| > 0
      ensures r != null && Lettered(corpus.words) && width > 1 && height > 1 ==>
        AllFilled(r.mat.data, Elems(InitialCuts(width, height)))
    {
      var cw := new Crossword(width, height);
      var cutSlice := cw.mat.GetCuts();
      InitialCutsInGrid(width, height);
      LongRunsInGrid(cw.mat.data, width, height, cw.mat.stop, InitialCuts(width, height));
      var cuts := SetFromSlice(cutSlice);
      DedupProperties(cutSlice);
      if width > 1 && height > 1 {
        FreshGridCuts(width, height, cw.mat.empty, cw.mat.stop, cw.mat.data);
        assert InitialCuts(width, height)[0] in cutSlice;
      }
      r := build(cw, cuts);
    }
  }
}
