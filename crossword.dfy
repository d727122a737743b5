/**
 * The puzzle state: a cut matrix whose empty cells hold "." and whose stop
 * cells hold "1", and the list of words written so far with the cuts they
 * went into. Also the graph of crossing cuts that the builder splits into
 * independent parts.
 */
module Crosswords {
  import opened Options
  import opened Seqs
  import Utils
  import opened Geometry
  import opened CutMatrices
  import opened Sets
  import opened Graphs

  /** A word together with the cut it was written into. */
  datatype CutWithWord = CutWithWord(cut: Cut, word: string)
  {
    /** An embedding with a copy of the cut and the same word. */
    function Copy(): (copy: CutWithWord)
      ensures copy == this
    {
      CutWithWord(cut.Copy(), word)
    }
  }

  const Empty: string := "."
  const Stop: string := "1"

  /** Whether some recorded embedding holds `word`. */
  predicate WordUsed(embeddings: seq<CutWithWord>, word: string)
  {
    exists k :: 0 <= k < |embeddings| && embeddings[k].word == word
  }

  /** Whether some recorded embedding was written into `cut`. */
  predicate CutUsed(embeddings: seq<CutWithWord>, cut: Cut)
  {
    exists k :: 0 <= k < |embeddings| && embeddings[k].cut == cut
  }

  /** The test for a word that no recorded embedding holds. */
  function Unused(embeddings: seq<CutWithWord>): string -> bool
  {
    w => !WordUsed(embeddings, w)
  }

  /** The test for a cut that no recorded embedding was written into. */
  function Unembedded(embeddings: seq<CutWithWord>): Cut -> bool
  {
    c => !CutUsed(embeddings, c)
  }

  /** No word is recorded twice. */
  ghost predicate DistinctWords(embeddings: seq<CutWithWord>)
  {
    forall a, b :: 0 <= a < b < |embeddings| ==> embeddings[a].word != embeddings[b].word
  }

  /** The recorded words. */
  ghost function WordSet(embeddings: seq<CutWithWord>): set<string>
  {
    set k | 0 <= k < |embeddings| :: embeddings[k].word
  }

  /** A longer list of embeddings records at least the words of its prefix. */
  lemma WordSetGrows(prefix: seq<CutWithWord>, embeddings: seq<CutWithWord>)
    requires prefix <= embeddings
    ensures WordSet(prefix) <= WordSet(embeddings)
  {
    forall w | w in WordSet(prefix)
      ensures w in WordSet(embeddings)
    {
      var k :| 0 <= k < |prefix| && prefix[k].word == w;
      assert embeddings[k] == prefix[k];
    }
  }

  /** Appending an embedding adds its word. */
  lemma WordSetSnoc(embeddings: seq<CutWithWord>, x: CutWithWord)
    ensures WordSet(embeddings + [x]) == WordSet(embeddings) + {x.word}
  {
    var e := embeddings + [x];
    assert e[|embeddings|] == x;
    assert forall k :: 0 <= k < |embeddings| ==> e[k] == embeddings[k];
  }

  /** Writes `stop` at an in-grid cell as `CutMatrix.Set` would, ignoring a refusal; cells off the grid are skipped. */
  function Flanked(data: Grid, width: nat, height: nat, empty: string, stop: string, cell: (int, int)): (g: Grid)
    requires Shaped(data, width, height)
    ensures Shaped(g, width, height)
  {
    WrittenOnly(data, width, height, empty, cell.0, cell.1, stop);
    if InBounds(width, height, cell.0, cell.1) then Written(data, width, height, empty, cell.0, cell.1, stop).1 else data
  }

  /**
   * The outcome of embedding `word` into `cut`: refused when the word is
   * already recorded; otherwise the characters are filled into the cut, a
   * refused fill is returned as it stands (earlier writes stay, nothing is
   * recorded), and a successful one marks the cells just before and just
   * after the cut as stops and records the embedding.
   */
  function EmbedOutcome(data: Grid, width: nat, height: nat, empty: string, stop: string,
                        embeddings: seq<CutWithWord>, cut: Cut, word: string): (Option<Error>, Grid, seq<CutWithWord>)
    requires Shaped(data, width, height)
  {
    if WordUsed(embeddings, word) then (Some(AlreadyEmbedded(word)), data, embeddings)
    else
      var (err, filled) := FillResult(data, width, height, empty, cut, Utils.CharsOf(word));
      if err.Some? then (err, filled, embeddings)
      else
        var marked := Flanked(Flanked(filled, width, height, empty, stop, CellOf(cut, -1)), width, height, empty, stop, CellOf(cut, cut.len));
        (None, marked, embeddings + [CutWithWord(cut, word)])
  }

  /**
   * An embedding is recorded exactly when the outcome is a success, at the
   * end of the list; a recorded word is refused with the grid untouched.
   */
  lemma EmbedRecords(data: Grid, width: nat, height: nat, empty: string, stop: string,
                     embeddings: seq<CutWithWord>, cut: Cut, word: string)
    requires Shaped(data, width, height)
    ensures var (err, g, e) := EmbedOutcome(data, width, height, empty, stop, embeddings, cut, word);
      && (err.Some? ==> e == embeddings)
      && (err.None? ==> e == embeddings + [CutWithWord(cut, word)] && !WordUsed(embeddings, word))
      && (WordUsed(embeddings, word) ==> err == Some(AlreadyEmbedded(word)) && g == data)
  {
  }

  /**
   * An embedding succeeds exactly when the word is new, fits in the cut and
   * each cell it goes to is empty or already holds its character.
   */
  lemma EmbedSucceeds(data: Grid, width: nat, height: nat, empty: string, stop: string,
                      embeddings: seq<CutWithWord>, cut: Cut, word: string)
    requires Shaped(data, width, height)
    requires !WordUsed(embeddings, word) && |word| <= cut.len ==> InGrid(cut, width, height)
    ensures EmbedOutcome(data, width, height, empty, stop, embeddings, cut, word).0.None? <==>
      && !WordUsed(embeddings, word) && |word| <= cut.len
      && forall t :: 0 <= t < |word| ==> Admits(data, width, height, empty, cut, t, [word[t]])
  {
    var chars := Utils.CharsOf(word);
    Utils.CharsRoundTrip(word);
    if !WordUsed(embeddings, word) {
      FillSucceeds(data, width, height, empty, cut, chars);
      if |word| <= cut.len {
        assert forall t :: 0 <= t < |word| ==> chars[t] == [word[t]];
      }
    }
  }

  /**
   * What a fill-in that placed the word's characters into the first cells of
   * `cut` (and left every other cell alone) leaves at a flank cell after it
   * is marked: a stop where the cell was empty or a stop, the old letter
   * otherwise.
   */
  ghost predicate FlankMarked(data: Grid, g: Grid, width: nat, height: nat, empty: string, stop: string, cell: (int, int))
    requires Shaped(data, width, height) && Shaped(g, width, height)
  {
    InBounds(width, height, cell.0, cell.1) ==>
      if data[cell.0][cell.1] == empty || data[cell.0][cell.1] == stop then g[cell.0][cell.1] == stop
      else g[cell.0][cell.1] == data[cell.0][cell.1]
  }

  /**
   * After a successful embedding the first |word| cells of the cut hold the
   * word's characters, the two flank cells are marked, every other cell is
   * unchanged, and the embedding is appended.
   */
  lemma EmbedPlaces(data: Grid, width: nat, height: nat, empty: string, stop: string,
                    embeddings: seq<CutWithWord>, cut: Cut, word: string)
    requires Shaped(data, width, height) && InGrid(cut, width, height)
    requires EmbedOutcome(data, width, height, empty, stop, embeddings, cut, word).0 == None
    ensures var (_, g, e) := EmbedOutcome(data, width, height, empty, stop, embeddings, cut, word);
      && Shaped(g, width, height)
      && e == embeddings + [CutWithWord(cut, word)]
      && |word| <= cut.len
      && (forall t :: 0 <= t < |word| ==> g[CellOf(cut, t).0][CellOf(cut, t).1] == [word[t]])
      && FlankMarked(data, g, width, height, empty, stop, CellOf(cut, -1))
      && FlankMarked(data, g, width, height, empty, stop, CellOf(cut, cut.len))
      && forall a, b ::
           (InBounds(width, height, a, b) && (a, b) != CellOf(cut, -1) && (a, b) != CellOf(cut, cut.len)
            && forall t :: 0 <= t < |word| ==> CellOf(cut, t) != (a, b)) ==> g[a][b] == data[a][b]
  {
    var chars := Utils.CharsOf(word);
    Utils.CharsRoundTrip(word);
    FillPlaced(data, width, height, empty, cut, chars);
    var filled := FillResult(data, width, height, empty, cut, chars).1;
    var pre, post := CellOf(cut, -1), CellOf(cut, cut.len);
    var g1 := Flanked(filled, width, height, empty, stop, pre);
    var g := Flanked(g1, width, height, empty, stop, post);
    WrittenOnly(filled, width, height, empty, pre.0, pre.1, stop);
    WrittenOnly(g1, width, height, empty, post.0, post.1, stop);
    assert pre != post;
    assert forall t :: 0 <= t < |word| ==> CellOf(cut, t) != pre && CellOf(cut, t) != post;
    assert forall t :: 0 <= t < |word| ==> chars[t] == [word[t]];
    if InBounds(width, height, pre.0, pre.1) {
      assert filled[pre.0][pre.1] == data[pre.0][pre.1];
    }
    if InBounds(width, height, post.0, post.1) {
      assert filled[post.0][post.1] == data[post.0][post.1];
    }
  }

  /**
   * Embedding never changes a non-empty cell, and keeps every cell one
   * character long when the stop value is.
   */
  lemma EmbedKeeps(data: Grid, width: nat, height: nat, empty: string, stop: string,
                   embeddings: seq<CutWithWord>, cut: Cut, word: string)
    requires Shaped(data, width, height)
    ensures var g := EmbedOutcome(data, width, height, empty, stop, embeddings, cut, word).1;
      && Shaped(g, width, height) && Keeps(data, g, width, height, empty)
      && (SingleCells(data, width, height) && |stop| == 1 ==> SingleCells(g, width, height))
  {
    var chars := Utils.CharsOf(word);
    Utils.CharsRoundTrip(word);
    if !WordUsed(embeddings, word) {
      FilledKeeps(data, width, height, empty, cut, chars, 0);
      var filled := FillResult(data, width, height, empty, cut, chars).1;
      var pre, post := CellOf(cut, -1), CellOf(cut, cut.len);
      WrittenKeeps(filled, width, height, empty, pre.0, pre.1, stop);
      var g1 := Flanked(filled, width, height, empty, stop, pre);
      WrittenKeeps(g1, width, height, empty, post.0, post.1, stop);
    }
  }

  /** The cuts of a grid that no recorded embedding was written into. */
  function OpenCuts(data: Grid, width: nat, height: nat, stop: string, embeddings: seq<CutWithWord>): seq<Cut>
    requires Shaped(data, width, height)
  {
    InitialCutsInGrid(width, height);
    Filtered(LongRuns(data, width, height, stop, InitialCuts(width, height)), Unembedded(embeddings))
  }

  /** Whether positions a and b were visited by the loop over i and then j >= i before reaching (i, j). */
  predicate Visited(a: int, b: int, i: int, j: int)
  {
    var lo := if a <= b then a else b;
    var hi := if a <= b then b else a;
    lo < i || (lo == i && hi < j)
  }

  /** Every recorded neighbour of a cut meets it. */
  ghost predicate Sound(adj: map<Cut, set<Cut>>)
  {
    forall u, v :: u in adj && v in adj[u] ==> DoCutsMeet(u, v)
  }

  /** Every visited pair of positions of `cuts` whose cuts meet is connected. */
  ghost predicate Complete(adj: map<Cut, set<Cut>>, cuts: seq<Cut>, i: int, j: int)
  {
    forall a, b :: 0 <= a < |cuts| && 0 <= b < |cuts| && Visited(a, b, i, j) && DoCutsMeet(cuts[a], cuts[b]) ==>
      cuts[a] in adj && cuts[b] in adj[cuts[a]]
  }

  /** The neighbour relation after connecting `u` and `v` both ways. */
  ghost function Joined(adj: map<Cut, set<Cut>>, u: Cut, v: Cut): map<Cut, set<Cut>>
    requires u in adj && v in adj
  {
    adj[u := adj[u] + {v}][v := adj[v] + {u}]
  }

  /** Connecting positions i and j when their cuts meet keeps the relation sound and completes (i, j). */
  lemma MeetStep(adj: map<Cut, set<Cut>>, cuts: seq<Cut>, i: int, j: int)
    requires 0 <= i <= j < |cuts| && cuts[i] in adj && cuts[j] in adj
    requires Sound(adj) && Complete(adj, cuts, i, j)
    ensures var next := if DoCutsMeet(cuts[i], cuts[j]) then Joined(adj, cuts[i], cuts[j]) else adj;
      Sound(next) && Complete(next, cuts, i, j + 1)
  {
    DoCutsMeetSymmetric(cuts[i], cuts[j]);
  }

  /** Having visited the pairs from position i onwards is having visited the ones before i + 1. */
  lemma RowDone(adj: map<Cut, set<Cut>>, cuts: seq<Cut>, i: int)
    requires Complete(adj, cuts, i, |cuts|)
    ensures Complete(adj, cuts, i + 1, i + 1)
  {
  }

  /** Once every pair is visited, the neighbours of each cut are exactly the cuts it meets. */
  lemma AllVisited(adj: map<Cut, set<Cut>>, cuts: seq<Cut>)
    requires adj.Keys == Elems(cuts) && Sound(adj) && Complete(adj, cuts, |cuts|, |cuts|)
    ensures forall u, v :: u in adj && v in adj ==> (v in adj[u] <==> DoCutsMeet(u, v))
  {
    forall u, v | u in adj && v in adj && DoCutsMeet(u, v)
      ensures v in adj[u]
    {
      var a :| 0 <= a < |cuts| && cuts[a] == u;
      var b :| 0 <= b < |cuts| && cuts[b] == v;
      assert Visited(a, b, |cuts|, |cuts|);
    }
  }

  /** Connects the cut at position i with each cut at or after it that it meets. */
  method ConnectFrom(graph: Graph<Cut>, cuts: seq<Cut>, i: int)
    requires 0 <= i < |cuts| && graph.Valid() && graph.adj.Keys == Elems(cuts)
    requires Sound(graph.adj) && Complete(graph.adj, cuts, i, i)
    modifies graph, graph.Neighborhood
    ensures graph.Valid() && graph.adj.Keys == Elems(cuts)
    ensures Sound(graph.adj) && Complete(graph.adj, cuts, i + 1, i + 1)
  {
    for j := i to |cuts|
      invariant graph.Valid() && graph.adj.Keys == Elems(cuts)
      invariant Sound(graph.adj) && Complete(graph.adj, cuts, i, j)
    {
      MeetStep(graph.adj, cuts, i, j);
      if DoCutsMeet(cuts[i], cuts[j]) {
        graph.Connect(cuts[i], cuts[j]);
      }
    }
    RowDone(graph.adj, cuts, i);
  }

  /**
   * Connects every pair of cuts of `cuts` that meet, each pair once with the
   * second at or after the first, so each cut is also connected to itself.
   */
  method ConnectMeeting(graph: Graph<Cut>, cuts: seq<Cut>)
    requires graph.Valid() && graph.adj.Keys == Elems(cuts)
    requires forall v :: v in graph.adj ==> graph.adj[v] == {}
    modifies graph, graph.Neighborhood
    ensures graph.Valid() && graph.adj.Keys == Elems(cuts)
    ensures forall u, v :: u in graph.adj && v in graph.adj ==> (v in graph.adj[u] <==> DoCutsMeet(u, v))
  {
    for i := 0 to |cuts|
      invariant graph.Valid() && graph.adj.Keys == Elems(cuts)
      invariant Sound(graph.adj) && Complete(graph.adj, cuts, i, i)
    {
      ConnectFrom(graph, cuts, i);
    }
    AllVisited(graph.adj, cuts);
  }

  /**
   * The graph over `cuts` (sharing the set) whose edges join the cuts that
   * meet: every cut is its own neighbour and the relation is symmetric.
   */
  method CutGraph(cuts: Set<Cut>) returns (graph: Graph<Cut>)
    requires cuts.Valid()
    ensures fresh(graph) && fresh(graph.Neighborhood)
    ensures graph.Valid() && graph.Nodes == cuts && graph.adj.Keys == cuts.ElemSet()
    ensures forall u, v :: u in graph.adj && v in graph.adj ==> (v in graph.adj[u] <==> DoCutsMeet(u, v))
    ensures forall u :: u in graph.adj ==> u in graph.adj[u]
  {
    graph := new Graph(cuts);
    var slice := cuts.ToSlice();
    ConnectMeeting(graph, slice);
    forall u | u in graph.adj
      ensures u in graph.adj[u]
    {
      DoCutsMeetSelf(u);
    }
  }

  class Crossword {
    const mat: CutMatrix
    /** The words written so far, oldest first, with their cuts. */
    var embeddings: seq<CutWithWord>

    /**
     * The matrix is well-formed with "." for empty cells and "1" for stops,
     * every cell holds one character and no word is recorded twice.
     */
    ghost predicate Valid()
      reads this, mat
    {
      && mat.Valid() && mat.empty == Empty && mat.stop == Stop
      && SingleCells(mat.data, mat.width, mat.height)
      && DistinctWords(embeddings)
    }

    /** A `width` by `height` crossword of empty cells with nothing embedded. */
    constructor (width: nat, height: nat)
      ensures Valid() && fresh(mat) && embeddings == []
      ensures mat.width == width && mat.height == height
      ensures forall i, j :: InBounds(width, height, i, j) ==> mat.data[i][j] == Empty
    {
      var m := new CutMatrix(width, height, Empty, Stop);
      mat := m;
      embeddings := [];
    }

    /** A crossword over the given matrix and embeddings. */
    constructor Of(mat: CutMatrix, embeddings: seq<CutWithWord>)
      ensures this.mat == mat && this.embeddings == embeddings
    {
      this.mat := mat;
      this.embeddings := embeddings;
    }

    /** Whether some recorded embedding holds `word`. */
    method IsWordEmbedded(word: string) returns (b: bool)
      ensures b <==> WordUsed(embeddings, word)
    {
      for k := 0 to |embeddings|
        invariant forall t :: 0 <= t < k ==> embeddings[t].word != word
      {
        if word == embeddings[k].word {
          return true;
        }
      }
      return false;
    }

    /** Whether some recorded embedding was written into `cut`. */
    method IsCutEmbedded(cut: Cut) returns (b: bool)
      ensures b <==> CutUsed(embeddings, cut)
    {
      for k := 0 to |embeddings|
        invariant forall t :: 0 <= t < k ==> embeddings[t].cut != cut
      {
        if cut == embeddings[k].cut {
          return true;
        }
      }
      return false;
    }

    /**
     * Writes `word` into the first cells of `cut` and marks its flanks as
     * stops, as `EmbedOutcome` describes. The cut must lie in the grid
     * whenever the fill-in actually reaches its cells.
     */
    method Embed(cut: Cut, word: string) returns (err: Option<Error>)
      requires Valid()
      requires !WordUsed(embeddings, word) && |word| <= cut.len ==> InGrid(cut, mat.width, mat.height)
      modifies this, mat
      ensures Valid()
      ensures (err, mat.data, embeddings) ==
        EmbedOutcome(old(mat.data), mat.width, mat.height, mat.empty, mat.stop, old(embeddings), cut, word)
    {
      EmbedKeeps(mat.data, mat.width, mat.height, mat.empty, mat.stop, embeddings, cut, word);
      var embedded := IsWordEmbedded(word);
      if embedded {
        return Some(AlreadyEmbedded(word));
      }
      var chars := Utils.Chars(word);
      Utils.CharsRoundTrip(word);
      err := mat.FillIn(chars, cut);
      if err != None {
        return err;
      }
      var pre := Move(cut.row, cut.col, cut.orientation, -1);
      if mat.IsValid(pre.0, pre.1) {
        var _ := mat.Set(pre.0, pre.1, mat.stop);
      }
      var post := Move(cut.row, cut.col, cut.orientation, cut.len);
      if mat.IsValid(post.0, post.1) {
        var _ := mat.Set(post.0, post.1, mat.stop);
      }
      embeddings := embeddings + [CutWithWord(cut, word)];
    }

    /** A crossword sharing nothing with this one, with equal grid and embeddings. */
    method Copy() returns (copy: Crossword)
      requires Valid()
      ensures fresh(copy) && fresh(copy.mat) && copy.Valid()
      ensures copy.mat.width == mat.width && copy.mat.height == mat.height
      ensures copy.mat.data == mat.data && copy.embeddings == embeddings
    {
      var m := mat.Copy();
      var e := Utils.Map(embeddings, (x: CutWithWord) => x.Copy());
      assert e == embeddings;
      copy := new Crossword.Of(m, e);
    }

    /**
     * The graph of the grid's cuts that no embedding was written into, with
     * an edge between every two that meet.
     */
    method GetCutGraph() returns (graph: Graph<Cut>)
      requires Valid()
      ensures fresh(graph) && fresh(graph.Neighborhood) && fresh(graph.Nodes.members) && graph.Valid()
      ensures graph.Nodes.Elements() == Dedup(OpenCuts(mat.data, mat.width, mat.height, mat.stop, embeddings))
      ensures graph.adj.Keys == Elems(OpenCuts(mat.data, mat.width, mat.height, mat.stop, embeddings))
      ensures forall u, v :: u in graph.adj && v in graph.adj ==> (v in graph.adj[u] <==> DoCutsMeet(u, v))
    {
      var all := mat.GetCuts();
      var cuts := Utils.Filter(all, Unembedded(embeddings));
      var nodes := SetFromSlice(cuts);
      DedupProperties(cuts);
      graph := new Graph(nodes);
      ConnectMeeting(graph, cuts);
    }
  }
}
