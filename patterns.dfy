/**
 * The two shapes of regular expression the builder forms, as a datatype with
 * the meaning of each shape. An atom is `.` (any character but a newline) or
 * one literal character; a cell holding "." stands for `.`, any other cell for
 * its characters taken literally.
 */
module Patterns {
  import opened Utils

  datatype Atom = Any | Lit(c: char)

  predicate AtomMatches(a: Atom, c: char)
  {
    match a
    case Any => c != '\n'
    case Lit(x) => c == x
  }

  /** The characters `. ` would match, one by one: none is a newline. */
  predicate Free(s: string)
  {
    forall i :: 0 <= i < |s| ==> s[i] != '\n'
  }

  /** The atoms match the characters of `w` from position `at`, one each. */
  predicate MatchesAt(atoms: seq<Atom>, w: string, at: int)
  {
    0 <= at && at + |atoms| <= |w| && forall k :: 0 <= k < |atoms| ==> AtomMatches(atoms[k], w[at + k])
  }

  datatype Pattern =
    /** `^.{1,max}$` */
    | Slack(max: int)
    /** `^.{0,pre}` + atoms + `.{0,post}$`, a bound of zero written as nothing. */
    | Framed(pre: nat, inner: seq<Atom>, post: nat)
    /** The atoms, unanchored: they may match anywhere in the string. */
    | Literal(atoms: seq<Atom>)

  /** `w` is `pre'` free characters, then `inner`, then at most `post` free characters, with `pre' == a`. */
  predicate FramedAt(inner: seq<Atom>, post: nat, w: string, a: int)
  {
    && MatchesAt(inner, w, a)
    && |w| - a - |inner| <= post
    && Free(w[..a]) && Free(w[a + |inner|..])
  }

  /** Whether the regular expression `p` stands for matches `w`. */
  predicate Accepts(p: Pattern, w: string)
  {
    match p
    case Slack(max) => 1 <= |w| <= max && Free(w)
    case Framed(pre, inner, post) => exists a :: 0 <= a <= pre && FramedAt(inner, post, w, a)
    case Literal(atoms) => exists k :: 0 <= k <= |w| - |atoms| && MatchesAt(atoms, w, k)
  }

  /** `Accepts` as a test on words. */
  function Matcher(p: Pattern): string -> bool
  {
    w => Accepts(p, w)
  }

  /** The atoms of the joined text of some cells: "." is `.`, anything else literal. */
  function AtomsOf(text: string): (atoms: seq<Atom>)
    ensures |atoms| == |text|
  {
    seq(|text|, i requires 0 <= i < |text| => if text[i] == '.' then Any else Lit(text[i]))
  }

  /** Whether a one-character cell admits `c` at its position: "." any non-newline, else itself. */
  predicate CellMatches(cell: string, c: char)
  {
    if cell == "." then c != '\n' else cell == [c]
  }

  /** Over one-character cells, the atoms of the joined text are the cells' own atoms. */
  lemma CellAtoms(cells: seq<string>)
    requires SingleChars(cells)
    ensures |AtomsOf(Concat(cells))| == |cells|
    ensures forall k, c :: 0 <= k < |cells| ==> (AtomMatches(AtomsOf(Concat(cells))[k], c) <==> CellMatches(cells[k], c))
  {
    ConcatSingles(cells);
    forall k, c | 0 <= k < |cells|
      ensures AtomMatches(AtomsOf(Concat(cells))[k], c) <==> CellMatches(cells[k], c)
    {
      assert cells[k] == [cells[k][0]];
    }
  }

  predicate NotDot(cell: string)
  {
    cell != "."
  }

  /**
   * The permissive pattern of a cut's cells: nothing but "." cells admits any
   * one to `|cells|` characters; otherwise the cells from the first to the last
   * non-"." one must match in place, with as much free slack before and after
   * as the cut leaves.
   */
  function Graceful(cells: seq<string>): Pattern
  {
    var o := IndexOfFirst(cells, NotDot);
    var t := IndexOfLast(cells, NotDot);
    if o == -1 then Slack(|cells|)
    else
      assert o <= t by {
        assert NotDot(cells[o]);
      }
      Framing(cells, o, t)
  }

  /** The cells `o` to `t` in place, with up to `o` free characters before and the rest of the cut after. */
  function Framing(cells: seq<string>, o: int, t: int): Pattern
    requires 0 <= o <= t < |cells|
  {
    Framed(o, AtomsOf(Concat(cells[o..t + 1])), |cells| - 1 - t)
  }

  /** The exact pattern of a subcut's cells, matched anywhere in the word. */
  function Exact(cells: seq<string>): Pattern
  {
    Literal(AtomsOf(Concat(cells)))
  }

  /** With every cell ".", the permissive pattern accepts the words of one to `|cells|` characters. */
  lemma GracefulAllDots(cells: seq<string>, w: string)
    requires forall k :: 0 <= k < |cells| ==> cells[k] == "."
    ensures Accepts(Graceful(cells), w) <==> 1 <= |w| <= |cells| && Free(w)
  {
  }

  /** Every slice of a free string is free. */
  lemma FreeSlice(w: string, lo: int, hi: int)
    requires Free(w) && 0 <= lo <= hi <= |w|
    ensures Free(w[lo..hi]) && Free(w[lo..]) && Free(w[..hi])
  {
    assert forall i :: 0 <= i < hi - lo ==> w[lo..hi][i] == w[lo + i];
    assert forall i :: 0 <= i < |w| - lo ==> w[lo..][i] == w[lo + i];
  }

  /**
   * `w` fits the one-character cells with `a` free characters before the part
   * from the first non-"." cell `o` to the last one `t`, that part matching in
   * place, and the rest free and no longer than the cut leaves after `t`.
   */
  predicate FitsAround(cells: seq<string>, o: int, t: int, w: string, a: int)
    requires 0 <= o <= t < |cells|
  {
    && 0 <= a <= o
    && a + (t - o + 1) <= |w| <= a + (t - o + 1) + (|cells| - 1 - t)
    && Free(w[..a]) && Free(w[a + (t - o + 1)..])
    && forall k :: o <= k <= t ==> CellMatches(cells[k], w[a - o + k])
  }

  /** The atoms of cells `o` to `t` match from `a` exactly when each of those cells admits its character. */
  lemma InnerMatches(cells: seq<string>, o: int, t: int, w: string, a: int)
    requires SingleChars(cells) && 0 <= o <= t < |cells| && 0 <= a && a + (t - o + 1) <= |w|
    ensures MatchesAt(AtomsOf(Concat(cells[o..t + 1])), w, a) <==> forall k :: o <= k <= t ==> CellMatches(cells[k], w[a - o + k])
  {
    var part := cells[o..t + 1];
    assert SingleChars(part);
    CellAtoms(part);
    var inner := AtomsOf(Concat(part));
    assert forall k :: o <= k <= t ==> part[k - o] == cells[k];
    if MatchesAt(inner, w, a) {
      forall k | o <= k <= t
        ensures CellMatches(cells[k], w[a - o + k])
      {
        assert AtomMatches(inner[k - o], w[a + (k - o)]);
      }
    }
    if forall k :: o <= k <= t ==> CellMatches(cells[k], w[a - o + k]) {
      forall k | 0 <= k < |inner|
        ensures AtomMatches(inner[k], w[a + k])
      {
        assert CellMatches(cells[o + k], w[a - o + (o + k)]);
      }
    }
  }

  /** At one offset, the framed pattern of cells `o` to `t` matches exactly when the word fits around them. */
  lemma FramedAtFits(cells: seq<string>, o: int, t: int, w: string, a: int)
    requires SingleChars(cells) && 0 <= o <= t < |cells|
    ensures 0 <= a <= o && FramedAt(AtomsOf(Concat(cells[o..t + 1])), |cells| - 1 - t, w, a) <==> FitsAround(cells, o, t, w, a)
  {
    var inner := AtomsOf(Concat(cells[o..t + 1]));
    assert |inner| == t - o + 1 by {
      assert SingleChars(cells[o..t + 1]);
      ConcatSingles(cells[o..t + 1]);
    }
    if 0 <= a && a + (t - o + 1) <= |w| {
      InnerMatches(cells, o, t, w, a);
    }
  }

  /** Over one-character cells, the framing of cells `o` to `t` accepts exactly the words fitting around them. */
  lemma FramingFits(cells: seq<string>, o: int, t: int, w: string)
    requires SingleChars(cells) && 0 <= o <= t < |cells|
    ensures Accepts(Framing(cells, o, t), w) <==> exists a :: FitsAround(cells, o, t, w, a)
  {
    var inner := AtomsOf(Concat(cells[o..t + 1]));
    if Accepts(Framing(cells, o, t), w) {
      var a :| 0 <= a <= o && FramedAt(inner, |cells| - 1 - t, w, a);
      FramedAtFits(cells, o, t, w, a);
    }
    if a :| FitsAround(cells, o, t, w, a) {
      FramedAtFits(cells, o, t, w, a);
    }
  }

  /** Over one-character cells with a non-"." one, acceptance is exactly fitting around the fixed part. */
  lemma GracefulFramed(cells: seq<string>, w: string)
    requires SingleChars(cells) && IndexOfFirst(cells, NotDot) != -1
    ensures var o, t := IndexOfFirst(cells, NotDot), IndexOfLast(cells, NotDot);
      0 <= o <= t < |cells| &&
      (Accepts(Graceful(cells), w) <==> exists a :: FitsAround(cells, o, t, w, a))
  {
    var o, t := IndexOfFirst(cells, NotDot), IndexOfLast(cells, NotDot);
    assert NotDot(cells[o]);
    FramingFits(cells, o, t, w);
  }

  /** A word the permissive pattern of one-character cells accepts has one to `|cells|` characters. */
  lemma GracefulLength(cells: seq<string>, w: string)
    requires SingleChars(cells) && Accepts(Graceful(cells), w)
    ensures 1 <= |w| <= |cells|
  {
    if IndexOfFirst(cells, NotDot) != -1 {
      GracefulFramed(cells, w);
      var o, t := IndexOfFirst(cells, NotDot), IndexOfLast(cells, NotDot);
      var a :| FitsAround(cells, o, t, w, a);
    }
  }

  /** A word laid at offset `p` over the "." cells outside `o`..`t` and over all of `o`..`t` fits around them. */
  lemma PlacementFits(cells: seq<string>, o: int, t: int, w: string, p: int)
    requires 0 <= o <= t < |cells| && 0 <= p <= o && t < p + |w| <= |cells|
    requires forall k :: 0 <= k < |cells| && !(o <= k <= t) ==> cells[k] == "."
    requires forall k :: p <= k < p + |w| ==> CellMatches(cells[k], w[k - p])
    ensures FitsAround(cells, o, t, w, o - p)
  {
    var a := o - p;
    var b := a + (t - o + 1);
    forall i | 0 <= i < a
      ensures w[..a][i] != '\n'
    {
      assert CellMatches(cells[i + p], w[i + p - p]);
    }
    forall i | 0 <= i < |w| - b
      ensures w[b..][i] != '\n'
    {
      assert CellMatches(cells[b + i + p], w[b + i + p - p]);
    }
  }

  /**
   * A non-empty word laid into one-character cells at offset `p`, matching
   * each cell it covers and covering every non-"." cell, is accepted by the
   * permissive pattern: the filter loses no word that fits around the fixed
   * letters.
   */
  lemma GracefulAdmitsPlacement(cells: seq<string>, w: string, p: int)
    requires SingleChars(cells) && w != [] && 0 <= p && p + |w| <= |cells|
    requires forall k :: p <= k < p + |w| ==> CellMatches(cells[k], w[k - p])
    requires forall k :: 0 <= k < |cells| && NotDot(cells[k]) ==> p <= k < p + |w|
    ensures Accepts(Graceful(cells), w)
  {
    var o := IndexOfFirst(cells, NotDot);
    if o == -1 {
      forall i | 0 <= i < |w|
        ensures w[i] != '\n'
      {
        assert !NotDot(cells[p + i]);
        assert CellMatches(cells[p + i], w[p + i - p]);
      }
    } else {
      var t := IndexOfLast(cells, NotDot);
      assert NotDot(cells[o]) && NotDot(cells[t]);
      assert forall k :: 0 <= k < |cells| && !(o <= k <= t) ==> cells[k] == "." by {
        forall k | 0 <= k < |cells| && !(o <= k <= t)
          ensures cells[k] == "."
        {
          assert !NotDot(cells[k]);
        }
      }
      PlacementFits(cells, o, t, w, p);
      FramingFits(cells, o, t, w);
    }
  }

  /** Over one-character cells and a word as long as they are, the exact pattern is a match in place. */
  lemma ExactInPlace(cells: seq<string>, w: string)
    requires SingleChars(cells) && |w| == |cells|
    ensures Accepts(Exact(cells), w) <==> forall k :: 0 <= k < |cells| ==> CellMatches(cells[k], w[k])
  {
    CellAtoms(cells);
    var atoms := AtomsOf(Concat(cells));
    if Accepts(Exact(cells), w) {
      var at :| 0 <= at <= |w| - |atoms| && MatchesAt(atoms, w, at);
      assert at == 0;
      forall k | 0 <= k < |cells|
        ensures CellMatches(cells[k], w[k])
      {
        assert AtomMatches(atoms[k], w[k]);
      }
    }
    if forall k :: 0 <= k < |cells| ==> CellMatches(cells[k], w[k]) {
      forall k | 0 <= k < |atoms|
        ensures AtomMatches(atoms[k], w[0 + k])
      {
        assert CellMatches(cells[k], w[k]);
      }
      assert MatchesAt(atoms, w, 0);
    }
  }
}
