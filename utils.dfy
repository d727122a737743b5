/**
 * The generic helpers of the solver: filtering through a linked list, mapping,
 * building a matrix from a factory, splitting a string into one-character
 * strings, searching for the first and last index satisfying a predicate and
 * the identity index array. Each is a loop, proved against a reference
 * function or stated property.
 */
module Utils {
  import opened Seqs
  import opened Lists

  /** The items satisfying `test`, in order, collected through a list. */
  method Filter<T>(items: seq<T>, test: T -> bool) returns (filtered: seq<T>)
    ensures filtered == Filtered(items, test)
  {
    var list := new List<T>();
    assert items[..0] == [];
    for i := 0 to |items|
      invariant list.Valid() && fresh(list.Repr)
      invariant list.Contents == Filtered(items[..i], test)
    {
      assert items[..i + 1] == items[..i] + [items[i]];
      FilteredSnoc(items[..i], items[i], test);
      if test(items[i]) {
        list.Add(items[i]);
      }
    }
    assert items[..|items|] == items;
    filtered := list.ToSlice();
  }

  /** The images of the items under `transform`, position by position. */
  method Map<T, S>(items: seq<T>, transform: T -> S) returns (transformed: seq<S>)
    ensures |transformed| == |items|
    ensures forall i :: 0 <= i < |items| ==> transformed[i] == transform(items[i])
  {
    transformed := [];
    for i := 0 to |items|
      invariant |transformed| == i
      invariant forall k :: 0 <= k < i ==> transformed[k] == transform(items[k])
    {
      transformed := transformed + [transform(items[i])];
    }
  }

  /** A `rows` by `cols` matrix whose entry (i, j) is `factory(i, j)`. */
  method MakeMatrix<T>(rows: nat, cols: nat, factory: (int, int) -> T) returns (matrix: seq<seq<T>>)
    ensures |matrix| == rows
    ensures forall i :: 0 <= i < rows ==> |matrix[i]| == cols
    ensures forall i, j :: 0 <= i < rows && 0 <= j < cols ==> matrix[i][j] == factory(i, j)
  {
    matrix := [];
    for i := 0 to rows
      invariant |matrix| == i
      invariant forall a :: 0 <= a < i ==> |matrix[a]| == cols
      invariant forall a, j :: 0 <= a < i && 0 <= j < cols ==> matrix[a][j] == factory(a, j)
    {
      var row: seq<T> := [];
      for j := 0 to cols
        invariant |row| == j
        invariant forall b :: 0 <= b < j ==> row[b] == factory(i, b)
      {
        row := row + [factory(i, j)];
      }
      matrix := matrix + [row];
    }
  }

  /** The one-character strings of `str`, one per character. */
  function CharsOf(str: string): seq<string>
  {
    seq(|str|, i requires 0 <= i < |str| => [str[i]])
  }

  /** The strings of `cells` joined with no separator. */
  function Concat(cells: seq<string>): string
  {
    if cells == [] then "" else cells[0] + Concat(cells[1..])
  }

  /** Every element of `cells` is a string of exactly one character. */
  predicate SingleChars(cells: seq<string>)
  {
    forall k :: 0 <= k < |cells| ==> |cells[k]| == 1
  }

  /** Joining one-character strings gives the string of their characters. */
  lemma {:induction false} ConcatSingles(cells: seq<string>)
    requires SingleChars(cells)
    ensures |Concat(cells)| == |cells|
    ensures forall k :: 0 <= k < |cells| ==> Concat(cells)[k] == cells[k][0]
  {
    if cells != [] {
      ConcatSingles(cells[1..]);
      assert Concat(cells) == cells[0] + Concat(cells[1..]);
    }
  }

  /** Splitting a string into characters and joining them again gives it back. */
  lemma CharsRoundTrip(str: string)
    ensures |CharsOf(str)| == |str| && SingleChars(CharsOf(str))
    ensures Concat(CharsOf(str)) == str
  {
    ConcatSingles(CharsOf(str));
  }

  /** Splits a string into its characters, each as a string of length one. */
  method Chars(str: string) returns (chars: seq<string>)
    ensures chars == CharsOf(str)
  {
    chars := Map(str, (r: char) => [r]);
  }

  /** The least index whose element satisfies `p`, or -1 when there is none. */
  function IndexOfFirst<T>(arr: seq<T>, p: T -> bool): (r: int)
    ensures -1 <= r < |arr|
    ensures r == -1 <==> forall i :: 0 <= i < |arr| ==> !p(arr[i])
    ensures r >= 0 ==> p(arr[r]) && forall i :: 0 <= i < r ==> !p(arr[i])
    decreases |arr|
  {
    if arr == [] then -1
    else if p(arr[0]) then 0
    else
      var r := IndexOfFirst(arr[1..], p);
      if r == -1 then -1 else r + 1
  }

  /** The greatest index whose element satisfies `p`, or -1 when there is none. */
  function IndexOfLast<T>(arr: seq<T>, p: T -> bool): (r: int)
    ensures -1 <= r < |arr|
    ensures r == -1 <==> forall i :: 0 <= i < |arr| ==> !p(arr[i])
    ensures r >= 0 ==> p(arr[r]) && forall i :: r < i < |arr| ==> !p(arr[i])
    decreases |arr|
  {
    if arr == [] then -1
    else if p(arr[|arr| - 1]) then |arr| - 1
    else IndexOfLast(arr[..|arr| - 1], p)
  }

  /** Scans forward for the first index satisfying `test`. */
  method FirstIndex<T>(arr: seq<T>, test: T -> bool) returns (index: int)
    ensures index == IndexOfFirst(arr, test)
  {
    for i := 0 to |arr|
      invariant forall k :: 0 <= k < i ==> !test(arr[k])
    {
      if test(arr[i]) {
        IndexOfFirstIs(arr, test, i);
        return i;
      }
    }
    return -1;
  }

  /** Scans backward for the last index satisfying `test`. */
  method LastIndex<T>(arr: seq<T>, test: T -> bool) returns (index: int)
    ensures index == IndexOfLast(arr, test)
  {
    var i := |arr| - 1;
    while i >= 0
      invariant -1 <= i < |arr|
      invariant forall k :: i < k < |arr| ==> !test(arr[k])
    {
      if test(arr[i]) {
        IndexOfLastIs(arr, test, i);
        return i;
      }
      i := i - 1;
    }
    return -1;
  }

  /** The characterisation of `IndexOfFirst` determines it. */
  lemma IndexOfFirstIs<T>(arr: seq<T>, p: T -> bool, i: int)
    requires 0 <= i < |arr| && p(arr[i]) && forall k :: 0 <= k < i ==> !p(arr[k])
    ensures IndexOfFirst(arr, p) == i
  {
    var r := IndexOfFirst(arr, p);
    assert r != -1;
    assert !(r < i) && !(i < r);
  }

  /** The characterisation of `IndexOfLast` determines it. */
  lemma IndexOfLastIs<T>(arr: seq<T>, p: T -> bool, i: int)
    requires 0 <= i < |arr| && p(arr[i]) && forall k :: i < k < |arr| ==> !p(arr[k])
    ensures IndexOfLast(arr, p) == i
  {
    var r := IndexOfLast(arr, p);
    assert r != -1;
    assert !(r < i) && !(i < r);
  }

  /** The array 0, 1, ..., size - 1. */
  method IndexArray(size: nat) returns (arr: seq<int>)
    ensures |arr| == size
    ensures forall i :: 0 <= i < size ==> arr[i] == i
  {
    arr := [];
    for i := 0 to size
      invariant |arr| == i
      invariant forall k :: 0 <= k < i ==> arr[k] == k
    {
      arr := arr + [i];
    }
  }
}
