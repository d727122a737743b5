/**
 * Sequence vocabulary shared by the whole model: order-preserving filtering,
 * duplicate-free sequences, first-occurrence de-duplication and a sort by a
 * numeric key. These are the reference definitions the imperative code of the
 * container library and of the solver is proved against.
 */
module Seqs {

  /** The elements of `s`, in order, that satisfy `p`. */
  function Filtered<T>(s: seq<T>, p: T -> bool): seq<T>
  {
    if s == [] then []
    else if p(s[0]) then [s[0]] + Filtered(s[1..], p)
    else Filtered(s[1..], p)
  }

  lemma {:induction false} FilteredAppend<T>(a: seq<T>, b: seq<T>, p: T -> bool)
    ensures Filtered(a + b, p) == Filtered(a, p) + Filtered(b, p)
  {
    if a == [] {
      assert a + b == b;
    } else {
      assert (a + b)[1..] == a[1..] + b;
      FilteredAppend(a[1..], b, p);
    }
  }

  /** Filtering is appending one element at a time: the shape of a filtering loop. */
  lemma FilteredSnoc<T>(s: seq<T>, x: T, p: T -> bool)
    ensures Filtered(s + [x], p) == Filtered(s, p) + (if p(x) then [x] else [])
  {
    FilteredAppend(s, [x], p);
    assert Filtered([x], p) == (if p(x) then [x] else []) by {
      assert [x][1..] == [];
    }
  }

  /** An element survives the filter exactly when it is in `s` and satisfies `p`. */
  lemma {:induction false} FilteredMember<T>(s: seq<T>, p: T -> bool, x: T)
    ensures x in Filtered(s, p) <==> x in s && p(x)
  {
    if s != [] {
      FilteredMember(s[1..], p, x);
      assert x in s <==> x == s[0] || x in s[1..];
    }
  }

  lemma {:induction false} FilteredLength<T>(s: seq<T>, p: T -> bool)
    ensures |Filtered(s, p)| <= |s|
  {
    if s != [] {
      FilteredLength(s[1..], p);
    }
  }

  /** Filtering out an element that occurs makes the sequence strictly shorter. */
  lemma {:induction false} FilteredShorter<T>(s: seq<T>, p: T -> bool, x: T)
    requires x in s && !p(x)
    ensures |Filtered(s, p)| < |s|
  {
    if s[0] == x {
      FilteredLength(s[1..], p);
    } else {
      FilteredShorter(s[1..], p, x);
    }
  }

  /** Filtering with a predicate that holds on every element keeps everything. */
  lemma {:induction false} FilteredAll<T>(s: seq<T>, p: T -> bool)
    requires forall i :: 0 <= i < |s| ==> p(s[i])
    ensures Filtered(s, p) == s
  {
    if s != [] {
      FilteredAll(s[1..], p);
    }
  }

  /** Filtering keeps a duplicate-free sequence duplicate-free. */
  lemma {:induction false} FilteredDistinct<T>(s: seq<T>, p: T -> bool)
    requires Distinct(s)
    ensures Distinct(Filtered(s, p))
  {
    if s != [] {
      FilteredDistinct(s[1..], p);
      FilteredMember(s[1..], p, s[0]);
      DistinctCons(s[0], Filtered(s[1..], p));
    }
  }

  /** Filtering twice is filtering once with the conjunction. */
  lemma {:induction false} FilteredTwice<T>(s: seq<T>, p: T -> bool, q: T -> bool)
    ensures Filtered(Filtered(s, p), q) == Filtered(s, x => p(x) && q(x))
  {
    if s != [] {
      FilteredTwice(s[1..], p, q);
      if p(s[0]) {
        assert ([s[0]] + Filtered(s[1..], p))[1..] == Filtered(s[1..], p);
      }
    }
  }

  /** No element occurs twice. */
  predicate Distinct<T(==)>(s: seq<T>)
  {
    forall i, j :: 0 <= i < j < |s| ==> s[i] != s[j]
  }

  lemma DistinctCons<T>(x: T, s: seq<T>)
    requires Distinct(s) && x !in s
    ensures Distinct([x] + s)
  {
    var t := [x] + s;
    forall i, j | 0 <= i < j < |t| ensures t[i] != t[j] {
      if i == 0 {
        assert t[j] == s[j - 1];
      } else {
        assert t[i] == s[i - 1] && t[j] == s[j - 1];
      }
    }
  }

  lemma DistinctSnoc<T>(s: seq<T>, x: T)
    requires Distinct(s) && x !in s
    ensures Distinct(s + [x])
  {
    var t := s + [x];
    forall i, j | 0 <= i < j < |t| ensures t[i] != t[j] {
      if j == |s| {
        assert t[i] == s[i];
      } else {
        assert t[i] == s[i] && t[j] == s[j];
      }
    }
  }

  /** The set of the elements of `s`. */
  function Elems<T>(s: seq<T>): set<T>
  {
    set x | x in s
  }

  lemma ElemsSnoc<T>(s: seq<T>, x: T)
    ensures Elems(s + [x]) == Elems(s) + {x}
  {
  }

  /** Extending a prefix by one element adds that element. */
  lemma ElemsPrefix<T>(s: seq<T>, i: nat)
    requires i < |s|
    ensures Elems(s[..i + 1]) == Elems(s[..i]) + {s[i]}
    ensures Elems(s[..|s|]) == Elems(s)
  {
    assert s[..i + 1] == s[..i] + [s[i]];
    assert s[..|s|] == s;
  }

  /** A duplicate-free sequence has as many elements as its element set. */
  lemma {:induction false} DistinctCard<T>(s: seq<T>)
    requires Distinct(s)
    ensures |Elems(s)| == |s|
  {
    if s != [] {
      var t := s[1..];
      assert Distinct(t);
      DistinctCard(t);
      assert Elems(s) == Elems(t) + {s[0]};
      assert s[0] !in Elems(t);
    }
  }

  /** The elements of `s` at their first occurrence, in order. */
  function Dedup<T(==)>(s: seq<T>): seq<T>
    decreases |s|
  {
    if s == [] then []
    else
      var d := Dedup(s[..|s| - 1]);
      if s[|s| - 1] in d then d else d + [s[|s| - 1]]
  }

  lemma {:induction false} DedupProperties<T>(s: seq<T>)
    ensures Distinct(Dedup(s))
    ensures forall x :: x in Dedup(s) <==> x in s
    decreases |s|
  {
    if s != [] {
      var init, last := s[..|s| - 1], s[|s| - 1];
      DedupProperties(init);
      assert s == init + [last];
      if last !in Dedup(init) {
        DistinctSnoc(Dedup(init), last);
      }
    }
  }

  /** De-duplicating `s + [x]` appends `x` unless it was already there. */
  lemma DedupSnoc<T>(s: seq<T>, x: T)
    ensures Dedup(s + [x]) == if x in Dedup(s) then Dedup(s) else Dedup(s) + [x]
  {
    assert (s + [x])[..|s + [x]| - 1] == s;
  }

  /** De-duplicating `start` followed by one more key of `keys`: the shape of a loop adding keys. */
  lemma DedupStep<T>(start: seq<T>, keys: seq<T>, i: nat)
    requires i < |keys|
    ensures var d := Dedup(start + keys[..i]);
      Dedup(start + keys[..i + 1]) == if keys[i] in d then d else d + [keys[i]]
  {
    assert start + keys[..i + 1] == (start + keys[..i]) + [keys[i]];
    DedupSnoc(start + keys[..i], keys[i]);
  }

  /** A duplicate-free sequence is its own de-duplication. */
  lemma {:induction false} DedupDistinct<T>(s: seq<T>)
    requires Distinct(s)
    ensures Dedup(s) == s
    decreases |s|
  {
    if s != [] {
      var init := s[..|s| - 1];
      assert Distinct(init);
      DedupDistinct(init);
      assert s[|s| - 1] !in init;
      assert s == init + [s[|s| - 1]];
    }
  }

  /** `s` with every occurrence of `x` taken out. */
  function Without<T(==)>(s: seq<T>, x: T): seq<T>
  {
    Filtered(s, y => y != x)
  }

  /** An element survives removal exactly when it is in `s` and differs from `y`. */
  lemma WithoutMember<T>(s: seq<T>, y: T, x: T)
    ensures x in Without(s, y) <==> x in s && x != y
  {
    FilteredMember(s, z => z != y, x);
  }

  /** Removing the element at its only position in a duplicate-free sequence. */
  lemma WithoutAt<T>(s: seq<T>, i: nat)
    requires Distinct(s) && i < |s|
    ensures Without(s, s[i]) == s[..i] + s[i + 1..]
  {
    var p := (y: T) => y != s[i];
    var before, after := s[..i], s[i + 1..];
    assert s == before + [s[i]] + after;
    FilteredAppend(before + [s[i]], after, p);
    FilteredSnoc(before, s[i], p);
    forall k | 0 <= k < |before| ensures p(before[k]) {
      assert before[k] == s[k];
    }
    forall k | 0 <= k < |after| ensures p(after[k]) {
      assert after[k] == s[i + 1 + k];
    }
    FilteredAll(before, p);
    FilteredAll(after, p);
  }

  /** Deleting one position of a duplicate-free sequence deletes exactly its element. */
  lemma DeleteAt<T>(s: seq<T>, i: int)
    requires Distinct(s) && 0 <= i < |s|
    ensures Distinct(s[..i] + s[i + 1..])
    ensures Elems(s[..i] + s[i + 1..]) == Elems(s) - {s[i]}
  {
    var o := s[..i] + s[i + 1..];
    forall a, b | 0 <= a < b < |o| ensures o[a] != o[b] {
      var a' := if a < i then a else a + 1;
      var b' := if b < i then b else b + 1;
      assert o[a] == s[a'] && o[b] == s[b'];
    }
    forall x ensures x in Elems(o) <==> x in Elems(s) && x != s[i] {
      if x in o {
        var a :| 0 <= a < |o| && o[a] == x;
        var a' := if a < i then a else a + 1;
        assert s[a'] == x;
      }
      if x in s && x != s[i] {
        var a :| 0 <= a < |s| && s[a] == x;
        if a < i { assert o[a] == x; } else { assert o[a - 1] == x; }
      }
    }
  }

  /**
   * One step of filtering a duplicate-free sequence in place: the elements of
   * `keys` before `i` are already filtered, and the next is removed unless it
   * satisfies `p`.
   */
  lemma FilterStep<T>(keys: seq<T>, i: int, p: T -> bool, cur: seq<T>)
    requires 0 <= i < |keys| && Distinct(cur)
    requires cur == Filtered(keys[..i], p) + keys[i..]
    ensures (if p(keys[i]) then cur else Without(cur, keys[i])) == Filtered(keys[..i + 1], p) + keys[i + 1..]
  {
    FilteredSnoc(keys[..i], keys[i], p);
    assert keys[..i + 1] == keys[..i] + [keys[i]];
    assert keys[i..] == [keys[i]] + keys[i + 1..];
    if !p(keys[i]) {
      var kept := Filtered(keys[..i], p);
      assert cur[|kept|] == keys[i];
      WithoutAt(cur, |kept|);
      assert cur[..|kept|] == kept && cur[|kept| + 1..] == keys[i + 1..];
    }
  }

  /** Removing an element that does not occur changes nothing. */
  lemma WithoutAbsent<T>(s: seq<T>, x: T)
    requires x !in s
    ensures Without(s, x) == s
  {
    FilteredAll(s, y => y != x);
  }

  /** Every element of `s` has key at most that of its successor. */
  predicate SortedBy<T>(s: seq<T>, key: T -> int)
  {
    forall i, j :: 0 <= i < j < |s| ==> key(s[i]) <= key(s[j])
  }

  /** Insert `x` before the first element of larger key. */
  function InsertBy<T>(x: T, s: seq<T>, key: T -> int): seq<T>
  {
    if s == [] then [x]
    else if key(x) <= key(s[0]) then [x] + s
    else [s[0]] + InsertBy(x, s[1..], key)
  }

  /** A sort by `key` into ascending order (insertion sort). */
  function SortBy<T>(s: seq<T>, key: T -> int): seq<T>
  {
    if s == [] then [] else InsertBy(s[0], SortBy(s[1..], key), key)
  }

  lemma {:induction false} InsertByPermutes<T>(x: T, s: seq<T>, key: T -> int)
    ensures multiset(InsertBy(x, s, key)) == multiset(s) + multiset{x}
  {
    if s != [] {
      assert s == [s[0]] + s[1..];
      if key(x) > key(s[0]) {
        InsertByPermutes(x, s[1..], key);
      }
    }
  }

  /** A lower bound on the keys of `x` and of `s` bounds the keys after inserting. */
  lemma {:induction false} InsertByBounded<T>(x: T, s: seq<T>, key: T -> int, b: int)
    requires b <= key(x)
    requires forall i :: 0 <= i < |s| ==> b <= key(s[i])
    ensures forall i :: 0 <= i < |InsertBy(x, s, key)| ==> b <= key(InsertBy(x, s, key)[i])
  {
    if s != [] && key(x) > key(s[0]) {
      InsertByBounded(x, s[1..], key, b);
    }
  }

  lemma {:induction false} InsertBySorted<T>(x: T, s: seq<T>, key: T -> int)
    requires SortedBy(s, key)
    ensures SortedBy(InsertBy(x, s, key), key)
  {
    if s != [] && key(x) > key(s[0]) {
      InsertBySorted(x, s[1..], key);
      InsertByBounded(x, s[1..], key, key(s[0]));
      var r := InsertBy(x, s[1..], key);
      var t := [s[0]] + r;
      forall i, j | 0 <= i < j < |t| ensures key(t[i]) <= key(t[j]) {
        assert t[j] == r[j - 1];
        if i > 0 { assert t[i] == r[i - 1]; }
      }
    } else if s != [] {
      var t := [x] + s;
      forall i, j | 0 <= i < j < |t| ensures key(t[i]) <= key(t[j]) {
        assert t[j] == s[j - 1];
        if i > 0 { assert t[i] == s[i - 1]; }
      }
    }
  }

  /** SortBy yields an ascending permutation of its input. */
  lemma {:induction false} SortByProperties<T>(s: seq<T>, key: T -> int)
    ensures SortedBy(SortBy(s, key), key)
    ensures multiset(SortBy(s, key)) == multiset(s)
  {
    if s != [] {
      SortByProperties(s[1..], key);
      InsertBySorted(s[0], SortBy(s[1..], key), key);
      InsertByPermutes(s[0], SortBy(s[1..], key), key);
      assert s == [s[0]] + s[1..];
    }
  }

  /** A sorted copy has the length and the elements of its input. */
  lemma SortByElements<T>(s: seq<T>, key: T -> int)
    ensures |SortBy(s, key)| == |s|
    ensures forall x :: x in SortBy(s, key) <==> x in s
  {
    SortByProperties(s, key);
    var r := SortBy(s, key);
    assert |r| == |multiset(r)|;
    forall x
      ensures x in r <==> x in s
    {
      assert x in r <==> x in multiset(r);
      assert x in s <==> x in multiset(s);
    }
  }
}
