/**
 * An insertion-ordered map. Each stored key maps to a node holding its value
 * and the keys of its predecessor and successor in insertion order, and the map
 * keeps the keys of the first and last node: a doubly linked chain whose links
 * are keys rather than pointers. The ghost sequence `order` is that chain.
 */
module OrderedMaps {
  import opened Options
  import opened Seqs

  datatype ValueNode<K, V> = ValueNode(value: V, prev: Option<K>, next: Option<K>)

  datatype MapEntry<K, V> = MapEntry(key: K, value: V)

  /** The key before position `i` of `order`, if any. */
  function PrevKey<K>(order: seq<K>, i: int): Option<K>
    requires 0 <= i < |order|
  {
    if i == 0 then None else Some(order[i - 1])
  }

  /** The key after position `i` of `order`, if any. */
  function NextKey<K>(order: seq<K>, i: int): Option<K>
    requires 0 <= i < |order|
  {
    if i + 1 < |order| then Some(order[i + 1]) else None
  }

  /** The first key of `order`, if any. */
  function Head<K>(order: seq<K>): Option<K>
  {
    if order == [] then None else Some(order[0])
  }

  /** The last key of `order`, if any. */
  function Last<K>(order: seq<K>): Option<K>
  {
    if order == [] then None else Some(order[|order| - 1])
  }

  /**
   * `d` stores exactly the keys of the duplicate-free `order`, and the node of
   * each key links to its neighbours in `order`.
   */
  ghost predicate Chain<K, V>(d: map<K, ValueNode<K, V>>, order: seq<K>)
  {
    && Distinct(order)
    && d.Keys == Elems(order)
    && (forall i :: 0 <= i < |order| ==> LinkOk(d, order, i))
  }

  /** Positions `i < j` of `order` hold different keys. */
  ghost predicate Apart<K>(order: seq<K>, i: int, j: int)
  {
    0 <= i < j < |order| ==> order[i] != order[j]
  }

  /**
   * `Chain` stated position by position: no key occurs twice, `d` stores as
   * many keys as `order` has, and each position links to its neighbours.
   * Each fact is reached only through an explicit `Apart` or `LinkOk` term.
   */
  ghost predicate Sealed<K, V>(d: map<K, ValueNode<K, V>>, order: seq<K>)
  {
    && (forall i, j :: Apart(order, i, j))
    && |d.Keys| == |order|
    && (forall i :: 0 <= i < |order| ==> LinkOk(d, order, i))
  }

  /** A subset as large as its superset is all of it. */
  lemma SubsetSameSize<T>(a: set<T>, b: set<T>)
    requires a <= b && |a| == |b|
    ensures a == b
  {
    assert b == a + (b - a) && a * (b - a) == {};
  }

  /** The sealed form says exactly what `Chain` says. */
  lemma SealedChain<K, V>(d: map<K, ValueNode<K, V>>, order: seq<K>)
    ensures Sealed(d, order) <==> Chain(d, order)
  {
    if Sealed(d, order) {
      forall i, j | 0 <= i < j < |order|
        ensures order[i] != order[j]
      {
        assert Apart(order, i, j);
      }
      DistinctCard(order);
      forall x | x in Elems(order)
        ensures x in d
      {
        var i :| 0 <= i < |order| && order[i] == x;
        assert LinkOk(d, order, i);
      }
      SubsetSameSize(Elems(order), d.Keys);
    }
    if Chain(d, order) {
      DistinctCard(order);
    }
  }

  /** The node of the `i`-th key links to its neighbours in `order`. */
  ghost predicate LinkOk<K, V>(d: map<K, ValueNode<K, V>>, order: seq<K>, i: int)
    requires 0 <= i < |order|
  {
    order[i] in d && d[order[i]].prev == PrevKey(order, i) && d[order[i]].next == NextKey(order, i)
  }

  /** The links of the `i`-th key of a chain. */
  lemma LinksAt<K, V>(d: map<K, ValueNode<K, V>>, order: seq<K>, i: int)
    requires Chain(d, order) && 0 <= i < |order|
    ensures order[i] in d
    ensures d[order[i]].prev == PrevKey(order, i) && d[order[i]].next == NextKey(order, i)
  {
    assert LinkOk(d, order, i);
  }

  /** The values stored at the first `n` keys of a chain, in its order. */
  ghost function ValuesUpTo<K, V>(d: map<K, ValueNode<K, V>>, order: seq<K>, n: nat): (r: seq<V>)
    requires Chain(d, order) && n <= |order|
    ensures |r| == n
    ensures forall i {:trigger r[i]} :: 0 <= i < n ==> order[i] in d && r[i] == d[order[i]].value
  {
    if n == 0 then []
    else
      LinksAt(d, order, n - 1);
      ValuesUpTo(d, order, n - 1) + [d[order[n - 1]].value]
  }

  /** The key-value pairs at the first `n` keys of a chain, in its order. */
  ghost function EntriesUpTo<K, V>(d: map<K, ValueNode<K, V>>, order: seq<K>, n: nat): (r: seq<MapEntry<K, V>>)
    requires Chain(d, order) && n <= |order|
    ensures |r| == n
    ensures forall i {:trigger r[i]} :: 0 <= i < n ==>
              order[i] in d && r[i] == MapEntry(order[i], d[order[i]].value)
  {
    if n == 0 then []
    else
      LinksAt(d, order, n - 1);
      EntriesUpTo(d, order, n - 1) + [MapEntry(order[n - 1], d[order[n - 1]].value)]
  }

  /** The results of calling `fn` on the pairs at the first `n` keys of a chain. */
  ghost function CallsUpTo<K, V, R>(d: map<K, ValueNode<K, V>>, order: seq<K>, fn: (K, V) -> R, n: nat): (r: seq<R>)
    requires Chain(d, order) && n <= |order|
    ensures |r| == n
    ensures forall i {:trigger r[i]} :: 0 <= i < n ==>
              order[i] in d && r[i] == fn(order[i], d[order[i]].value)
  {
    if n == 0 then []
    else
      LinksAt(d, order, n - 1);
      CallsUpTo(d, order, fn, n - 1) + [fn(order[n - 1], d[order[n - 1]].value)]
  }

  /** Replacing the value of a stored key leaves the chain intact. */
  lemma ChainReplace<K, V>(d: map<K, ValueNode<K, V>>, order: seq<K>, key: K, value: V)
    requires Chain(d, order) && key in d
    ensures Chain(d[key := ValueNode(value, d[key].prev, d[key].next)], order)
    ensures Sealed(d[key := ValueNode(value, d[key].prev, d[key].next)], order)
  {
    ChainReplaceLinks(d, order, key, value);
    SealedChain(d[key := ValueNode(value, d[key].prev, d[key].next)], order);
  }

  lemma ChainReplaceLinks<K, V>(d: map<K, ValueNode<K, V>>, order: seq<K>, key: K, value: V)
    requires Chain(d, order) && key in d
    ensures Chain(d[key := ValueNode(value, d[key].prev, d[key].next)], order)
  {
    var d' := d[key := ValueNode(value, d[key].prev, d[key].next)];
    forall i | 0 <= i < |order|
      ensures LinkOk(d', order, i)
    {
      LinksAt(d, order, i);
    }
  }

  /** The map after appending a new key: its node, and the old last node pointing to it. */
  function Appended<K, V>(d: map<K, ValueNode<K, V>>, order: seq<K>, key: K, value: V): map<K, ValueNode<K, V>>
    requires d.Keys == Elems(order)
  {
    var d1 := d[key := ValueNode(value, Last(order), None)];
    if order == [] then d1
    else
      var l := order[|order| - 1];
      assert l in Elems(order);
      d1[l := ValueNode(d[l].value, d[l].prev, Some(key))]
  }

  /** Appending a new key extends the chain by that key. */
  lemma ChainAppend<K, V>(d: map<K, ValueNode<K, V>>, order: seq<K>, key: K, value: V)
    requires Chain(d, order) && key !in d
    ensures Chain(Appended(d, order, key, value), order + [key])
    ensures Sealed(Appended(d, order, key, value), order + [key])
  {
    ChainAppendLinks(d, order, key, value);
    SealedChain(Appended(d, order, key, value), order + [key]);
  }

  lemma ChainAppendLinks<K, V>(d: map<K, ValueNode<K, V>>, order: seq<K>, key: K, value: V)
    requires Chain(d, order) && key !in d
    ensures Chain(Appended(d, order, key, value), order + [key])
  {
    var d' := Appended(d, order, key, value);
    var o := order + [key];
    assert key !in order by { assert key !in Elems(order); }
    DistinctSnoc(order, key);
    assert d'.Keys == Elems(o);
    forall i | 0 <= i < |o|
      ensures LinkOk(d', o, i)
    {
      if i < |order| {
        LinksAt(d, order, i);
        assert o[i] == order[i] != key;
        if i + 1 < |order| {
          assert order[i] != order[|order| - 1];
        }
      }
    }
  }

  /**
   * The map after unlinking `key`: its neighbours point to each other and every
   * other node is unchanged.
   */
  function Removed<K, V>(d: map<K, ValueNode<K, V>>, key: K): map<K, ValueNode<K, V>>
    requires key in d
  {
    var node := d[key];
    map k | k in d.Keys - {key} ::
      ValueNode(d[k].value,
                if Some(k) == node.next then node.prev else d[k].prev,
                if Some(k) == node.prev then node.next else d[k].next)
  }

  /** The key-value mapping a node map represents. */
  ghost function ModelOf<K, V>(d: map<K, ValueNode<K, V>>): map<K, V>
  {
    map k | k in d :: d[k].value
  }

  lemma ModelOfUpdate<K, V>(d: map<K, ValueNode<K, V>>, key: K, node: ValueNode<K, V>)
    ensures ModelOf(d[key := node]) == ModelOf(d)[key := node.value]
  {
  }

  lemma ModelOfAppended<K, V>(d: map<K, ValueNode<K, V>>, order: seq<K>, key: K, value: V)
    requires d.Keys == Elems(order) && key !in d
    ensures ModelOf(Appended(d, order, key, value)) == ModelOf(d)[key := value]
  {
    var d1 := d[key := ValueNode(value, Last(order), None)];
    ModelOfUpdate(d, key, ValueNode(value, Last(order), None));
    if order != [] {
      var l := order[|order| - 1];
      assert l in Elems(order);
      ModelOfUpdate(d1, l, ValueNode(d[l].value, d[l].prev, Some(key)));
      assert ModelOf(d1)[l := d[l].value] == ModelOf(d1);
    }
  }

  /** The ends of `order` after appending `key`. */
  lemma AppendedEnds<K>(order: seq<K>, key: K)
    ensures Head(order + [key]) == if order == [] then Some(key) else Head(order)
    ensures Last(order + [key]) == Some(key)
  {
  }

  lemma ModelOfRemoved<K, V>(d: map<K, ValueNode<K, V>>, key: K)
    requires key in d
    ensures ModelOf(Removed(d, key)) == ModelOf(d) - {key}
  {
  }

  /** The unlinking steps of `Delete`, in the order it performs them, give `Removed`. */
  lemma UnlinkSteps<K, V>(d: map<K, ValueNode<K, V>>, key: K)
    requires key in d
    requires d[key].prev.Some? ==> d[key].prev.value in d && d[key].prev.value != key
    requires d[key].next.Some? ==> d[key].next.value in d && d[key].next.value != key
    ensures
      var node := d[key];
      var d1 := d - {key};
      var d2 := if node.prev.Some? then
                  d1[node.prev.value := ValueNode(d1[node.prev.value].value, d1[node.prev.value].prev, node.next)]
                else d1;
      var d3 := if node.next.Some? then
                  d2[node.next.value := ValueNode(d2[node.next.value].value, node.prev, d2[node.next.value].next)]
                else d2;
      d3 == Removed(d, key)
  {
  }

  /** Unlinking the key at position `idx` removes exactly that position from the chain. */
  lemma ChainRemove<K, V>(d: map<K, ValueNode<K, V>>, order: seq<K>, idx: int)
    requires Chain(d, order) && 0 <= idx < |order|
    ensures Chain(Removed(d, order[idx]), order[..idx] + order[idx + 1..])
    ensures Sealed(Removed(d, order[idx]), order[..idx] + order[idx + 1..])
  {
    ChainRemoveLinks(d, order, idx);
    SealedChain(Removed(d, order[idx]), order[..idx] + order[idx + 1..]);
  }

  lemma ChainRemoveLinks<K, V>(d: map<K, ValueNode<K, V>>, order: seq<K>, idx: int)
    requires Chain(d, order) && 0 <= idx < |order|
    ensures Chain(Removed(d, order[idx]), order[..idx] + order[idx + 1..])
  {
    var key := order[idx];
    LinksAt(d, order, idx);
    var d' := Removed(d, key);
    var o := order[..idx] + order[idx + 1..];
    DeleteAt(order, idx);
    assert d'.Keys == Elems(o);
    forall i | 0 <= i < |o|
      ensures LinkOk(d', o, i)
    {
      var j := if i < idx then i else i + 1;
      assert o[i] == order[j];
      LinksAt(d, order, j);
      RemovedLinks(order, idx, i);
    }
  }

  /** The ends of `order` without position `idx`. */
  lemma RemovedEnds<K>(order: seq<K>, idx: int)
    requires 0 <= idx < |order|
    ensures Head(order[..idx] + order[idx + 1..]) == if idx == 0 then NextKey(order, idx) else Head(order)
    ensures Last(order[..idx] + order[idx + 1..]) == if idx == |order| - 1 then PrevKey(order, idx) else Last(order)
  {
    var o := order[..idx] + order[idx + 1..];
    if idx == 0 && |o| > 0 { assert o[0] == order[1]; }
    if idx == |order| - 1 && |o| > 0 { assert o[|o| - 1] == order[idx - 1]; }
  }

  /** Position `i` of `order` without position `idx`, with its neighbours. */
  lemma RemovedLinks<K>(order: seq<K>, idx: int, i: int)
    requires Distinct(order) && 0 <= idx < |order|
    requires 0 <= i < |order| - 1
    ensures var o := order[..idx] + order[idx + 1..];
            var j := if i < idx then i else i + 1;
            && o[i] == order[j]
            && PrevKey(o, i) == (if Some(order[j]) == NextKey(order, idx) then PrevKey(order, idx) else PrevKey(order, j))
            && NextKey(o, i) == (if Some(order[j]) == PrevKey(order, idx) then NextKey(order, idx) else NextKey(order, j))
  {
    var o := order[..idx] + order[idx + 1..];
    var j := if i < idx then i else i + 1;
    assert o[i] == order[j];
    if i > 0 {
      assert o[i - 1] == if i - 1 < idx then order[i - 1] else order[i];
    }
    if i + 1 < |o| {
      assert o[i + 1] == if i + 1 < idx then order[i + 1] else order[i + 2];
    }
  }

  /**
   * What `Delete` relies on when it unlinks a stored key: the key's position
   * and links, and that the unlinked map is again a sealed chain, without the
   * key, through the remaining keys.
   */
  lemma RemoveStep<K, V>(d: map<K, ValueNode<K, V>>, order: seq<K>, key: K) returns (idx: int)
    requires Sealed(d, order) && key in d
    ensures 0 <= idx < |order| && order[idx] == key
    ensures d[key].prev == PrevKey(order, idx) && d[key].next == NextKey(order, idx)
    ensures d[key].prev.Some? ==> d[key].prev.value in d && d[key].prev.value != key
    ensures d[key].next.Some? ==> d[key].next.value in d && d[key].next.value != key
    ensures Sealed(Removed(d, key), order[..idx] + order[idx + 1..])
    ensures order[..idx] + order[idx + 1..] == Without(order, key)
  {
    SealedChain(d, order);
    assert key in Elems(order);
    idx :| 0 <= idx < |order| && order[idx] == key;
    LinksAt(d, order, idx);
    ChainRemove(d, order, idx);
    WithoutAt(order, idx);
    if idx > 0 { assert order[idx - 1] in Elems(order); }
    if idx + 1 < |order| { assert order[idx + 1] in Elems(order); }
  }

  /** A key the map does not store is not on the chain. */
  lemma AbsentStep<K, V>(d: map<K, ValueNode<K, V>>, order: seq<K>, key: K)
    requires Sealed(d, order) && key !in d
    ensures Without(order, key) == order
  {
    SealedChain(d, order);
    assert key !in Elems(order);
    WithoutAbsent(order, key);
  }

  /**
   * The unlinking steps of `Delete` on a node map: drops the node of `key`,
   * links its neighbours to each other and moves an end of the chain that
   * was `key` to its neighbour.
   */
  method Unlink<K, V>(data: map<K, ValueNode<K, V>>, key: K, first: Option<K>, last: Option<K>)
    returns (d: map<K, ValueNode<K, V>>, newFirst: Option<K>, newLast: Option<K>)
    requires key in data
    requires data[key].prev.Some? ==> data[key].prev.value in data && data[key].prev.value != key
    requires data[key].next.Some? ==> data[key].next.value in data && data[key].next.value != key
    ensures d == Removed(data, key)
    ensures newFirst == if data[key].prev.None? then data[key].next else first
    ensures newLast == if data[key].next.None? then data[key].prev else last
  {
    UnlinkSteps(data, key);
    var node := data[key];
    d := data - {key};
    var prev, next := node.prev, node.next;
    newFirst, newLast := first, last;
    if prev.Some? {
      var prevNode := d[prev.value];
      d := d[prev.value := ValueNode(prevNode.value, prevNode.prev, next)];
    } else {
      newFirst := node.next;
    }
    if next.Some? {
      var nextNode := d[next.value];
      d := d[next.value := ValueNode(nextNode.value, prev, nextNode.next)];
    } else {
      newLast := node.prev;
    }
  }

  class OrderedMap<K(==), V> {
    var data: map<K, ValueNode<K, V>>
    var first: Option<K>
    var last: Option<K>
    /** What `Get` returns for an absent key (Go's zero value of V). */
    const zero: V

    ghost var order: seq<K>

    /**
     * `first`, `last` and the prev/next links form one doubly linked chain
     * through exactly the stored keys, each key once.
     */
    ghost predicate Valid()
      reads this
    {
      Sealed(data, order) && first == Head(order) && last == Last(order)
    }

    /** A valid map is a chain. */
    lemma Unseal()
      requires Valid()
      ensures Chain(data, order)
    {
      SealedChain(data, order);
    }

    /** The key-value mapping the ordered map represents. */
    ghost function Model(): map<K, V>
      reads this
    {
      ModelOf(data)
    }

    constructor (cap: nat, zero: V)
      ensures Valid() && this.zero == zero
      ensures order == [] && Model() == map[]
    {
      data := map[];
      first, last := None, None;
      this.zero := zero;
      order := [];
      new;
      SealedChain(data, order);
    }

    /** The value stored at the `i`-th key of the chain. */
    lemma ModelAt(i: int)
      requires Valid() && 0 <= i < |order|
      ensures order[i] in data && order[i] in Model()
      ensures Model()[order[i]] == data[order[i]].value
    {
      Unseal();
      LinksAt(data, order, i);
    }

    /** The keys of the model are exactly the keys of the chain. */
    lemma ModelKeys()
      requires Valid()
      ensures Model().Keys == Elems(order)
    {
      Unseal();
    }

    /** The number of stored keys. */
    function Size(): (n: nat)
      requires Valid()
      reads this
      ensures n == |order| == |Model()|
    {
      SizeIsOrderLength();
      |data|
    }

    lemma SizeIsOrderLength()
      requires Valid()
      ensures |data| == |order| == |Model()|
    {
      Unseal();
      assert Model().Keys == data.Keys;
      DistinctCard(order);
    }

    /** The stored value, or `zero` when the key is absent. */
    method Get(key: K) returns (value: V)
      requires Valid()
      ensures key in Model() ==> value == Model()[key]
      ensures key !in Model() ==> value == zero
    {
      Unseal();
      if key in data {
        value := data[key].value;
      } else {
        value := zero;
      }
    }

    method Has(key: K) returns (b: bool)
      requires Valid()
      ensures b <==> key in Model()
      ensures b <==> key in order
    {
      Unseal();
      b := key in data;
      assert key in data <==> key in Elems(order);
    }

    /**
     * On a stored key, replaces only its value; on a new key, appends it at the
     * end of the chain, updating `last` and, on an empty map, `first`.
     */
    method Set(key: K, value: V)
      requires Valid()
      modifies this
      ensures Valid()
      ensures Model() == old(Model())[key := value]
      ensures order == if key in old(order) then old(order) else old(order) + [key]
    {
      Unseal();
      if key in data {
        var node := data[key];
        ChainReplace(data, order, key, value);
        ModelOfUpdate(data, key, ValueNode(value, node.prev, node.next));
        assert key in order by { assert key in Elems(order); }
        data := data[key := ValueNode(value, node.prev, node.next)];
        return;
      }
      ghost var was, oldData := order, data;
      assert key !in was by { assert key !in Elems(was); }
      ChainAppend(data, order, key, value);
      ModelOfAppended(data, order, key, value);
      AppendedEnds(order, key);

      var node := ValueNode(value, last, None);
      data := data[key := node];
      if last.Some? {
        var lastNode := data[last.value];
        data := data[last.value := ValueNode(lastNode.value, lastNode.prev, Some(key))];
      }
      last := Some(key);
      if first.None? {
        first := Some(key);
      }
      order := order + [key];
      assert data == Appended(oldData, was, key, value);
    }

    /**
     * Removes a stored key, linking its neighbours to each other and moving
     * `first` or `last` when it was an end of the chain; an absent key is a
     * no-op.
     */
    method Delete(key: K)
      requires Valid()
      modifies this
      ensures Valid()
      ensures Model() == old(Model()) - {key}
      ensures order == Without(old(order), key)
    {
      if key !in data {
        AbsentStep(data, order, key);
        return;
      }
      ghost var was := order;
      ghost var idx := RemoveStep(data, order, key);
      ModelOfRemoved(data, key);
      RemovedEnds(order, idx);

      data, first, last := Unlink(data, key, first, last);
      order := was[..idx] + was[idx + 1..];
    }

    /** The stored keys, each once, in insertion order. */
    method Keys() returns (keys: seq<K>)
      requires Valid()
      ensures keys == order
    {
      Unseal();
      keys := [];
      var k := first;
      var i := 0;
      while k.Some?
        invariant 0 <= i <= |order|
        invariant keys == order[..i]
        invariant k == if i < |order| then Some(order[i]) else None
        decreases |order| - i
      {
        LinksAt(data, order, i);
        var node := data[k.value];
        keys := keys + [k.value];
        k := node.next;
        i := i + 1;
      }
    }

    /** The stored values, in the insertion order of their keys. */
    method Values() returns (values: seq<V>)
      requires Valid()
      ensures |values| == |order|
      ensures forall i :: 0 <= i < |order| ==> order[i] in Model() && values[i] == Model()[order[i]]
    {
      Unseal();
      values := [];
      var k := first;
      var i := 0;
      while k.Some?
        invariant 0 <= i <= |order|
        invariant values == ValuesUpTo(data, order, i)
        invariant k == if i < |order| then Some(order[i]) else None
        decreases |order| - i
      {
        LinksAt(data, order, i);
        var node := data[k.value];
        values := values + [node.value];
        k := node.next;
        i := i + 1;
      }
    }

    /** The stored key-value pairs, in insertion order. */
    method Entries() returns (entries: seq<MapEntry<K, V>>)
      requires Valid()
      ensures |entries| == |order|
      ensures forall i :: 0 <= i < |order| ==>
                entries[i].key == order[i] && order[i] in Model() && entries[i].value == Model()[order[i]]
    {
      Unseal();
      entries := [];
      var k := first;
      var i := 0;
      while k.Some?
        invariant 0 <= i <= |order|
        invariant entries == EntriesUpTo(data, order, i)
        invariant k == if i < |order| then Some(order[i]) else None
        decreases |order| - i
      {
        LinksAt(data, order, i);
        var node := data[k.value];
        entries := entries + [MapEntry(k.value, node.value)];
        k := node.next;
        i := i + 1;
      }
      forall i | 0 <= i < |order|
        ensures entries[i].key == order[i] && order[i] in Model() && entries[i].value == Model()[order[i]]
      {
        ModelAt(i);
      }
    }

    /**
     * Calls `fn` on every entry in insertion order. The callback is a pure
     * function here, so the calls are recorded as the sequence of its results.
     */
    method IterateEntries<R>(fn: (K, V) -> R) returns (calls: seq<R>)
      requires Valid()
      ensures |calls| == |order|
      ensures forall i :: 0 <= i < |order| ==>
                order[i] in Model() && calls[i] == fn(order[i], Model()[order[i]])
    {
      Unseal();
      calls := [];
      var k := first;
      var i := 0;
      while k.Some?
        invariant 0 <= i <= |order|
        invariant calls == CallsUpTo(data, order, fn, i)
        invariant k == if i < |order| then Some(order[i]) else None
        decreases |order| - i
      {
        LinksAt(data, order, i);
        var node := data[k.value];
        calls := calls + [fn(k.value, node.value)];
        k := node.next;
        i := i + 1;
      }
    }
  }
}
