/**
 * An insertion-ordered set: an ordered map from elements to `true`. Several
 * set values may share one `members` map (Go copies the handle, not
 * the map), so the methods here change `members` and nothing else.
 */
module Sets {
  import opened Seqs
  import opened OrderedMaps
  import opened Lists

  class Set<T(==)> {
    const members: OrderedMap<T, bool>

    ghost predicate Valid()
      reads members
    {
      members.Valid()
    }

    /** The elements, each once, in insertion order. */
    ghost function Elements(): seq<T>
      reads members
    {
      members.order
    }

    /** The elements as a mathematical set. */
    ghost function ElemSet(): set<T>
      reads members
    {
      Elems(members.order)
    }

    /** No element occurs twice. */
    lemma ElementsDistinct()
      requires Valid()
      ensures Distinct(Elements())
    {
      members.Unseal();
    }

    /** An empty set; `cap` is only a capacity hint. */
    constructor (cap: nat)
      ensures Valid() && fresh(members)
      ensures Elements() == []
    {
      members := new OrderedMap(cap, false);
    }

    function Size(): (n: nat)
      requires Valid()
      reads members
      ensures n == |Elements()|
    {
      members.Size()
    }

    /** Adds an element at the end unless it is already present; returns this set. */
    method Add(element: T) returns (self: Set<T>)
      requires Valid()
      modifies members
      ensures Valid() && self == this
      ensures Elements() == if element in old(Elements()) then old(Elements()) else old(Elements()) + [element]
    {
      members.Set(element, true);
      self := this;
    }

    /** Removes an element if present; returns this set. */
    method Delete(element: T) returns (self: Set<T>)
      requires Valid()
      modifies members
      ensures Valid() && self == this
      ensures Elements() == Without(old(Elements()), element)
    {
      members.Delete(element);
      self := this;
    }

    method Has(element: T) returns (b: bool)
      requires Valid()
      ensures b <==> element in Elements()
    {
      b := members.Has(element);
    }

    /**
     * Adds the elements of `other` in its order. The keys of `other` are read
     * before anything is added, so `other` may be this very set.
     */
    method Union(other: Set<T>) returns (self: Set<T>)
      requires Valid() && other.Valid()
      modifies members
      ensures Valid() && self == this
      ensures Elements() == Dedup(old(Elements()) + old(other.Elements()))
    {
      var keys := other.members.Keys();
      ghost var start := Elements();
      ElementsDistinct();
      DedupDistinct(start);
      assert start + keys[..0] == start;
      for i := 0 to |keys|
        invariant Valid()
        invariant Elements() == Dedup(start + keys[..i])
      {
        DedupStep(start, keys, i);
        var _ := Add(keys[i]);
      }
      assert keys[..|keys|] == keys;
      self := this;
    }

    /** Keeps exactly the elements satisfying `keep`, in their order. */
    method Filter(keep: T -> bool) returns (self: Set<T>)
      requires Valid()
      modifies members
      ensures Valid() && self == this
      ensures Elements() == Filtered(old(Elements()), keep)
    {
      var keys := members.Keys();
      assert keys[..0] == [] && keys[0..] == keys;
      for i := 0 to |keys|
        invariant Valid()
        invariant Elements() == Filtered(keys[..i], keep) + keys[i..]
      {
        ElementsDistinct();
        FilterStep(keys, i, keep, Elements());
        if !keep(keys[i]) {
          var _ := Delete(keys[i]);
        }
      }
      assert keys[..|keys|] == keys;
      self := this;
    }

    /** Keeps exactly the elements that `other` holds. */
    method Intersect(other: Set<T>) returns (self: Set<T>)
      requires Valid() && other.Valid()
      modifies members
      ensures Valid() && self == this
      ensures Elements() == Filtered(old(Elements()), x => x in old(other.ElemSet()))
      ensures ElemSet() == old(ElemSet()) * old(other.ElemSet())
    {
      var held := other.members.Keys();
      var inOther := set x | x in held;
      ghost var before := Elements();
      var keep := x => x in inOther;
      self := Filter(keep);
      forall x
        ensures x in ElemSet() <==> x in Elems(before) && x in inOther
      {
        FilteredMember(before, keep, x);
      }
    }

    /** Keeps exactly the elements that `other` does not hold. */
    method Diff(other: Set<T>) returns (self: Set<T>)
      requires Valid() && other.Valid()
      modifies members
      ensures Valid() && self == this
      ensures Elements() == Filtered(old(Elements()), x => x !in old(other.ElemSet()))
      ensures ElemSet() == old(ElemSet()) - old(other.ElemSet())
    {
      var held := other.members.Keys();
      var inOther := set x | x in held;
      ghost var before := Elements();
      var keep := x => x !in inOther;
      self := Filter(keep);
      forall x
        ensures x in ElemSet() <==> x in Elems(before) && x !in inOther
      {
        FilteredMember(before, keep, x);
      }
    }

    /** A new set, sharing nothing with this one, holding the same elements in the same order. */
    method Copy() returns (copy: Set<T>)
      requires Valid()
      ensures copy.Valid() && fresh(copy.members)
      ensures copy.Elements() == Elements()
    {
      var n := members.Size();
      copy := new Set(n);
      ghost var mine := Elements();
      assert [] + mine == mine;
      ElementsDistinct();
      DedupDistinct(mine);
      assert copy.members != members;
      var _ := copy.Union(this);
      assert Elements() == mine;
    }

    /** The elements in insertion order, collected through a list. */
    method ToSlice() returns (slice: seq<T>)
      requires Valid()
      ensures slice == Elements()
    {
      var list := new List();
      var keys := members.Keys();
      for i := 0 to |keys|
        invariant list.Valid() && fresh(list.Repr)
        invariant list.Contents == keys[..i]
      {
        list.Add(keys[i]);
      }
      assert keys[..|keys|] == keys;
      slice := list.ToSlice();
    }
  }

  /** A fresh set of the elements of `slice`, at their first occurrence. */
  method SetFromSlice<T(==)>(slice: seq<T>) returns (s: Set<T>)
    ensures s.Valid() && fresh(s.members)
    ensures s.Elements() == Dedup(slice)
  {
    s := new Set(|slice|);
    for i := 0 to |slice|
      invariant s.Valid() && fresh(s.members)
      invariant s.Elements() == Dedup(slice[..i])
    {
      assert slice[..i + 1] == slice[..i] + [slice[i]];
      DedupSnoc(slice[..i], slice[i]);
      var _ := s.Add(slice[i]);
    }
    assert slice[..|slice|] == slice;
  }
}
