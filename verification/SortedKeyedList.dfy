/**
 A list kept sorted by the keys of its elements, without repeated keys. Lookup and
 insertion use binary search; the list it extends searches from the front.
 */
module SortedKeyedList {
  /** How a list operation ends: with its Boolean result, or with an exception. */
  datatype Outcome = Changed | Unchanged | IllegalArgument | IndexOutOfBounds

  /** The comparator orders these keys strictly and totally. */
  ghost predicate Orders<K(!new)>(cmp: (K, K) -> int, keys: iset<K>) {
    && (forall a, b :: a in keys && b in keys ==> (cmp(a, b) == 0 <==> a == b))
    && (forall a, b :: a in keys && b in keys ==> (cmp(a, b) < 0 <==> cmp(b, a) > 0))
    && (forall a, b, c :: a in keys && b in keys && c in keys && cmp(a, b) < 0 && cmp(b, c) < 0 ==> cmp(a, c) < 0)
  }

  ghost predicate Ascending<K, E>(list: seq<E>, key: E -> K, cmp: (K, K) -> int) {
    forall i, j :: 0 <= i < j < |list| ==> cmp(key(list[i]), key(list[j])) < 0
  }

  /** Where a key is, searching from the front; -1 when it is nowhere. */
  function LinearIndex<K(==), E>(list: seq<E>, key: E -> K, k: K): (r: int)
    ensures -1 <= r < |list|
    ensures r >= 0 ==> key(list[r]) == k && forall i :: 0 <= i < r ==> key(list[i]) != k
    ensures r == -1 ==> forall i :: 0 <= i < |list| ==> key(list[i]) != k
  {
    if list == [] then -1
    else if key(list[0]) == k then 0
    else
      var r := LinearIndex(list[1..], key, k);
      if r == -1 then -1 else r + 1
  }

  lemma InsertAfter<E>(a: seq<E>, run: seq<E>, b: seq<E>, e: E)
    ensures var s, p := a + run + b, |a| + |run|; s[..p] + [e] + s[p..] == a + (run + [e]) + b
  {
    var s, p := a + run + b, |a| + |run|;
    assert s[..p] == a + run && s[p..] == b;
  }

  class SortedKeyedList<K(==, !new), E(==)> {
    const key: E -> K
    const cmp: (K, K) -> int
    /** The keys that may occur. */
    ghost const keys: iset<K>
    var list: seq<E>

    ghost predicate Valid()
      reads this
    {
      && Orders(cmp, keys)
      && (forall i :: 0 <= i < |list| ==> key(list[i]) in keys)
      && Ascending(list, key, cmp)
    }

    constructor (key: E -> K, cmp: (K, K) -> int, ghost keys: iset<K>)
      requires Orders(cmp, keys)
      ensures Valid() && list == [] && this.key == key && this.cmp == cmp && this.keys == keys
    {
      this.key, this.cmp, this.keys, list := key, cmp, keys, [];
    }

    /** All keys before position p are below k, all from p on are above it. */
    ghost predicate Gap(p: int, k: K)
      reads this
    {
      && 0 <= p <= |list|
      && (forall i :: 0 <= i < p ==> cmp(key(list[i]), k) < 0)
      && (forall i :: p <= i < |list| ==> cmp(key(list[i]), k) > 0)
    }

    /** Collections.binarySearch */
    method BinarySearch(k: K) returns (r: int)
      requires Valid() && k in keys
      ensures r >= 0 ==> r < |list| && key(list[r]) == k
      ensures r < 0 ==> Gap(-r - 1, k)
    {
      var low, high := 0, |list| - 1;
      while low <= high
        invariant 0 <= low <= high + 1 <= |list|
        invariant forall i :: 0 <= i < low ==> cmp(key(list[i]), k) < 0
        invariant forall i :: high < i < |list| ==> cmp(key(list[i]), k) > 0
      {
        var mid := (low + high) / 2;
        var c := cmp(key(list[mid]), k);
        if c < 0 {
          forall i | 0 <= i < mid
            ensures cmp(key(list[i]), k) < 0
          {
            assert cmp(key(list[i]), key(list[mid])) < 0;
          }
          low := mid + 1;
        } else if c > 0 {
          forall i | mid < i < |list|
            ensures cmp(key(list[i]), k) > 0
          {
            Above(key(list[i]), key(list[mid]), k);
          }
          high := mid - 1;
        } else {
          return mid;
        }
      }
      return -(low + 1);
    }

    lemma Above(a: K, b: K, k: K)
      requires Orders(cmp, keys) && a in keys && b in keys && k in keys
      requires cmp(b, a) < 0 && cmp(b, k) > 0
      ensures cmp(a, k) > 0
    {
      assert cmp(k, b) < 0;
      assert cmp(k, a) < 0;
    }

    /** What binary search finds is what the search from the front would find. */
    method IndexOfKey(k: K) returns (r: int)
      requires Valid() && k in keys
      ensures r == LinearIndex(list, key, k)
    {
      var index := BinarySearch(k);
      if index >= 0 {
        OnlyOne(index, LinearIndex(list, key, k));
      }
      return if index >= 0 then index else -1;
    }

    lemma OnlyOne(i: int, j: int)
      requires Valid() && 0 <= i < |list|
      ensures 0 <= j < |list| && key(list[i]) == key(list[j]) ==> i == j
    {
      assert cmp(key(list[i]), key(list[i])) == 0;
    }

    function Inserted(p: int, e: E): seq<E>
      reads this
      requires 0 <= p <= |list|
    {
      list[..p] + [e] + list[p..]
    }

    lemma InsertedAt(p: int, e: E, i: nat)
      requires 0 <= p <= |list| && i <= |list|
      ensures Inserted(p, e)[i] == if i < p then list[i] else if i == p then e else list[i - 1]
    {
    }

    lemma GapKeepsOrder(p: int, e: E)
      requires Valid() && key(e) in keys && Gap(p, key(e))
      ensures Ascending(Inserted(p, e), key, cmp)
    {
      var now := Inserted(p, e);
      forall i, j | 0 <= i < j < |now|
        ensures cmp(key(now[i]), key(now[j])) < 0
      {
        InsertedAt(p, e, i);
        InsertedAt(p, e, j);
      }
    }

    lemma OrderNeedsGap(p: int, e: E)
      requires Valid() && key(e) in keys && 0 <= p <= |list| && Ascending(Inserted(p, e), key, cmp)
      ensures Gap(p, key(e))
    {
      var now := Inserted(p, e);
      assert now[p] == e;
      forall i | 0 <= i < p
        ensures cmp(key(list[i]), key(e)) < 0
      {
        assert now[i] == list[i];
      }
      forall i | p <= i < |list|
        ensures cmp(key(list[i]), key(e)) > 0
      {
        assert now[i + 1] == list[i];
        assert cmp(key(e), key(list[i])) < 0;
      }
    }

    lemma OneGap(p: int, q: int, k: K)
      requires Gap(p, k) && Gap(q, k)
      ensures p == q
    {
      assert p < |list| ==> cmp(key(list[p]), k) > 0;
      assert q < |list| ==> cmp(key(list[q]), k) > 0;
    }

    /** A key in the list has no gap, and a gap means that it is not there. */
    lemma NoGap(i: int, p: int)
      requires Valid() && 0 <= i < |list|
      ensures !Gap(p, key(list[i]))
    {
      assert cmp(key(list[i]), key(list[i])) == 0;
    }

    method Add(e: E) returns (r: Outcome)
      requires Valid() && key(e) in keys
      modifies this
      ensures Valid()
      ensures r == Changed <==> forall i :: 0 <= i < |old(list)| ==> key(old(list)[i]) != key(e)
      ensures r == Unchanged <==> e in old(list)
      ensures r == Changed || r == Unchanged || r == IllegalArgument
      ensures r != Changed ==> list == old(list)
      ensures r == Changed ==> exists p :: 0 <= p <= |old(list)| && list == old(list[..p] + [e] + list[p..])
    {
      var found := BinarySearch(key(e));
      var p := -found - 1;
      if p < 0 {
        forall i | 0 <= i < |list| && list[i] == e
          ensures i == found
        {
          OnlyOne(found, i);
        }
        return if e == list[-p - 1] then Unchanged else IllegalArgument;
      }
      forall i | 0 <= i < |list|
        ensures key(list[i]) != key(e)
      {
        NoGap(i, p);
      }
      GapKeepsOrder(p, e);
      list := Inserted(p, e);
      return Changed;
    }

    /** Inserts exactly when that leaves the keys strictly ascending. */
    method AddAt(index: int, e: E) returns (r: Outcome)
      requires Valid() && key(e) in keys
      modifies this
      ensures Valid()
      ensures r == Changed <==>
        0 <= index <= |old(list)| && old(Ascending(list[..index] + [e] + list[index..], key, cmp))
      ensures r == IllegalArgument <==> exists i :: 0 <= i < |old(list)| && key(old(list)[i]) == key(e)
      ensures r == Changed || r == IllegalArgument || r == IndexOutOfBounds
      ensures list == if r == Changed then old(list[..index] + [e] + list[index..]) else old(list)
    {
      var found := BinarySearch(key(e));
      var p := -found - 1;
      if 0 <= index <= |list| && Ascending(Inserted(index, e), key, cmp) {
        OrderNeedsGap(index, e);
        if p >= 0 {
          OneGap(index, p, key(e));
        } else {
          NoGap(found, index);
        }
      }
      if p < 0 {
        return IllegalArgument;
      }
      forall i | 0 <= i < |list|
        ensures key(list[i]) != key(e)
      {
        NoGap(i, p);
      }
      if p != index {
        return IndexOutOfBounds;
      }
      GapKeepsOrder(p, e);
      list := Inserted(index, e);
      return Changed;
    }

    lemma ReplaceByGap(index: int, p: int, e: E)
      requires Valid() && key(e) in keys && 0 <= index < |list| && Gap(p, key(e)) && (p == index || p == index + 1)
      ensures Ascending(list[index := e], key, cmp)
    {
      forall i | index < i < |list|
        ensures cmp(key(e), key(list[i])) < 0
      {
        assert cmp(key(list[i]), key(e)) > 0;
      }
    }

    lemma GapByReplace(index: int, e: E)
      requires Valid() && key(e) in keys && 0 <= index < |list| && Ascending(list[index := e], key, cmp)
      ensures key(e) == key(list[index]) || Gap(index, key(e)) || Gap(index + 1, key(e))
    {
      var now := list[index := e];
      forall i | 0 <= i < index
        ensures cmp(key(list[i]), key(e)) < 0
      {
        assert now[i] == list[i] && now[index] == e;
      }
      forall i | index < i < |list|
        ensures cmp(key(list[i]), key(e)) > 0
      {
        assert now[i] == list[i] && now[index] == e;
        assert cmp(key(e), key(list[i])) < 0;
      }
    }

    lemma ReplaceSame(index: int, e: E)
      requires Valid() && key(e) in keys && 0 <= index < |list|
      ensures cmp(key(e), key(list[index])) == 0 <==> key(e) == key(list[index])
      ensures key(e) == key(list[index]) ==> Ascending(list[index := e], key, cmp)
    {
    }

    /** Replaces exactly when that leaves the keys strictly ascending. */
    method Set(index: int, e: E) returns (r: Outcome)
      requires Valid() && key(e) in keys
      modifies this
      ensures Valid()
      ensures r == Changed <==> 0 <= index < |old(list)| && old(Ascending(list[index := e], key, cmp))
      ensures r == Changed || r == IndexOutOfBounds
      ensures list == if r == Changed then old(list[index := e]) else old(list)
    {
      hide Ascending, Orders, Gap;
      if !(0 <= index < |list|) {
        return IndexOutOfBounds;
      }
      var order := cmp(key(e), key(list[index]));
      ReplaceSame(index, e);
      if Ascending(list[index := e], key, cmp) {
        GapByReplace(index, e);
      }
      if order != 0 {
        var found := BinarySearch(key(e));
        var p := -found - 1;
        Elsewhere(found, index, p, e);
        if p < index || p > index + 1 {
          return IndexOutOfBounds;
        }
        ReplaceByGap(index, p, e);
      }
      list := list[index := e];
      return Changed;
    }

    /** With the key found, or its gap elsewhere, neither gap next to the index is the key's. */
    lemma Elsewhere(found: int, index: int, p: int, e: E)
      requires Valid() && 0 <= index < |list| && p == -found - 1
      requires if found >= 0 then found < |list| && key(list[found]) == key(e) else Gap(p, key(e))
      ensures p < index || p > index + 1 ==> !Gap(index, key(e)) && !Gap(index + 1, key(e))
    {
      if found >= 0 {
        NoGap(found, index);
        NoGap(found, index + 1);
      } else {
        if Gap(index, key(e)) {
          OneGap(index, p, key(e));
        }
        if Gap(index + 1, key(e)) {
          OneGap(index + 1, p, key(e));
        }
      }
    }

    /** Adds one after the other; an exception leaves those already added. */
    method AddAll(es: seq<E>) returns (r: Outcome, ghost done: nat)
      requires Valid() && forall i :: 0 <= i < |es| ==> key(es[i]) in keys
      modifies this
      ensures Valid() && done <= |es|
      ensures forall e :: e in list <==> e in old(list) || e in es[..done]
      ensures r == IllegalArgument || done == |es|
      ensures r == IllegalArgument ==>
        done < |es| && es[done] !in list && exists i :: 0 <= i < |list| && key(list[i]) == key(es[done])
      ensures r == Unchanged ==> list == old(list)
    {
      var didChange := false;
      for n := 0 to |es|
        invariant Valid()
        invariant forall e :: e in list <==> e in old(list) || e in es[..n]
        invariant !didChange ==> list == old(list)
      {
        assert es[..n + 1] == es[..n] + [es[n]];
        var r' := Add(es[n]);
        if r' == IllegalArgument {
          return r', n;
        }
        if r' == Changed {
          didChange := true;
        }
      }
      return if didChange then Changed else Unchanged, |es|;
    }

    /** Adds a run at a position, one index after the other. */
    method AddAllAt(index: int, es: seq<E>) returns (r: Outcome, ghost done: nat)
      requires Valid() && forall i :: 0 <= i < |es| ==> key(es[i]) in keys
      modifies this
      ensures Valid() && done <= |es| && (r == Changed <==> done == |es|)
      ensures done > 0 ==> 0 <= index <= |old(list)|
      ensures list == if done == 0 then old(list) else old(list[..index]) + es[..done] + old(list[index..])
    {
      hide Ascending, Orders;
      var i := index;
      for n := 0 to |es|
        invariant Valid() && i == index + n && (n > 0 ==> 0 <= index <= |old(list)|)
        invariant list == if n == 0 then old(list) else old(list[..index]) + es[..n] + old(list[index..])
      {
        var r' := AddAt(i, es[n]);
        if r' != Changed {
          return r', n;
        }
        assert es[..n + 1] == es[..n] + [es[n]];
        if n > 0 {
          InsertAfter(old(list[..index]), es[..n], old(list[index..]), es[n]);
        }
        i := i + 1;
      }
      return Changed, |es|;
    }
  }
}
