/**
 The bounded list of the largest elements. Whatever is added, it holds the first elements of all
 additions ranked by size, later ones first among equals; the ranking is fixed by its order alone.
 */
module TopLists {

  datatype Sized<T> = Sized(item: T, size: int)

  /** The number of leading elements larger than size: the place of a new element. */
  function Place<T>(list: seq<Sized<T>>, size: int): (k: nat)
    ensures k <= |list|
    ensures forall i :: 0 <= i < k ==> list[i].size > size
    ensures k < |list| ==> list[k].size <= size
  {
    if list == [] || list[0].size <= size then 0 else 1 + Place(list[1..], size)
  }

  function InsertAt<T>(list: seq<T>, k: nat, x: T): seq<T>
    requires k <= |list|
  {
    list[..k] + [x] + list[k..]
  }

  /** All additions, ranked. */
  function Ranked<T>(added: seq<Sized<T>>): (r: seq<Sized<T>>)
    ensures |r| == |added|
  {
    if added == [] then []
    else
      var rest := Ranked(added[..|added| - 1]);
      var x := added[|added| - 1];
      InsertAt(rest, Place(rest, x.size), x)
  }

  function First<T>(s: seq<T>, n: nat): seq<T>
  {
    if |s| <= n then s else s[..n]
  }

  // ----- what the ranking is

  ghost predicate Descending<T>(list: seq<Sized<T>>)
  {
    forall i, j :: 0 <= i < j < |list| ==> list[i].size >= list[j].size
  }

  /** Element i of the additions comes before element j. */
  predicate Before<T>(added: seq<Sized<T>>, i: nat, j: nat)
    requires i < |added| && j < |added|
  {
    added[i].size > added[j].size || (added[i].size == added[j].size && i > j)
  }

  /** where lists the indices of all additions, each once, in ranked order. */
  ghost predicate RanksBy<T>(added: seq<Sized<T>>, where: seq<nat>)
  {
    && |where| == |added|
    && (forall a :: 0 <= a < |where| ==> where[a] < |added|)
    && (forall i: nat :: i < |added| ==> i in where)
    && forall a, b :: 0 <= a < b < |where| ==> Before(added, where[a], where[b])
  }

  lemma InsertedAt<T>(list: seq<T>, k: nat, x: T, a: nat)
    requires k <= |list| && a <= |list|
    ensures |InsertAt(list, k, x)| == |list| + 1
    ensures InsertAt(list, k, x)[a] == if a < k then list[a] else if a == k then x else list[a - 1]
    ensures x in InsertAt(list, k, x) && forall y :: y in list ==> y in InsertAt(list, k, x)
  {
    assert InsertAt(list, k, x)[k] == x;
    assert list == list[..k] + list[k..];
  }

  /** A ranking of the first additions becomes one of all by placing the last. */
  lemma PlacedRanks<T>(init: seq<Sized<T>>, x: Sized<T>, rest: seq<nat>, k: nat)
    requires RanksBy(init, rest) && k <= |init|
    requires forall a :: 0 <= a < k ==> init[rest[a]].size > x.size
    requires forall a :: k <= a < |init| ==> init[rest[a]].size <= x.size
    ensures RanksBy(init + [x], InsertAt(rest, k, |init|))
  {
    var (added, where) := (init + [x], InsertAt(rest, k, |init|));
    forall a | 0 <= a < |where| ensures where[a] < |added| {
      InsertedAt(rest, k, |init|, a);
    }
    forall i: nat | i < |added| ensures i in where {
      InsertedAt(rest, k, |init|, 0);
    }
    forall a, b | 0 <= a < b < |where| ensures Before(added, where[a], where[b]) {
      InsertedAt(rest, k, |init|, a);
      InsertedAt(rest, k, |init|, b);
      var (a', b') := (if a < k then a else a - 1, if b < k then b else b - 1);
      if a != k && b != k {
        assert Before(init, rest[a'], rest[b']);
      }
    }
  }

  /** The ranking lists every addition once, in order of size, later ones first among equals. */
  lemma {:induction false} RankedIs<T>(added: seq<Sized<T>>) returns (where: seq<nat>)
    ensures RanksBy(added, where)
    ensures forall a :: 0 <= a < |added| ==> Ranked(added)[a] == added[where[a]]
    ensures Descending(Ranked(added))
    decreases |added|
  {
    if added == [] {
      where := [];
    } else {
      var (init, x) := (added[..|added| - 1], added[|added| - 1]);
      var rest := RankedIs(init);
      where := PlacedWhere(added, rest);
      RanksDescend(added, where);
    }
  }

  lemma PlacedWhere<T>(added: seq<Sized<T>>, rest: seq<nat>) returns (where: seq<nat>)
    requires added != [] && RanksBy(added[..|added| - 1], rest)
    requires forall a :: 0 <= a < |added| - 1 ==> Ranked(added[..|added| - 1])[a] == added[rest[a]]
    requires Descending(Ranked(added[..|added| - 1]))
    ensures RanksBy(added, where)
    ensures forall a :: 0 <= a < |added| ==> Ranked(added)[a] == added[where[a]]
  {
    var (init, x) := (added[..|added| - 1], added[|added| - 1]);
    var ranked := Ranked(init);
    var k := Place(ranked, x.size);
    assert Ranked(added) == InsertAt(ranked, k, x);
    hide Ranked, InsertAt, Place, RanksBy;
    where := InsertAt(rest, k, |init|);
    assert added == init + [x];
    RanksInRange(init, rest);
    PlacedRanks(init, x, rest, k);
    forall a | 0 <= a < |added| ensures Ranked(added)[a] == added[where[a]] {
      InsertedAt(rest, k, |init|, a);
      InsertedAt(ranked, k, x, a);
    }
  }

  lemma RanksInRange<T>(added: seq<Sized<T>>, where: seq<nat>)
    requires RanksBy(added, where)
    ensures |where| == |added| && forall a :: 0 <= a < |where| ==> where[a] < |added|
  {
  }

  lemma RanksDescend<T>(added: seq<Sized<T>>, where: seq<nat>)
    requires RanksBy(added, where) && forall a :: 0 <= a < |added| ==> Ranked(added)[a] == added[where[a]]
    ensures Descending(Ranked(added))
  {
    hide Ranked;
    forall a, b | 0 <= a < b < |added| ensures Ranked(added)[a].size >= Ranked(added)[b].size {
      assert Before(added, where[a], where[b]);
    }
  }

  /** Only one listing has that order. */
  lemma {:induction false} RankingUnique<T>(added: seq<Sized<T>>, v: seq<nat>, w: seq<nat>, n: nat)
    requires RanksBy(added, v) && RanksBy(added, w) && n <= |added|
    ensures v[..n] == w[..n]
    decreases n
  {
    if n > 0 {
      RankingUnique(added, v, w, n - 1);
      SameNext(added, v, w, n - 1);
      assert v[..n] == v[..n - 1] + [v[n - 1]] && w[..n] == w[..n - 1] + [w[n - 1]];
    }
  }

  lemma SameNext<T>(added: seq<Sized<T>>, v: seq<nat>, w: seq<nat>, n: nat)
    requires RanksBy(added, v) && RanksBy(added, w) && n < |added| && v[..n] == w[..n]
    ensures v[n] == w[n]
  {
    if v[n] != w[n] {
      var a := LaterAt(added, v, w, n);
      var b := LaterAt(added, w, v, n);
      assert false;
    }
  }

  lemma PrefixAt(v: seq<nat>, w: seq<nat>, n: nat, a: nat)
    requires a < n <= |v| && n <= |w| && v[..n] == w[..n]
    ensures v[a] == w[a]
  {
    assert v[..n][a] == w[..n][a];
  }

  lemma LaterAt<T>(added: seq<Sized<T>>, v: seq<nat>, w: seq<nat>, n: nat) returns (a: nat)
    requires RanksBy(added, v) && RanksBy(added, w) && n < |added| && v[..n] == w[..n] && v[n] != w[n]
    ensures n < a < |v| && v[a] == w[n]
  {
    assert w[n] in v;
    a :| a < |v| && v[a] == w[n];
    if a < n {
      PrefixAt(v, w, n, a);
      assert false;
    }
  }

  // ----- cutting the list after every addition

  lemma {:induction false} PlaceOfPrefix<T>(list: seq<Sized<T>>, n: nat, size: int)
    requires n <= |list|
    ensures Place(list[..n], size) == if Place(list, size) <= n then Place(list, size) else n
    decreases n
  {
    if n > 0 && list[0].size > size {
      assert list[..n][1..] == list[1..][..n - 1];
      PlaceOfPrefix(list[1..], n - 1, size);
    }
  }

  /** Cutting first and then inserting and cutting again loses nothing that belongs in the list. */
  lemma CutInsert<T>(list: seq<Sized<T>>, n: nat, x: Sized<T>)
    ensures var cut := First(list, n);
            First(InsertAt(cut, Place(cut, x.size), x), n) == First(InsertAt(list, Place(list, x.size), x), n)
  {
    if |list| > n {
      hide Place;
      PlaceOfPrefix(list, n, x.size);
      CutAt(list, n, Place(list, x.size), x);
    }
  }

  lemma CutAt<T>(list: seq<T>, n: nat, k: nat, x: T)
    requires n < |list| && k <= |list|
    ensures First(InsertAt(list[..n], if k <= n then k else n, x), n) == First(InsertAt(list, k, x), n)
  {
    var (j, cut) := (if k <= n then k else n, list[..n]);
    assert First(InsertAt(cut, j, x), n) == First(InsertAt(list, k, x), n) by {
      forall a | 0 <= a < n ensures InsertAt(cut, j, x)[a] == InsertAt(list, k, x)[a] {
        InsertedAt(cut, j, x, a);
        InsertedAt(list, k, x, a);
      }
      InsertedAt(cut, j, x, 0);
      InsertedAt(list, k, x, 0);
    }
  }

  class TopList<T> {
    var list: seq<Sized<T>>
    const capacity: nat
    ghost var added: seq<Sized<T>>

    ghost predicate Valid()
      reads this
    {
      list == First(Ranked(added), capacity)
    }

    constructor (capacity: nat)
      ensures Valid() && added == [] && this.capacity == capacity
    {
      this.list := [];
      this.capacity := capacity;
      this.added := [];
    }

    lemma DescendingList()
      requires Valid()
      ensures Descending(list)
    {
      hide Ranked;
      var where := RankedIs(added);
    }

    /** What the list holds, in the order of the additions: as many of the largest as there is room for, by size,
        the later addition first among equals. */
    lemma LargestKept() returns (where: seq<nat>)
      requires Valid()
      ensures |list| == if |added| < capacity then |added| else capacity
      ensures |where| == |added| && (forall a :: 0 <= a < |where| ==> where[a] < |added|)
      ensures forall i: nat :: i < |added| ==> i in where
      ensures forall a :: 0 <= a < |list| ==> list[a] == added[where[a]]
      ensures forall a, b :: 0 <= a < b < |where| ==>
                added[where[a]].size > added[where[b]].size ||
                (added[where[a]].size == added[where[b]].size && where[a] > where[b])
    {
      hide Ranked;
      where := RankedIs(added);
      forall a, b | 0 <= a < b < |where| ensures Before(added, where[a], where[b]) {
      }
    }

    /** sort.Search for the first element not larger than size. */
    method Search(size: int) returns (index: nat)
      requires Valid()
      ensures index == Place(list, size)
    {
      DescendingList();
      var j := |list|;
      index := 0;
      while index < j
        invariant index <= j <= |list|
        invariant index > 0 ==> list[index - 1].size > size
        invariant j < |list| ==> list[j].size <= size
        decreases j - index
      {
        var h := (index + j) / 2;
        if list[h].size <= size {
          j := h;
        } else {
          index := h + 1;
        }
      }
    }

    /** add */
    method Add(x: Sized<T>)
      requires Valid()
      modifies this
      ensures Valid() && added == old(added) + [x]
    {
      var index := Search(x.size);
      var n := |list|;
      list := list + [x];
      list := list[..index + 1] + list[index..n];
      list := list[index := x];
      assert list == InsertAt(old(list), index, x);
      if |list| > capacity {
        list := list[..capacity];
      }
      CutInsert(Ranked(added), capacity, x);
      assert (added + [x])[..|added|] == added;
      added := added + [x];
    }
  }
}
