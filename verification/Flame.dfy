/**
 The flame graph of key parts. Nodes are heap objects reached by paths of names; every node's value is
 the size of everything added at or below it. Trimming merges small leaves into one child named
 "others", and loses size exactly where a surviving child already has that name.
 */
module FlameModel {
  import opened Tally

  type Name = string
  type Path = seq<Name>

  const OTHERS: Name := "others"

  class FlameItem {
    const name: Name
    var value: int
    var children: map<Name, FlameItem>

    constructor (name: Name, value: int)
      ensures this.name == name && this.value == value && this.children == map[]
    {
      this.name := name;
      this.value := value;
      this.children := map[];
    }

    /** AddChild: a child of the same name is replaced. */
    method AddChild(n: FlameItem)
      modifies this`children
      ensures children == old(children)[n.name := n]
    {
      children := children[n.name := n];
    }
  }

  /** What a path leads to. */
  datatype Box = Box(item: FlameItem, name: Name, value: int, children: map<Name, FlameItem>)

  type View = map<Path, Box>

  // ----- sums over maps

  ghost function SumMap(m: map<Name, int>): int
  {
    if m == map[] then 0
    else
      assert m.Keys != {};
      var k :| k in m;
      m[k] + SumMap(m - {k})
  }

  lemma {:induction false} SumPick(m: map<Name, int>, k: Name)
    requires k in m
    ensures SumMap(m) == m[k] + SumMap(m - {k})
    decreases |m|
  {
    assert m.Keys != {};
    var j :| j in m && SumMap(m) == m[j] + SumMap(m - {j});
    if j != k {
      SumPick(m - {j}, k);
      SumPick(m - {k}, j);
      assert m - {j} - {k} == m - {k} - {j};
    }
  }

  lemma SumPut(m: map<Name, int>, k: Name, x: int)
    ensures SumMap(m[k := x]) == SumMap(m) + x - if k in m then m[k] else 0
  {
    var m' := m[k := x];
    SumPick(m', k);
    if k in m {
      SumPick(m, k);
      assert m' - {k} == m - {k};
    } else {
      assert m' - {k} == m;
    }
  }

  lemma {:induction false} SumZeros(m: map<Name, int>)
    requires forall k :: k in m ==> m[k] == 0
    ensures SumMap(m) == 0
    decreases |m|
  {
    if m != map[] {
      assert m.Keys != {};
      var k :| k in m;
      SumPick(m, k);
      SumZeros(m - {k});
    }
  }

  // ----- the invariant

  ghost predicate Linked(v: View)
  {
    forall p, k :: p in v ==> LinkAt(v, p, k)
  }

  ghost predicate LinkAt(v: View, p: Path, k: Name)
    requires p in v
  {
    && (k in v[p].children <==> p + [k] in v)
    && (k in v[p].children ==> v[p].children[k] == v[p + [k]].item && v[p + [k]].name == k)
  }

  ghost predicate OneItem(v: View)
  {
    forall p, q :: p in v && q in v && v[p].item == v[q].item ==> p == q
  }

  ghost predicate Tree(v: View)
  {
    && [] in v && Linked(v) && OneItem(v)
    && forall p :: p in v && p != [] ==> p[..|p| - 1] in v
  }

  /** Every prefix of an added path is a node. */
  ghost predicate Logged(v: View, log: seq<Item<Name>>)
  {
    forall i, n :: 0 <= i < |log| && 0 <= n <= |log[i].word| ==> log[i].word[..n] in v
  }

  /** Values include the item on the first n nodes of its path. */
  ghost predicate Valued(v: View, log: seq<Item<Name>>, item: Item<Name>, n: nat)
  {
    forall p :: p in v && p != [] ==> v[p].value == Sum(log, p) + if p <= item.word && |p| <= n then item.size else 0
  }

  ghost predicate Good(v: View, log: seq<Item<Name>>)
  {
    Tree(v) && Logged(v, log) && forall p :: p in v && p != [] ==> v[p].value == Sum(log, p)
  }

  // ----- conservation

  /** The size of what was added exactly at a path. */
  function Exact(log: seq<Item<Name>>, p: Path): int
  {
    if log == [] then 0 else Exact(log[..|log| - 1], p) + if log[|log| - 1].word == p then log[|log| - 1].size else 0
  }

  function KidSums(log: seq<Item<Name>>, p: Path, names: set<Name>): map<Name, int>
  {
    map k | k in names :: Sum(log, p + [k])
  }

  ghost function KidValues(v: View, p: Path): map<Name, int>
    requires p in v && Linked(v)
  {
    map k | k in v[p].children && LinkAt(v, p, k) :: v[p + [k]].value
  }

  /** Sums split over the next name. */
  lemma {:induction false} SumsSplit(log: seq<Item<Name>>, p: Path, names: set<Name>)
    requires forall i :: 0 <= i < |log| && p < log[i].word ==> log[i].word[|p|] in names
    ensures Sum(log, p) == Exact(log, p) + SumMap(KidSums(log, p, names))
    decreases |log|
  {
    if log == [] {
      SumZeros(KidSums(log, p, names));
    } else {
      var (init, x) := (log[..|log| - 1], log[|log| - 1]);
      SumsSplit(init, p, names);
      KidSumsStep(init, x, p, names);
      assert log == init + [x];
    }
  }

  lemma KidSumsStep(log: seq<Item<Name>>, x: Item<Name>, p: Path, names: set<Name>)
    requires p < x.word ==> x.word[|p|] in names
    ensures SumMap(KidSums(log + [x], p, names)) == SumMap(KidSums(log, p, names)) + if p < x.word then x.size else 0
  {
    hide Sum, SumMap;
    var (m, m') := (KidSums(log, p, names), KidSums(log + [x], p, names));
    forall k | k in names ensures m'[k] == m[k] + if p < x.word && x.word[|p|] == k then x.size else 0 {
      OneMore(log, x, p + [k]);
      NextName(p, k, x.word);
    }
    if p < x.word {
      var k := x.word[|p|];
      SumPut(m, k, m[k] + x.size);
      assert m' == m[k := m[k] + x.size];
    } else {
      assert m' == m;
    }
  }

  lemma NextName(p: Path, k: Name, w: Path)
    ensures p + [k] <= w <==> p < w && w[|p|] == k
  {
    if p + [k] <= w {
      assert w[..|p|] == (p + [k])[..|p|] == p;
    }
  }

  lemma NextLogged(v: View, log: seq<Item<Name>>, p: Path, i: nat)
    requires Good(v, log) && p in v && i < |log| && p < log[i].word
    ensures log[i].word[|p|] in v[p].children
  {
    var w := log[i].word;
    assert w[..|p| + 1] in v;
    assert w[..|p| + 1] == p + [w[|p|]];
    assert LinkAt(v, p, w[|p|]);
  }

  /** Every node's value is the size of the objects that end there plus the values of its children; the
      children of the root hold everything. */
  lemma Conservation(v: View, log: seq<Item<Name>>, p: Path)
    requires Good(v, log) && p in v
    ensures Sum(log, p) == Exact(log, p) + SumMap(KidValues(v, p))
    ensures p != [] ==> v[p].value == Exact(log, p) + SumMap(KidValues(v, p))
  {
    hide Sum, SumMap, Exact, OneItem, Logged;
    forall i | 0 <= i < |log| && p < log[i].word ensures log[i].word[|p|] in v[p].children.Keys {
      NextLogged(v, log, p, i);
    }
    SumsSplit(log, p, v[p].children.Keys);
    forall k | k in v[p].children ensures LinkAt(v, p, k) && v[p + [k]].value == Sum(log, p + [k]) {
      assert LinkAt(v, p, k);
    }
    assert KidValues(v, p) == KidSums(log, p, v[p].children.Keys);
  }

  // ----- adding

  function Grow(v: View, p: Path, k: Name, n: FlameItem): View
    requires p in v
  {
    v[p + [k] := Box(n, k, 0, map[])][p := v[p].(children := v[p].children[k := n])]
  }

  function Enlarge(v: View, p: Path, size: int): View
    requires p in v
  {
    v[p := v[p].(value := v[p].value + size)]
  }

  lemma GrowTree(v: View, p: Path, k: Name, n: FlameItem)
    requires Tree(v) && p in v && k !in v[p].children && forall q :: q in v ==> v[q].item != n
    ensures Tree(Grow(v, p, k, n)) && p + [k] !in v
  {
    assert LinkAt(v, p, k);
    var w := Grow(v, p, k, n);
    GrowLinked(v, p, k, n);
    assert (p + [k])[..|p|] == p;
    hide Linked;
    forall q | q in w && q != [] ensures q[..|q| - 1] in w {
    }
  }

  lemma GrowLinked(v: View, p: Path, k: Name, n: FlameItem)
    requires Tree(v) && p in v && k !in v[p].children && p + [k] !in v
    ensures Linked(Grow(v, p, k, n))
  {
    var w := Grow(v, p, k, n);
    forall q, j | q in w ensures LinkAt(w, q, j) {
      GrowLink(v, p, k, n, q, j);
    }
  }

  lemma GrowLink(v: View, p: Path, k: Name, n: FlameItem, q: Path, j: Name)
    requires Tree(v) && p in v && k !in v[p].children && p + [k] !in v && q in Grow(v, p, k, n)
    ensures LinkAt(Grow(v, p, k, n), q, j)
  {
    hide OneItem;
    SameEnd(q, j, p, k);
    if q == p + [k] {
      assert (q + [j])[..|q + [j]| - 1] == q;
      hide Linked;
      assert q + [j] !in v;
    } else {
      assert LinkAt(v, q, j);
    }
  }

  lemma SameEnd(q: Path, j: Name, p: Path, k: Name)
    ensures q + [j] == p + [k] <==> q == p && j == k
    ensures q + [j] != q && p + [k] != p
  {
    if q + [j] == p + [k] {
      assert (q + [j])[..|q|] == (p + [k])[..|p|];
      assert (q + [j])[|q|] == (p + [k])[|p|];
    }
  }

  lemma TakePrefix(p: Path, w: Path)
    requires p <= w
    ensures w[..|p|] == p
  {
  }

  lemma GrowValued(v: View, p: Path, k: Name, n: FlameItem, log: seq<Item<Name>>, item: Item<Name>)
    requires Tree(v) && p in v && p + [k] !in v && Logged(v, log) && Valued(v, log, item, |p|)
    ensures Logged(Grow(v, p, k, n), log) && Valued(Grow(v, p, k, n), log, item, |p|)
  {
    hide Tree;
    forall i | 0 <= i < |log| ensures !(p + [k] <= log[i].word) {
      if p + [k] <= log[i].word {
        TakePrefix(p + [k], log[i].word);
        assert false;
      }
    }
    NoSums(log, p + [k]);
  }

  lemma EnlargeKeeps(v: View, p: Path, log: seq<Item<Name>>, item: Item<Name>, n: nat)
    requires Tree(v) && Logged(v, log) && Valued(v, log, item, n)
    requires n < |item.word| && p == item.word[..n + 1] && p in v
    ensures var w := Enlarge(v, p, item.size); Tree(w) && Logged(w, log) && Valued(w, log, item, n + 1)
  {
    hide Tree, Sum;
    var w := Enlarge(v, p, item.size);
    TreeKept(v, w);
    forall q | q in w && q != []
      ensures w[q].value == Sum(log, q) + if q <= item.word && |q| <= n + 1 then item.size else 0
    {
      if q <= item.word && |q| == n + 1 {
        assert q == p;
      }
    }
  }

  lemma TreeKept(v: View, w: View)
    requires Tree(v) && w.Keys == v.Keys
    requires forall p :: p in v ==> w[p].item == v[p].item && w[p].name == v[p].name && w[p].children == v[p].children
    ensures Tree(w)
  {
    forall p, k | p in w ensures LinkAt(w, p, k) {
      assert LinkAt(v, p, k);
    }
  }

  lemma AddedGood(v: View, log: seq<Item<Name>>, item: Item<Name>)
    requires Tree(v) && Logged(v, log) && Valued(v, log, item, |item.word|)
    requires forall n :: 0 <= n <= |item.word| ==> item.word[..n] in v
    ensures Good(v, log + [item])
  {
    hide Tree;
    forall p | p in v && p != [] ensures v[p].value == Sum(log + [item], p) {
      OneMore(log, item, p);
    }
  }

  // ----- trimming

  /** A child without children of its own and below the threshold. */
  ghost predicate Small(v: View, p: Path, t: int)
  {
    p in v && v[p].children == map[] && v[p].value < t
  }

  ghost function KeptOf(v: View, p: Path, t: int): map<Name, FlameItem>
    requires p in v
  {
    map k | k in v[p].children && k !in SmallNames(v, p, t) :: v[p].children[k]
  }

  ghost function SmallNames(v: View, p: Path, t: int): set<Name>
    requires p in v
  {
    set k | k in v[p].children && Small(v, p + [k], t)
  }

  /** The size of the small leaves below p. */
  ghost function LeafSum(v: View, p: Path, t: int): int
    requires p in v && Linked(v)
  {
    SumMap(Within(KidValues(v, p), SmallNames(v, p, t)))
  }

  /** The children of p after trimming: small leaves are gone, and if they had any size, a child named
      "others" has it, in place of any child of that name. */
  ghost predicate TrimmedTo(v: View, p: Path, t: int, kids: map<Name, FlameItem>)
    requires p in v && Linked(v)
    reads kids.Values`value
  {
    if LeafSum(v, p, t) > 0 then
      && OTHERS in kids && kids[OTHERS].value == LeafSum(v, p, t)
      && kids == KeptOf(v, p, t)[OTHERS := kids[OTHERS]]
    else kids == KeptOf(v, p, t)
  }

  /** The sizes of the children of p that have no children and less than t. */
  ghost function Leaves(v: View, p: Path, t: int): map<Name, int>
    requires p in v && Linked(v)
  {
    map k | k in v[p].children && LinkAt(v, p, k) && v[p + [k]].children == map[] && v[p + [k]].value < t ::
      v[p + [k]].value
  }

  lemma LeavesAre(v: View, p: Path, t: int)
    requires p in v && Linked(v)
    ensures LeafSum(v, p, t) == SumMap(Leaves(v, p, t))
  {
    hide SumMap;
    forall k | k in v[p].children ensures LinkAt(v, p, k) {
    }
    assert Within(KidValues(v, p), SmallNames(v, p, t)) == Leaves(v, p, t);
  }

  /** What trimming leaves of the children of a node: each that had children or at least t stays as it was; each
      other goes; and if those that go have a size, a child "others" has their sum, whatever was in its place. */
  lemma TrimmedMeans(v: View, p: Path, t: int, kids: map<Name, FlameItem>)
    requires Linked(v) && p in v && TrimmedTo(v, p, t, kids)
    ensures var merged := SumMap(Leaves(v, p, t)) > 0;
            && (forall k :: k in v[p].children && !(k == "others" && merged) ==>
                  && p + [k] in v
                  && (k in kids <==> v[p + [k]].children != map[] || v[p + [k]].value >= t)
                  && (k in kids ==> kids[k] == v[p].children[k]))
            && (forall k :: k in kids && !(k == "others" && merged) ==> k in v[p].children)
            && (merged ==> "others" in kids && kids["others"].value == SumMap(Leaves(v, p, t)))
  {
    hide SumMap, LeafSum, Leaves;
    LeavesAre(v, p, t);
    forall k | k in v[p].children ensures LinkAt(v, p, k) {
    }
  }

  /** A child named "others" that is no small leaf. */
  ghost predicate OthersKept(v: View, p: Path, t: int)
    requires p in v
  {
    OTHERS in v[p].children && p + [OTHERS] in v && !Small(v, p + [OTHERS], t)
  }

  ghost function ValuesOf(kids: map<Name, FlameItem>): map<Name, int>
    reads kids.Values`value
  {
    map k | k in kids :: kids[k].value
  }

  function Within(m: map<Name, int>, names: set<Name>): map<Name, int>
  {
    map k | k in m && k in names :: m[k]
  }

  function Without(m: map<Name, int>, names: set<Name>): map<Name, int>
  {
    map k | k in m && k !in names :: m[k]
  }

  lemma {:induction false} SumParts(m: map<Name, int>, names: set<Name>)
    ensures SumMap(m) == SumMap(Without(m, names)) + SumMap(Within(m, names))
    decreases |m|
  {
    hide SumMap;
    if m == map[] {
      SumZeros(m);
      SumZeros(Within(m, names));
      SumZeros(Without(m, names));
    } else {
      assert m.Keys != {};
      var j :| j in m;
      var rest := m - {j};
      SumParts(rest, names);
      SumPick(m, j);
      if j in names {
        SumPick(Within(m, names), j);
        assert Within(rest, names) == Within(m, names) - {j} && Without(rest, names) == Without(m, names);
      } else {
        SumPick(Without(m, names), j);
        assert Without(rest, names) == Without(m, names) - {j} && Within(rest, names) == Within(m, names);
      }
    }
  }

  ghost predicate ValuesKept(v: View)
    reads set p | p in v :: v[p].item
  {
    forall p :: p in v ==> v[p].item.value == v[p].value
  }

  /** Trimming a node leaves the sum of its children as it was, less the value of a child named
      "others" that was kept before it and is now overwritten. */
  lemma TrimmedSum(v: View, p: Path, t: int, kids: map<Name, FlameItem>)
    requires Linked(v) && p in v && ValuesKept(v) && TrimmedTo(v, p, t, kids) && LeafSum(v, p, t) >= 0
    ensures SumMap(ValuesOf(kids)) == SumMap(KidValues(v, p)) -
              if LeafSum(v, p, t) > 0 && OthersKept(v, p, t) then v[p + [OTHERS]].value else 0
  {
    hide SumMap;
    KidsAre(v, p, t, kids);
    hide Linked, LinkAt, KidValues, TrimmedTo, KeptOf, SmallNames, Small;
    var all := KidValues(v, p);
    var kept := Without(all, SmallNames(v, p, t));
    SumParts(all, SmallNames(v, p, t));
    var leaf := LeafSum(v, p, t);
    if leaf > 0 {
      SumPut(kept, OTHERS, leaf);
    }
  }

  lemma KidsAre(v: View, p: Path, t: int, kids: map<Name, FlameItem>)
    requires Linked(v) && p in v && ValuesKept(v) && TrimmedTo(v, p, t, kids)
    ensures var (leaf, kept) := (LeafSum(v, p, t), Without(KidValues(v, p), SmallNames(v, p, t)));
            && ValuesOf(kids) == (if leaf > 0 then kept[OTHERS := leaf] else kept)
            && (OTHERS in kept <==> OthersKept(v, p, t)) && (OTHERS in kept ==> kept[OTHERS] == v[p + [OTHERS]].value)
  {
    hide SumMap, LeafSum;
    forall k | k in v[p].children ensures LinkAt(v, p, k) && v[p].children[k].value == v[p + [k]].value {
      assert LinkAt(v, p, k);
    }
  }

  /** Without negative sizes, the sum is kept exactly when no such child is overwritten, or it had none. */
  lemma TrimConservesIff(v: View, p: Path, t: int, kids: map<Name, FlameItem>)
    requires Linked(v) && p in v && ValuesKept(v) && TrimmedTo(v, p, t, kids)
    requires forall q :: q in v ==> v[q].value >= 0
    ensures LeafSum(v, p, t) >= 0
    ensures (SumMap(ValuesOf(kids)) == SumMap(KidValues(v, p))) <==>
            !(LeafSum(v, p, t) > 0 && OthersKept(v, p, t) && v[p + [OTHERS]].value > 0)
  {
    hide SumMap;
    SumNonNegative(Within(KidValues(v, p), SmallNames(v, p, t)));
    TrimmedSum(v, p, t, kids);
    assert LinkAt(v, p, OTHERS);
  }

  lemma {:induction false} SumNonNegative(m: map<Name, int>)
    requires forall k :: k in m ==> m[k] >= 0
    ensures SumMap(m) >= 0
    decreases |m|
  {
    if m != map[] {
      assert m.Keys != {};
      var k :| k in m;
      SumPick(m, k);
      SumNonNegative(m - {k});
    }
  }

  // ----- which nodes trimming visits

  ghost predicate Distinct(queue: seq<Path>)
  {
    forall i, j :: 0 <= i < j < |queue| ==> queue[i] != queue[j]
  }

  ghost predicate Waiting(v: View, visited: set<Path>, queue: seq<Path>)
  {
    Distinct(queue) && forall i :: 0 <= i < |queue| ==> queue[i] in v && queue[i] !in visited
  }

  ghost predicate Downward(v: View, visited: set<Path>, queue: seq<Path>)
  {
    forall p, k :: p in visited && p + [k] in v ==> p + [k] in visited || p + [k] in queue
  }

  ghost predicate Upward(visited: set<Path>, queue: seq<Path>)
  {
    forall p: Path, k: Name :: p + [k] in visited || p + [k] in queue ==> p in visited
  }

  /** Visited and waiting paths: waiting ones are nodes, once each and not visited; children of visited
      nodes are visited or waiting; only those and the root are. */
  ghost predicate Frontier(v: View, visited: set<Path>, queue: seq<Path>)
  {
    && Waiting(v, visited, queue) && Downward(v, visited, queue) && Upward(visited, queue)
    && visited <= v.Keys && ([] in visited || [] in queue)
  }

  function Extend(p: Path, names: seq<Name>): (r: seq<Path>)
    ensures |r| == |names| && forall i :: 0 <= i < |names| ==> r[i] == p + [names[i]]
  {
    seq(|names|, i requires 0 <= i < |names| => p + [names[i]])
  }

  ghost predicate Lists(names: seq<Name>, keys: set<Name>)
  {
    && (forall k :: k in names <==> k in keys)
    && forall i, j :: 0 <= i < j < |names| ==> names[i] != names[j]
  }

  lemma InExtend(p: Path, names: seq<Name>, q: Path, k: Name)
    ensures q + [k] in Extend(p, names) <==> q == p && k in names
  {
    if q + [k] in Extend(p, names) {
      var i :| 0 <= i < |names| && Extend(p, names)[i] == q + [k];
      SameEnd(q, k, p, names[i]);
    }
    if q == p && k in names {
      var i :| 0 <= i < |names| && names[i] == k;
      assert Extend(p, names)[i] == q + [k];
    }
  }

  lemma VisitKeeps(v: View, visited: set<Path>, queue: seq<Path>, names: seq<Name>)
    requires Tree(v) && Frontier(v, visited, queue) && queue != [] && Lists(names, v[queue[0]].children.Keys)
    ensures Frontier(v, visited + {queue[0]}, queue[1..] + Extend(queue[0], names))
  {
    hide Linked, OneItem, Downward, Upward, Lists, Distinct;
    VisitWaiting(v, visited, queue, names);
    VisitDownward(v, visited, queue, names);
    VisitUpward(v, visited, queue, names);
    HeadOff(queue, names);
  }

  lemma HeadOff(queue: seq<Path>, names: seq<Name>)
    requires queue != []
    ensures forall q :: q in queue <==> q == queue[0] || q in queue[1..]
    ensures forall q :: q in queue[1..] + Extend(queue[0], names) <==> q in queue[1..] || q in Extend(queue[0], names)
  {
    assert queue == [queue[0]] + queue[1..];
  }

  lemma VisitDownward(v: View, visited: set<Path>, queue: seq<Path>, names: seq<Name>)
    requires Tree(v) && Downward(v, visited, queue) && queue != [] && queue[0] in v
    requires Lists(names, v[queue[0]].children.Keys)
    ensures Downward(v, visited + {queue[0]}, queue[1..] + Extend(queue[0], names))
  {
    hide OneItem, Linked;
    var p := queue[0];
    HeadOff(queue, names);
    forall q, k | q in visited + {p} && q + [k] in v
      ensures q + [k] in visited + {p} || q + [k] in queue[1..] + Extend(p, names)
    {
      if q == p {
        LinkedBack(v, p, k);
        InExtend(p, names, q, k);
      }
    }
  }

  lemma LinkedBack(v: View, p: Path, k: Name)
    requires Linked(v) && p in v && p + [k] in v
    ensures k in v[p].children
  {
    assert LinkAt(v, p, k);
  }

  lemma VisitUpward(v: View, visited: set<Path>, queue: seq<Path>, names: seq<Name>)
    requires Upward(visited, queue) && queue != []
    ensures Upward(visited + {queue[0]}, queue[1..] + Extend(queue[0], names))
  {
    var p := queue[0];
    HeadOff(queue, names);
    forall q: Path, k: Name | q + [k] in visited + {p} || q + [k] in queue[1..] + Extend(p, names)
      ensures q in visited + {p}
    {
      InExtend(p, names, q, k);
    }
  }

  lemma VisitWaiting(v: View, visited: set<Path>, queue: seq<Path>, names: seq<Name>)
    requires Tree(v) && Frontier(v, visited, queue) && queue != [] && Lists(names, v[queue[0]].children.Keys)
    ensures Waiting(v, visited + {queue[0]}, queue[1..] + Extend(queue[0], names))
  {
    hide Linked, OneItem, Downward, Upward;
    var (p, n) := (queue[0], |queue| - 1);
    var queue' := queue[1..] + Extend(p, names);
    forall i | 0 <= i < |names| ensures NewPath(v, visited, queue, p + [names[i]]) {
      NewKid(v, visited, queue, names[i]);
    }
    forall i, j | 0 <= i < j < |queue'| ensures queue'[i] != queue'[j] {
      if j >= n {
        assert queue'[j] == p + [names[j - n]] && NewPath(v, visited, queue, p + [names[j - n]]);
        if i >= n {
          SameEnd(p, names[i - n], p, names[j - n]);
        } else {
          assert queue'[i] == queue[i + 1] && queue[i + 1] in queue;
        }
      }
    }
    forall i | 0 <= i < |queue'| ensures queue'[i] in v && queue'[i] !in visited + {p} {
      if i >= n {
        assert NewPath(v, visited, queue, p + [names[i - n]]);
      }
    }
  }

  ghost predicate NewPath(v: View, visited: set<Path>, queue: seq<Path>, p: Path)
  {
    p in v && p !in visited && p !in queue
  }

  lemma NewKid(v: View, visited: set<Path>, queue: seq<Path>, k: Name)
    requires Tree(v) && Frontier(v, visited, queue) && queue != [] && queue[0] in v && k in v[queue[0]].children
    ensures NewPath(v, visited, queue, queue[0] + [k])
  {
    hide Linked, OneItem, Downward;
    NamedChild(v, queue[0], k);
  }

  lemma NamedChild(v: View, p: Path, k: Name)
    requires Linked(v) && p in v && k in v[p].children
    ensures p + [k] in v && p + [k] != p
  {
    assert LinkAt(v, p, k);
    SameEnd(p, k, p, k);
  }

  lemma {:induction false} AllVisited(v: View, visited: set<Path>, p: Path)
    requires Tree(v) && Frontier(v, visited, []) && p in v
    ensures p in visited
    decreases |p|
  {
    hide Linked, OneItem, Upward, Waiting;
    if p != [] {
      AllVisited(v, visited, p[..|p| - 1]);
      assert p == p[..|p| - 1] + [p[|p| - 1]];
    }
  }

  // ----- one turn of the trimming loop over a node's children

  /** The children still there when only the names in todo are left to look at. */
  ghost function StillThere(v: View, p: Path, t: int, todo: set<Name>): map<Name, FlameItem>
    requires p in v
  {
    map k | k in v[p].children && (k in todo || k !in SmallNames(v, p, t)) :: v[p].children[k]
  }

  /** The leaf size gathered by then. */
  ghost function Gathered(v: View, p: Path, t: int, todo: set<Name>): int
    requires p in v && Linked(v)
  {
    SumMap(Within(KidValues(v, p), SmallNames(v, p, t) - todo))
  }

  lemma TrimStart(v: View, p: Path, t: int)
    requires p in v && Linked(v)
    ensures StillThere(v, p, t, v[p].children.Keys) == v[p].children && Gathered(v, p, t, v[p].children.Keys) == 0
  {
    SumZeros(Within(KidValues(v, p), SmallNames(v, p, t) - v[p].children.Keys));
  }

  lemma TrimStep(v: View, p: Path, t: int, todo: set<Name>, k: Name)
    requires p in v && Linked(v) && k in todo && todo <= v[p].children.Keys
    ensures p + [k] in v
    ensures Small(v, p + [k], t) ==>
              && StillThere(v, p, t, todo - {k}) == StillThere(v, p, t, todo) - {k}
              && Gathered(v, p, t, todo - {k}) == Gathered(v, p, t, todo) + v[p + [k]].value
    ensures !Small(v, p + [k], t) ==>
              && StillThere(v, p, t, todo - {k}) == StillThere(v, p, t, todo)
              && Gathered(v, p, t, todo - {k}) == Gathered(v, p, t, todo)
  {
    hide SumMap, Small;
    assert LinkAt(v, p, k);
    var m := Within(KidValues(v, p), SmallNames(v, p, t) - (todo - {k}));
    var m0 := Within(KidValues(v, p), SmallNames(v, p, t) - todo);
    if Small(v, p + [k], t) {
      SumPick(m, k);
      assert m - {k} == m0;
    } else {
      assert m == m0;
    }
  }

  lemma TrimEnd(v: View, p: Path, t: int)
    requires p in v && Linked(v)
    ensures StillThere(v, p, t, {}) == KeptOf(v, p, t) && Gathered(v, p, t, {}) == LeafSum(v, p, t)
  {
    assert SmallNames(v, p, t) - {} == SmallNames(v, p, t);
  }

  // ----- size that trimming loses

  /** bigNodeThreshold: one mebibyte. */
  const BIG_NODE_THRESHOLD := 1048576

  const DB0: Path := ["db:0"]
  const DB0_OTHERS: Path := ["db:0", OTHERS]
  const DB0_X: Path := ["db:0", "x"]

  /** Two keys of database 0, one of them called "others" and as big as the threshold. */
  const CLASH_LOG: seq<Item<Name>> := [Item(DB0_OTHERS, BIG_NODE_THRESHOLD), Item(DB0_X, 5)]

  /** The graph they make. */
  function ClashView(r: FlameItem, d: FlameItem, o: FlameItem, x: FlameItem): View
  {
    map[[] := Box(r, "root", 0, map["db:0" := d]),
        DB0 := Box(d, "db:0", BIG_NODE_THRESHOLD + 5, map[OTHERS := o, "x" := x]),
        DB0_OTHERS := Box(o, OTHERS, BIG_NODE_THRESHOLD, map[]), DB0_X := Box(x, "x", 5, map[])]
  }

  ghost predicate AllDiffer(r: FlameItem, d: FlameItem, o: FlameItem, x: FlameItem)
  {
    r != d && r != o && r != x && d != o && d != x && o != x
  }

  /** What leads where. */
  lemma ClashPath(p: Path, k: Name)
    ensures p + [k] != []
    ensures p + [k] == DB0 <==> p == [] && k == "db:0"
    ensures p + [k] == DB0_OTHERS <==> p == DB0 && k == OTHERS
    ensures p + [k] == DB0_X <==> p == DB0 && k == "x"
  {
    assert DB0 == [] + ["db:0"] && DB0_OTHERS == DB0 + [OTHERS] && DB0_X == DB0 + ["x"];
    SameEnd(p, k, [], "db:0");
    SameEnd(p, k, DB0, OTHERS);
    SameEnd(p, k, DB0, "x");
  }

  lemma ClashDiffer()
    ensures DB0 != [] && DB0_OTHERS != [] && DB0_X != [] && DB0 != DB0_OTHERS && DB0 != DB0_X && DB0_OTHERS != DB0_X
    ensures OTHERS != "x"
  {
    assert DB0_OTHERS[1] != DB0_X[1];
  }

  lemma ClashLinked(r: FlameItem, d: FlameItem, o: FlameItem, x: FlameItem)
    ensures Linked(ClashView(r, d, o, x))
  {
    var v := ClashView(r, d, o, x);
    forall p, k | p in v ensures LinkAt(v, p, k) {
      hide OTHERS, DB0, DB0_OTHERS, DB0_X;
      ClashDiffer();
      ClashPath(p, k);
    }
  }

  lemma ClashTree(r: FlameItem, d: FlameItem, o: FlameItem, x: FlameItem)
    requires AllDiffer(r, d, o, x)
    ensures Tree(ClashView(r, d, o, x))
  {
    hide Linked;
    var v := ClashView(r, d, o, x);
    ClashLinked(r, d, o, x);
    assert DB0_OTHERS[..1] == DB0 && DB0_X[..1] == DB0 && DB0[..0] == [];
    hide OTHERS, DB0, DB0_OTHERS, DB0_X;
    ClashDiffer();
  }

  lemma SumOfTwo(a: Item<Name>, b: Item<Name>, p: Path)
    ensures Sum([a, b], p) == (if p <= a.word then a.size else 0) + (if p <= b.word then b.size else 0)
  {
    hide Sum;
    OneMore([], a, p);
    OneMore([a], b, p);
    assert [] + [a] == [a] && [a] + [b] == [a, b];
    NoSums([], p);
  }

  lemma ClashLogged(v: View)
    requires v.Keys == {[], DB0, DB0_OTHERS, DB0_X}
    ensures Logged(v, CLASH_LOG)
  {
    forall i, n | 0 <= i < |CLASH_LOG| && 0 <= n <= |CLASH_LOG[i].word| ensures CLASH_LOG[i].word[..n] in v {
      var w := CLASH_LOG[i].word;
      assert w[..0] == [] && w[..1] == DB0 && w[..2] == w;
    }
  }

  lemma ClashGood(r: FlameItem, d: FlameItem, o: FlameItem, x: FlameItem)
    requires AllDiffer(r, d, o, x)
    ensures Good(ClashView(r, d, o, x), CLASH_LOG)
  {
    hide Tree, Sum, Logged;
    var v := ClashView(r, d, o, x);
    ClashTree(r, d, o, x);
    ClashDiffer();
    ClashLogged(v);
    forall p | p in v && p != [] ensures v[p].value == Sum(CLASH_LOG, p) {
      SumOfTwo(CLASH_LOG[0], CLASH_LOG[1], p);
      assert DB0_OTHERS[1] != DB0_X[1];
    }
  }

  lemma ClashKids(v: View, r: FlameItem, d: FlameItem, o: FlameItem, x: FlameItem)
    requires v == ClashView(r, d, o, x) && Linked(v)
    ensures KidValues(v, DB0) == map[OTHERS := BIG_NODE_THRESHOLD, "x" := 5]
    ensures SmallNames(v, DB0, BIG_NODE_THRESHOLD) == {"x"} && KeptOf(v, DB0, BIG_NODE_THRESHOLD) == map[OTHERS := o]
  {
    ClashDiffer();
    ClashPath(DB0, OTHERS);
    ClashPath(DB0, "x");
    assert LinkAt(v, DB0, OTHERS) && LinkAt(v, DB0, "x");
  }

  lemma ClashAdds()
    ensures SumMap(map[OTHERS := BIG_NODE_THRESHOLD, "x" := 5]) == BIG_NODE_THRESHOLD + 5
    ensures SumMap(map["x" := 5]) == 5 && SumMap(map[OTHERS := 5]) == 5
  {
    hide SumMap;
    assert OTHERS != "x";
    SumZeros(map[]);
    SumPut(map[], "x", 5);
    SumPut(map[], OTHERS, 5);
    SumPut(map["x" := 5], OTHERS, BIG_NODE_THRESHOLD);
    assert map["x" := 5][OTHERS := BIG_NODE_THRESHOLD] == map[OTHERS := BIG_NODE_THRESHOLD, "x" := 5];
  }

  /** Trimming at the original's threshold, the children of the database, which added up to 1048581, are left
      with 5: the 1048576 of the key called "others" is gone, though it was no small leaf. */
  lemma OthersOverwritten(r: FlameItem, d: FlameItem, o: FlameItem, x: FlameItem, kids: map<Name, FlameItem>)
    requires AllDiffer(r, d, o, x)
    ensures var v := ClashView(r, d, o, x);
            && Good(v, CLASH_LOG) && Linked(v) && v[DB0].value == BIG_NODE_THRESHOLD + 5
            && SumMap(KidValues(v, DB0)) == BIG_NODE_THRESHOLD + 5
            && (TrimmedTo(v, DB0, BIG_NODE_THRESHOLD, kids) <==> kids.Keys == {OTHERS} && kids[OTHERS].value == 5)
            && (TrimmedTo(v, DB0, BIG_NODE_THRESHOLD, kids) ==> SumMap(ValuesOf(kids)) == 5)
  {
    hide SumMap, Good, KidValues, SmallNames, KeptOf;
    var v := ClashView(r, d, o, x);
    ClashGood(r, d, o, x);
    ClashTree(r, d, o, x);
    ClashKids(v, r, d, o, x);
    ClashAdds();
    assert Within(map[OTHERS := BIG_NODE_THRESHOLD, "x" := 5], {"x"}) == map["x" := 5];
    if kids.Keys == {OTHERS} {
      assert kids == map[OTHERS := o][OTHERS := kids[OTHERS]];
      assert ValuesOf(kids) == map[OTHERS := kids[OTHERS].value];
    }
  }
}
