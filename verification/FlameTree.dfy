/** Building and trimming the flame graph in place. */
module FlameTrees {
  import opened Tally
  import opened FlameModel

  class FlameTree {
    const root: FlameItem
    ghost var at: map<Path, FlameItem>
    ghost var log: seq<Item<Name>>

    ghost function Contents(): View
      reads this, at.Values
    {
      map p | p in at :: Box(at[p], at[p].name, at[p].value, at[p].children)
    }

    ghost predicate Valid()
      reads this, at.Values
    {
      Good(Contents(), log) && [] in at && at[[]] == root
    }

    constructor ()
      ensures Valid() && log == [] && fresh(at.Values)
    {
      var r := new FlameItem("root", 0);
      this.root := r;
      this.at := map[[] := r];
      this.log := [];
      new;
      StartGood(Contents());
    }

    /** A missing child of the node at p. */
    method Create(node: FlameItem, part: Name, ghost p: Path)
      requires p in at && at[p] == node && Tree(Contents()) && part !in node.children
      modifies this`at, node
      ensures part in node.children && fresh(node.children[part])
      ensures Tree(Contents()) && p + [part] !in old(at) && at == old(at)[p + [part] := node.children[part]]
      ensures Contents() == Grow(old(Contents()), p, part, node.children[part])
    {
      ghost var v := Contents();
      var n := new FlameItem(part, 0);
      GrowTree(v, p, part, n);
      OnlyAt(v, p);
      hide Tree, Grow;
      node.AddChild(n);
      at := at[p + [part] := n];
      assert Contents() == Grow(v, p, part, n) by {
        GrowIs(v, p, part, n, Contents());
      }
    }

    method Count(node: FlameItem, size: int, ghost p: Path)
      requires p in at && at[p] == node && Tree(Contents())
      modifies node`value
      ensures Contents() == Enlarge(old(Contents()), p, size)
    {
      ghost var v := Contents();
      OnlyAt(v, p);
      hide Tree;
      node.value := node.value + size;
    }

    /** addObject; parts is the database name followed by the parts of the key. */
    method AddObject(parts: Path, size: int)
      requires Valid()
      modifies this, at.Values
      ensures Valid() && log == old(log) + [Item(parts, size)]
      ensures old(at.Values) <= at.Values && fresh(at.Values - old(at.Values))
    {
      hide Tree, Logged, Valued, Good;
      ghost var item := Item(parts, size);
      var node := root;
      EnterGood(Contents(), log, item);
      for i := 0 to |parts|
        invariant log == old(log) && [] in at && at[[]] == root
        invariant parts[..i] in at && at[parts[..i]] == node
        invariant Tree(Contents()) && Logged(Contents(), log) && Valued(Contents(), log, item, i)
        invariant forall n :: 0 <= n <= i ==> parts[..n] in at
        invariant old(at.Values) <= at.Values && fresh(at.Values - old(at.Values))
      {
        node := Descend(node, parts[i], size, i, item);
      }
      assert parts[..|parts|] == parts;
      AddedGood(Contents(), log, item);
      Record(item);
    }

    /** One turn of addObject's loop. */
    method Descend(node: FlameItem, part: Name, size: int, ghost i: nat, ghost item: Item<Name>)
      returns (child: FlameItem)
      requires i < |item.word| && part == item.word[i] && size == item.size
      requires item.word[..i] in at && at[item.word[..i]] == node
      requires Tree(Contents()) && Logged(Contents(), log) && Valued(Contents(), log, item, i)
      modifies this`at, at.Values
      ensures item.word[..i + 1] in at && at[item.word[..i + 1]] == child
      ensures Tree(Contents()) && Logged(Contents(), log) && Valued(Contents(), log, item, i + 1)
      ensures (forall p :: p in old(at) ==> p in at && at[p] == old(at)[p])
      ensures fresh(at.Values - old(at.Values))
    {
      hide Tree, Logged, Valued, Grow, Enlarge;
      ghost var p := item.word[..i];
      assert item.word[..i + 1] == p + [part];
      if part !in node.children {
        ghost var v := Contents();
        Create(node, part, p);
        GrowValued(v, p, part, node.children[part], log, item);
      }
      ChildAt(Contents(), p, part);
      child := node.children[part];
      EnlargeKeeps(Contents(), p + [part], log, item, i);
      Count(child, size, p + [part]);
    }

    ghost method Record(item: Item<Name>)
      modifies this`log
      ensures log == old(log) + [item] && Contents() == old(Contents())
    {
      log := log + [item];
    }

    /** The sum over the root's children that FlameGraph stores in the root: everything added, but for
        what was added under the empty path. */
    method SetTotal()
      requires Valid()
      modifies root`value
      ensures Valid() && root.value == Sum(log, []) - Exact(log, [])
    {
      ghost var v := Contents();
      GoodTree(v, log);
      Conservation(v, log, []);
      LinkedKids(v);
      hide Good, SumMap, KidValues, Sum, Exact, Tree, Linked;
      var totalSize := SumKids(root, KidValues(v, []));
      OnlyAt(v, []);
      root.value := totalSize;
      RootValueFree(v, Contents(), log);
    }

    method SumKids(node: FlameItem, ghost values: map<Name, int>) returns (totalSize: int)
      requires values.Keys == node.children.Keys && forall k :: k in values ==> node.children[k].value == values[k]
      ensures totalSize == SumMap(values)
    {
      hide SumMap;
      var todo := node.children.Keys;
      totalSize := 0;
      assert Within(values, todo) == values;
      while todo != {}
        invariant todo <= values.Keys && totalSize + SumMap(Within(values, todo)) == SumMap(values)
      {
        var key :| key in todo;
        SumPick(Within(values, todo), key);
        assert Within(values, todo) - {key} == Within(values, todo - {key});
        totalSize := totalSize + node.children[key].value;
        todo := todo - {key};
      }
      assert Within(values, todo) == map[];
      SumZeros(map[]);
    }

    /** The body of trimData's loop: the small leaf children go, their size to a new child; all children,
        gone or not, are to be visited. */
    method TrimNode(node: FlameItem, t: int, ghost v: View, ghost p: Path)
      returns (pushed: seq<FlameItem>, ghost names: seq<Name>)
      requires Linked(v) && p in v && node.children == v[p].children && node !in node.children.Values
      requires forall k :: k in v[p].children ==>
                 && p + [k] in v && node.children[k].children == v[p + [k]].children
                 && node.children[k].value == v[p + [k]].value
      modifies node`children
      ensures TrimmedTo(v, p, t, node.children)
      ensures LeafSum(v, p, t) > 0 ==> fresh(node.children[OTHERS])
      ensures Lists(names, v[p].children.Keys) && |pushed| == |names|
      ensures forall i :: 0 <= i < |names| ==> names[i] in v[p].children && pushed[i] == v[p].children[names[i]]
    {
      hide Linked, StillThere, Gathered, KeptOf, LeafSum;
      var (kids, todo) := (node.children, node.children.Keys);
      var leafSum := 0;
      pushed, names := [], [];
      TrimStart(v, p, t);
      while todo != {}
        invariant todo <= kids.Keys && kids == v[p].children
        invariant node.children == StillThere(v, p, t, todo) && leafSum == Gathered(v, p, t, todo)
        invariant Lists(names, kids.Keys - todo) && |pushed| == |names|
        invariant forall i :: 0 <= i < |names| ==> names[i] in kids && pushed[i] == kids[names[i]]
        decreases todo
      {
        var key :| key in todo;
        var child := kids[key];
        TrimStep(v, p, t, todo, key);
        if child.children == map[] && child.value < t {
          node.children := node.children - {key};
          leafSum := leafSum + child.value;
        }
        pushed, names := pushed + [child], names + [key];
        todo := todo - {key};
      }
      assert kids.Keys - todo == kids.Keys;
      TrimEnd(v, p, t);
      if leafSum > 0 {
        var n := new FlameItem(OTHERS, leafSum);
        node.AddChild(n);
      }
    }

    /** Trimming as far as it has come: values are untouched, visited nodes are trimmed, others are not. */
    ghost predicate PartlyTrimmed(v: View, visited: set<Path>, t: int)
      requires Linked(v) && at.Keys == v.Keys && visited <= v.Keys
      reads this, at.Values, set p, k | p in at && k in at[p].children :: at[p].children[k]
    {
      forall p :: p in at ==>
                    && at[p] == v[p].item && at[p].value == v[p].value
                    && (if p in visited then TrimmedTo(v, p, t, at[p].children) else at[p].children == v[p].children)
                    && (p in visited && LeafSum(v, p, t) > 0 ==> at[p].children[OTHERS] !in at.Values)
    }

    method TrimNext(node: FlameItem, t: int, ghost v: View, ghost visited: set<Path>, ghost paths: seq<Path>)
      returns (pushed: seq<FlameItem>, ghost names: seq<Name>)
      requires Tree(v) && Linked(v) && Frontier(v, visited, paths) && at.Keys == v.Keys && visited <= v.Keys
      requires paths != [] && paths[0] in at && at[paths[0]] == node
      requires PartlyTrimmed(v, visited, t)
      modifies node`children
      ensures PartlyTrimmed(v, visited + {paths[0]}, t)
      ensures Lists(names, v[paths[0]].children.Keys) && |pushed| == |names|
      ensures forall i :: 0 <= i < |names| ==>
                Extend(paths[0], names)[i] in at && pushed[i] == at[Extend(paths[0], names)[i]]
    {
      hide Tree, Linked, OneItem, Frontier, LeafSum, KeptOf, Small;
      ghost var p := paths[0];
      NextVisit(v, visited, paths);
      OnlyAt(v, p);
      pushed, names := TrimNode(node, t, v, p);
      KidsAt(v, p, names);
    }

    /** trimData */
    method Trim(t: int)
      requires Valid()
      modifies at.Values
      ensures at == old(at) && Linked(old(Contents())) && at.Keys == old(Contents()).Keys
      ensures PartlyTrimmed(old(Contents()), at.Keys, t)
      ensures forall p, k :: p in at && k in old(at[p].children) && k != "others" ==>
                && (k in at[p].children <==>
                    old(at[p].children[k].children) != map[] || old(at[p].children[k].value) >= t)
                && (k in at[p].children ==> at[p].children[k] == old(at[p].children[k]))
    {
      hide Good, Tree, Linked, OneItem, Frontier, PartlyTrimmed;
      ghost var v := Contents();
      ghost var visited: set<Path> := {};
      ghost var paths: seq<Path> := [[]];
      var queue := [root];
      StartVisits(v, log);
      assert PartlyTrimmed(v, visited, t) by {
        NotTrimmed(v, t);
      }
      while queue != []
        invariant at == old(at) && Tree(v) && Linked(v) && Frontier(v, visited, paths) && visited <= at.Keys == v.Keys
        invariant |queue| == |paths| && forall i :: 0 <= i < |paths| ==> paths[i] in at && queue[i] == at[paths[i]]
        invariant PartlyTrimmed(v, visited, t)
        decreases at.Keys - visited
      {
        ghost var p := paths[0];
        HeadNew(v, visited, paths);
        var pushed, names := TrimNext(queue[0], t, v, visited, paths);
        queue := queue[1..] + pushed;
        VisitKeeps(v, visited, paths, names);
        paths := paths[1..] + Extend(p, names);
        visited := visited + {p};
      }
      forall p | p in at ensures p in visited {
        AllVisited(v, visited, p);
      }
      assert visited == at.Keys;
      forall p, k | p in at && k in old(at[p].children) && k != "others"
        ensures (k in at[p].children <==>
                 old(at[p].children[k].children) != map[] || old(at[p].children[k].value) >= t)
        ensures k in at[p].children ==> at[p].children[k] == old(at[p].children[k])
      {
        ChildAt(v, p, k);
        TrimmedFields(v, t, p);
      }
    }

    /** What is left of the children of a node, by what the fields were before: each child that had children or
        at least t is still there, each other is gone; only a child "others" gives way, to a new one with the
        sum of those that went, if they had a size. */
    lemma TrimmedFields(v: View, t: int, p: Path)
      requires Linked(v) && at.Keys == v.Keys && PartlyTrimmed(v, at.Keys, t) && p in at
      ensures var merged := SumMap(Leaves(v, p, t)) > 0;
              && (forall k :: k in v[p].children && !(k == "others" && merged) ==>
                    && p + [k] in v
                    && (k in at[p].children <==> v[p + [k]].children != map[] || v[p + [k]].value >= t)
                    && (k in at[p].children ==> at[p].children[k] == v[p].children[k]))
              && (forall k :: k in at[p].children && !(k == "others" && merged) ==> k in v[p].children)
              && (merged ==> && "others" in at[p].children && at[p].children["others"] !in at.Values
                             && at[p].children["others"].value == SumMap(Leaves(v, p, t)))
    {
      hide Linked, TrimmedTo, SumMap, LeafSum, Leaves;
      TrimmedMeans(v, p, t, at[p].children);
      LeavesAre(v, p, t);
    }

    /** After trimming, the children of a node add up to what they did before, exactly unless a child
        named "others" with some size was overwritten. */
    lemma TrimmedSums(v: View, t: int, p: Path)
      requires Linked(v) && at.Keys == v.Keys && PartlyTrimmed(v, at.Keys, t) && p in at
      requires forall q :: q in v ==> v[q].value >= 0
      ensures (SumMap(ValuesOf(at[p].children)) == SumMap(KidValues(v, p))) <==>
              !(LeafSum(v, p, t) > 0 && OthersKept(v, p, t) && v[p + [OTHERS]].value > 0)
    {
      hide Linked, TrimmedTo, SumMap, LeafSum, OthersKept, KidValues;
      TrimConservesIff(v, p, t, at[p].children);
    }

    lemma NotTrimmed(v: View, t: int)
      requires v == Contents() && Linked(v)
      ensures PartlyTrimmed(v, {}, t)
    {
    }
  }

  lemma HeadNew(v: View, visited: set<Path>, queue: seq<Path>)
    requires Frontier(v, visited, queue) && queue != []
    ensures queue[0] in v && queue[0] !in visited
  {
  }

  lemma GoodTree(v: View, log: seq<Item<Name>>)
    requires Good(v, log)
    ensures Tree(v) && Linked(v)
  {
    hide Linked, OneItem, Logged;
  }

  lemma LinkedKids(v: View)
    requires Linked(v) && [] in v
    ensures forall k :: k in v[[]].children ==>
              [k] in v && v[[]].children[k] == v[[k]].item && KidValues(v, [])[k] == v[[k]].value
    ensures KidValues(v, []).Keys == v[[]].children.Keys
  {
    forall k | k in v[[]].children ensures LinkAt(v, [], k) {
    }
    assert forall k: Name :: [] + [k] == [k];
  }

  lemma RootValueFree(v: View, w: View, log: seq<Item<Name>>)
    requires Good(v, log) && w.Keys == v.Keys
    requires forall p :: p in v && p != [] ==> w[p] == v[p]
    requires [] in v && w[[]] == v[[]].(value := w[[]].value)
    ensures Good(w, log)
  {
    hide Sum;
    TreeKept(v, w);
  }

  lemma StartVisits(v: View, log: seq<Item<Name>>)
    requires Good(v, log)
    ensures Tree(v) && Linked(v) && [] in v && Frontier(v, {}, [[]])
  {
    hide Linked, OneItem, Logged, Sum;
    forall p: Path, k: Name ensures p + [k] !in [[]] {
      assert |p + [k]| > 0;
    }
  }

  /** The next node is as it was, and so are its children. */
  lemma NextVisit(v: View, visited: set<Path>, queue: seq<Path>)
    requires Tree(v) && Frontier(v, visited, queue) && queue != []
    ensures var p := queue[0];
            && p in v && p !in visited
            && forall k :: k in v[p].children ==>
                 && p + [k] in v && p + [k] !in visited
                 && v[p].children[k] == v[p + [k]].item && v[p + [k]].item != v[p].item
  {
    hide Distinct, Downward;
    var p := queue[0];
    forall k | k in v[p].children
      ensures p + [k] in v && p + [k] !in visited && v[p].children[k] == v[p + [k]].item && v[p + [k]].item != v[p].item
    {
      assert LinkAt(v, p, k);
      SameEnd(p, k, p, k);
    }
  }

  lemma KidsAt(v: View, p: Path, names: seq<Name>)
    requires Tree(v) && p in v && Lists(names, v[p].children.Keys)
    ensures forall i :: 0 <= i < |names| ==>
              && Extend(p, names)[i] in v && names[i] in v[p].children
              && v[Extend(p, names)[i]].item == v[p].children[names[i]]
  {
    hide OneItem;
    forall i | 0 <= i < |names| ensures LinkAt(v, p, names[i]) && names[i] in v[p].children {
    }
  }

  lemma StartGood(v: View)
    requires v.Keys == {[]} && v[[]].children == map[]
    ensures Good(v, [])
  {
    forall p, k | p in v ensures LinkAt(v, p, k) {
    }
  }

  lemma EnterGood(v: View, log: seq<Item<Name>>, item: Item<Name>)
    requires Good(v, log)
    ensures Tree(v) && Logged(v, log) && Valued(v, log, item, 0) && [] in v
  {
    hide Linked, OneItem, Logged, Sum;
  }

  lemma OnlyAt(v: View, p: Path)
    requires Tree(v) && p in v
    ensures forall q :: q in v && q != p ==> v[q].item != v[p].item
  {
    hide Linked;
  }

  lemma GrowIs(v: View, p: Path, k: Name, n: FlameItem, w: View)
    requires p in v && p + [k] !in v && w.Keys == v.Keys + {p + [k]}
    requires w[p + [k]] == Box(n, k, 0, map[]) && w[p] == v[p].(children := v[p].children[k := n])
    requires forall q :: q in v && q != p ==> w[q] == v[q]
    ensures w == Grow(v, p, k, n)
  {
  }

  lemma ChildAt(v: View, p: Path, k: Name)
    requires Tree(v) && p in v && k in v[p].children
    ensures p + [k] in v && v[p + [k]].item == v[p].children[k]
  {
    hide OneItem;
    assert LinkAt(v, p, k);
  }
}
