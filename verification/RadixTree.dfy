/**
 The radix tree as a heap of node objects: insertion in place, the level-order traversal that a depth
 limit stops, and the report of the largest prefixes.
 */
module RadixTrees {
  import opened Bytes
  import opened Parsing
  import opened RadixModel
  import opened Tally
  import opened RadixLevels
  import opened TopLists

  /** commonPrefixLen */
  method CommonPrefixLen(wordA: Word, wordB: Word) returns (i: nat)
    ensures Agree(wordA, wordB, i)
    ensures i == |wordA| || i == |wordB| || wordA[i] != wordB[i]
  {
    i := 0;
    while i < |wordA| && i < |wordB| && wordA[i] == wordB[i]
      invariant i <= |wordA| && i <= |wordB| && wordA[..i] == wordB[..i]
    {
      i := i + 1;
    }
  }

  class RadixTree {
    const root: RadixNode
    ghost var nodes: set<RadixNode>
    ghost var log: seq<KeySize>

    ghost function Contents(): View
      reads this, nodes
    {
      map n | n in nodes :: n.Fields()
    }

    ghost predicate Valid()
      reads this, nodes
    {
      Good(Contents(), root, log)
    }

    /** What the invariant says of the tree's fields. */
    lemma Meaning()
      requires Valid()
      ensures root in nodes && root.fullpath == []
      ensures forall n :: n in nodes ==> n.keyCount == Count(log, n.fullpath) && n.totalSize == Sum(log, n.fullpath)
      ensures forall n :: n in nodes ==> (n.end <==> Inserted(log, n.fullpath))
      ensures forall i :: 0 <= i < |log| ==> exists n :: n in nodes && n.fullpath == log[i].word
      ensures forall m, n :: m in nodes && n in nodes && m.fullpath == n.fullpath ==> m == n
      ensures forall n, i :: n in nodes && 0 <= i < |n.children| ==>
                var c := n.children[i]; c in nodes && c.path != [] && c.fullpath == n.fullpath + c.path
      ensures forall n, i, j :: n in nodes && 0 <= i < j < |n.children| ==>
                n.children[i].path != [] && n.children[j].path != [] && n.children[i].path[0] != n.children[j].path[0]
      ensures forall n :: n in nodes && n != root && !n.end ==> |n.children| >= 2
    {
      hide Covered, Count, Sum, Inserted;
      var v := Contents();
      assert forall n :: n in nodes ==> v[n] == n.Fields();
      forall n, i | n in nodes && 0 <= i < |n.children| ensures LinkedTo(v, n, n.children[i]) {
        LinkAt(v, n, i);
      }
      forall n, i, j | n in nodes && 0 <= i < j < |n.children|
        ensures n.children[i].path != [] && n.children[j].path != [] && n.children[i].path[0] != n.children[j].path[0]
      {
        SiblingsDiffer(v, n, i, j);
        assert v[n].children[i] == n.children[i] && v[n].children[j] == n.children[j];
      }
      forall i | 0 <= i < |log| ensures exists n :: n in nodes && n.fullpath == log[i].word {
        assert HasNode(v, log[i].word);
        var n: RadixNode :| n in v && v[n].fullpath == log[i].word;
        assert n in nodes && n.fullpath == log[i].word;
      }
    }

    constructor ()
      ensures Valid() && log == [] && fresh(nodes)
    {
      var r := new RadixNode([], false, [], 0, 0, []);
      this.root := r;
      this.nodes := {r};
      this.log := [];
      new;
      EmptyGood(Contents(), root);
    }

    method SplitNode(node: RadixNode, i: nat) returns (newChild: RadixNode)
      requires node in nodes && i <= |node.path| <= |node.fullpath|
      modifies this`nodes, node
      ensures fresh(newChild) && nodes == old(nodes) + {newChild}
      ensures newChild !in old(Contents()) && Contents() == Split(old(Contents()), node, i, newChild)
    {
      newChild := new RadixNode(node.path[i..], node.end, node.children, node.totalSize, node.keyCount, node.fullpath);
      nodes := nodes + {newChild};
      node.children := [newChild];
      node.fullpath := node.fullpath[..|node.fullpath| - (|node.path| - i)];
      node.path := node.path[..i];
      node.end := false;
    }

    method CountNode(node: RadixNode, size: int)
      requires node in nodes
      modifies node
      ensures Contents() == Bump(old(Contents()), node, size)
    {
      node.totalSize := node.totalSize + size;
      node.keyCount := node.keyCount + 1;
    }

    method EndNode(node: RadixNode)
      requires node in nodes
      modifies node
      ensures Contents() == Finish(old(Contents()), node)
    {
      node.end := true;
    }

    method AddLeaf(node: RadixNode, word: Word, fullword: Word, size: int) returns (child: RadixNode)
      requires node in nodes
      modifies this`nodes, node
      ensures fresh(child) && nodes == old(nodes) + {child}
      ensures child !in old(Contents()) && Contents() == Adopt(old(Contents()), node, child, word, fullword, size)
    {
      child := new RadixNode(word, true, [], size, 1, fullword);
      nodes := nodes + {child};
      node.children := node.children + [child];
    }

    /** The child of node starting with c. */
    method FindChild(node: RadixNode, c: byte) returns (r: Option<RadixNode>)
      requires node in nodes && Linked(Contents())
      ensures r.Some? ==> r.value in nodes && r.value in node.children && r.value.path != [] && r.value.path[0] == c
      ensures r.None? ==> NoChild(Contents(), node, c)
    {
      hide Linked;
      for i := 0 to |node.children|
        invariant forall j :: 0 <= j < i && node.children[j] in nodes && node.children[j].path != [] ==>
                                node.children[j].path[0] != c
      {
        LinkAt(Contents(), node, i);
        var child := node.children[i];
        if child.path[0] == c {
          return Some(child);
        }
      }
      r := None;
    }

    /** One turn of the walk up to the end tests: split the node if the word leaves its path, and count
        it. Either the node was left whole, or no child continues the word. */
    method Visit(node: RadixNode, rest: Word, word: Word, size: int, ghost parent: RadixNode) returns (i: nat)
      requires node in nodes && parent in nodes
      requires Walking(Contents(), root, parent, node, rest, log, Item(word, size))
      modifies this`nodes, node
      ensures old(nodes) <= nodes && fresh(nodes - old(nodes)) && i <= |rest|
      ensures i > 0 || node == root
      ensures Ready(Contents(), root, node, rest[i..], log, Item(word, size))
      ensures i < |rest| ==>
                (Compact(Contents(), root, {}) && nodes == old(nodes)) || NoChild(Contents(), node, rest[i])
    {
      hide Walking, Ready, Compact, NoChild, Agree;
      ghost var before := Contents();
      PathInFull(before, root, parent, node, rest, log, Item(word, size));
      i := CommonPrefixLen(rest, node.path);
      AgreeBounds(rest, node.path, i);
      FirstAgrees(rest, node.path, i);
      ghost var lower := node;
      var cut := i < |node.path|;
      if cut {
        lower := SplitNode(node, i);
      }
      CountNode(node, size);
      Arrive(before, root, parent, node, rest, log, Item(word, size), i, lower);
      assert Contents() == Arrived(before, node, i, lower, size);
      if cut && i < |rest| {
        SplitNoChild(before, Contents(), node, i, lower, rest, size);
      }
    }

    /** insert */
    method Insert(word: Word, size: int)
      requires Valid()
      modifies this, nodes
      ensures Valid() && log == old(log) + [Item(word, size)]
      ensures old(nodes) <= nodes && fresh(nodes - old(nodes))
    {
      hide Walking, Ready, Compact, Good, NoChild, Linked;
      ghost var item := Item(word, size);
      ghost var parent := root;
      var (rest, node) := (word, root);
      Enter(Contents(), root, log, item);
      while true
        invariant nodes == old(nodes) && log == old(log)
        invariant node in nodes && parent in nodes && Walking(Contents(), root, parent, node, rest, log, item)
        decreases |rest| + if node == root then 1 else 0
      {
        var i := Visit(node, rest, word, size, parent);
        rest := rest[i..];
        if rest == [] {
          ReadyEnds(Contents(), root, node, log, item);
          EndNode(node);
          Record(item);
          return;
        }
        ReadyLinked(Contents(), root, node, rest, log, item);
        var child := FindChild(node, rest[0]);
        if child.None? {
          AddChild(node, rest, word, size);
          return;
        }
        ChildFound(Contents(), node, child.value, rest[0]);
        WalkOn(Contents(), root, node, child.value, rest, log, item);
        parent := node;
        node := child.value;
      }
    }

    ghost method Record(item: KeySize)
      modifies this`log
      ensures log == old(log) + [item] && Contents() == old(Contents())
    {
      log := log + [item];
    }

    method AddChild(node: RadixNode, rest: Word, word: Word, size: int)
      requires node in nodes && Ready(Contents(), root, node, rest, log, Item(word, size))
      requires rest != [] && NoChild(Contents(), node, rest[0])
      modifies this`nodes, this`log, node
      ensures Valid() && log == old(log) + [Item(word, size)]
      ensures old(nodes) <= nodes && fresh(nodes - old(nodes))
    {
      hide Ready, Good, NoChild;
      ghost var v := Contents();
      var leaf := AddLeaf(node, rest, word, size);
      ReadyAdopts(v, root, node, leaf, rest, log, Item(word, size));
      Record(Item(word, size));
    }

    /** The body of PrefixAnalyse once the tree is built: traverse, with a callback that skips the two
        upper levels and stops at the depth limit, into a bounded list. */
    method LargestPrefixes(topN: int, maxDepth: int)
      returns (r: Option<TopList<RadixNode>>, ghost visited: seq<RadixNode>)
      requires Valid()
      ensures r.None? <==> topN < 0
      ensures r.Some? ==>
                && fresh(r.value) && r.value.Valid()
                && r.value.capacity == (if topN == 0 then 0x7fff_ffff_ffff_ffff else topN)
                && r.value.added == Report(Contents(), Deep(Contents(), visited))
                && LevelOrder(Contents(), root, visited)
                && Listed(Contents(), Deep(Contents(), visited), DepthLimit(maxDepth))
      ensures r.Some? ==>
                var deep := Deep(Contents(), visited);
                && |r.value.added| == |deep|
                && forall i :: 0 <= i < |deep| ==>
                     deep[i] in nodes && r.value.added[i] == Sized(deep[i], Sum(log, deep[i].fullpath))
      ensures r.Some? && maxDepth == 0 ==>
                forall n :: n in nodes ==>
                              (n in Deep(Contents(), visited) <==> 3 <= DepthOf(Contents(), n) < 0x8000_0000_0000_0000)
      ensures r.Some? && 1 <= maxDepth <= 0x7fff_ffff_ffff_fffd ==>
                forall n :: n in nodes ==>
                              (n in Deep(Contents(), visited) <==> 3 <= DepthOf(Contents(), n) <= maxDepth + 2)
    {
      hide DepthOf, Listed, LevelOrder, Report, Deep, Good, Ranked, First;
      visited := [];
      if topN < 0 {
        return None, visited;
      }
      var tops := new TopList<RadixNode>(if topN == 0 then MAX_INT else topN);
      visited := Traverse(tops, DepthLimit(maxDepth));
      ReportedSums(Contents(), root, log, Deep(Contents(), visited), DepthLimit(maxDepth));
      if maxDepth == 0 || 1 <= maxDepth <= 0x7fff_ffff_ffff_fffd {
        ListedDepths(Contents(), Deep(Contents(), visited), maxDepth);
      }
      r := Some(tops);
    }

    /** traverse, with the callback's tests in place of the call: nodes are visited breadth first, and those
        listed are all nodes between the depths. */
    method Traverse(tops: TopList<RadixNode>, limit: int) returns (ghost visited: seq<RadixNode>)
      requires Valid() && tops.Valid() && tops.added == []
      modifies tops
      ensures tops.Valid() && tops.added == Report(Contents(), Deep(Contents(), visited))
      ensures LevelOrder(Contents(), root, visited) && Listed(Contents(), Deep(Contents(), visited), limit)
    {
      hide Good, Frontier, Listing, Listed, Shape, Ranked, First, Report, DepthOf, Visiting;
      ghost var v := Contents();
      GoodShape(v, root, log);
      visited := [];
      ghost var listed: seq<RadixNode> := [];
      ghost var taken: set<RadixNode> := {};
      var queue := [Waiting(root, 1)];
      StartFrontier(v, root);
      StartListing(v, limit);
      VisitStart(v, root);
      while queue != []
        invariant Contents() == v && Frontier(v, root, taken, queue) && Listing(v, taken, listed, limit)
        invariant tops.Valid() && tops.added == Report(v, listed) && Visiting(v, root, visited, queue, listed)
        invariant taken <= nodes
        decreases nodes - taken
      {
        var head := queue[0];
        HeadFacts(v, root, taken, queue);
        if head.depth > limit {
          break;
        }
        ListingStep(v, root, taken, queue, listed, limit);
        VisitStep(v, root, visited, queue, listed);
        if head.depth > 2 {
          tops.Add(Sized(head.node, head.node.totalSize));
          ReportPush(v, listed, head.node);
          listed := listed + [head.node];
        }
        ghost var before := queue;
        queue := queue[1..] + Kids(head.node.children, head.depth + 1);
        TurnKeeps(v, root, taken, before, queue);
        taken := taken + {head.node};
        visited := visited + [head.node];
      }
      ListingDone(v, root, taken, queue, listed, limit);
      VisitedInOrder(v, root, visited, queue, listed);
    }
  }

  const MAX_INT := 0x7fff_ffff_ffff_ffff

  /** The depth up to which nodes are listed: two levels more than asked for, in 64-bit arithmetic; 0 asks for
      all. */
  function DepthLimit(maxDepth: int): int
  {
    if maxDepth == 0 then MAX_INT else Signed(Wrap64(maxDepth + 2), TWO_64)
  }

  /** The two largest depths wrap around, and then nothing is listed; no others do. */
  lemma DepthLimitIff(maxDepth: int, v: View, listed: seq<RadixNode>)
    requires -MAX_INT - 1 <= maxDepth <= MAX_INT && Listed(v, listed, DepthLimit(maxDepth))
    ensures maxDepth != 0 ==> (DepthLimit(maxDepth) == maxDepth + 2 <==> maxDepth <= MAX_INT - 2)
    ensures maxDepth > MAX_INT - 2 ==> listed == []
  {
    hide Listed;
    ListedLimit(v, listed, DepthLimit(maxDepth));
  }

  /** What the depth asked for means: 0 is every depth an int can hold, and nothing shallower than 3 counts. */
  lemma ListedDepths(v: View, listed: seq<RadixNode>, maxDepth: int)
    requires -0x8000_0000_0000_0000 <= maxDepth < 0x8000_0000_0000_0000
    requires Listed(v, listed, DepthLimit(maxDepth))
    ensures maxDepth == 0 ==>
              forall n :: n in v ==> (n in listed <==> 3 <= DepthOf(v, n) < 0x8000_0000_0000_0000)
    ensures 1 <= maxDepth <= 0x7fff_ffff_ffff_fffd ==>
              forall n :: n in v ==> (n in listed <==> 3 <= DepthOf(v, n) <= maxDepth + 2)
    ensures maxDepth < 0 || maxDepth > 0x7fff_ffff_ffff_fffd ==> listed == []
  {
    hide DepthOf;
    ListedLimit(v, listed, DepthLimit(maxDepth));
  }

  lemma ListedLimit(v: View, listed: seq<RadixNode>, limit: int)
    requires Listed(v, listed, limit)
    ensures listed != [] ==> limit >= 3
  {
    hide DepthOf;
    if listed != [] {
      assert listed[0] in listed;
    }
  }

  /** The list elements for the nodes: each with its total size. */
  ghost function Report(v: View, listed: seq<RadixNode>): seq<Sized<RadixNode>>
  {
    if listed == [] then []
    else
      var n := listed[|listed| - 1];
      Report(v, listed[..|listed| - 1]) + [Sized(n, if n in v then v[n].totalSize else 0)]
  }

  lemma {:induction false} ReportAt(v: View, listed: seq<RadixNode>, i: nat)
    requires i < |listed| && listed[i] in v
    ensures |Report(v, listed)| == |listed| && Report(v, listed)[i] == Sized(listed[i], v[listed[i]].totalSize)
    decreases |listed|
  {
    ReportLength(v, listed);
    ReportLength(v, listed[..|listed| - 1]);
    if i < |listed| - 1 {
      ReportAt(v, listed[..|listed| - 1], i);
    }
  }

  lemma {:induction false} ReportLength(v: View, listed: seq<RadixNode>)
    ensures |Report(v, listed)| == |listed|
  {
    if listed != [] {
      ReportLength(v, listed[..|listed| - 1]);
    }
  }

  /** What is reported of a node is the size of all words that begin with its full path. */
  lemma ReportedSums(v: View, root: RadixNode, log: seq<KeySize>, listed: seq<RadixNode>, limit: int)
    requires Good(v, root, log) && Listed(v, listed, limit)
    ensures |Report(v, listed)| == |listed|
    ensures forall i :: 0 <= i < |listed| ==>
              listed[i] in v && Report(v, listed)[i] == Sized(listed[i], Sum(log, v[listed[i]].fullpath))
  {
    hide Shape, Compact, Marked, Report, Sum, DepthOf;
    ReportLength(v, listed);
    forall i | 0 <= i < |listed|
      ensures listed[i] in v && Report(v, listed)[i] == Sized(listed[i], Sum(log, v[listed[i]].fullpath))
    {
      ReportAt(v, listed, i);
    }
  }

  lemma ReportPush(v: View, listed: seq<RadixNode>, n: RadixNode)
    requires n in v
    ensures Report(v, listed + [n]) == Report(v, listed) + [Sized(n, v[n].totalSize)]
  {
    assert (listed + [n])[..|listed|] == listed;
  }

  lemma GoodShape(v: View, root: RadixNode, log: seq<KeySize>)
    requires Good(v, root, log)
    ensures Shape(v, root)
  {
  }

  lemma StartListing(v: View, limit: int)
    ensures Listing(v, {}, [], limit) && Report(v, []) == []
  {
  }

  lemma HeadFacts(v: View, root: RadixNode, taken: set<RadixNode>, queue: seq<Waiting>)
    requires Frontier(v, root, taken, queue) && queue != []
    ensures queue[0].node in v && queue[0].node !in taken && queue[0].depth == DepthOf(v, queue[0].node)
  {
  }

  lemma VisitedInOrder(v: View, root: RadixNode, visited: seq<RadixNode>, queue: seq<Waiting>, listed: seq<RadixNode>)
    requires Visiting(v, root, visited, queue, listed)
    ensures LevelOrder(v, root, visited) && listed == Deep(v, visited)
  {
  }

  lemma FirstAgrees(word: Word, path: Word, i: nat)
    requires Agree(word, path, i)
    ensures word != [] && path != [] && word[0] == path[0] ==> i > 0
  {
  }
}
