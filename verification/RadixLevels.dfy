/**
 Level-order traversal of the radix tree, on the view of its nodes: the depth of a node is one more
 than the number of nodes above it, the queue always holds the frontier, and a node is reached at its
 own depth, once.
 */
module RadixLevels {
  import opened RadixModel

  ghost function Above(v: View, n: RadixNode): set<RadixNode>
    requires n in v
  {
    set m | m in v && v[m].fullpath < v[n].fullpath
  }

  ghost function DepthOf(v: View, n: RadixNode): nat
    requires n in v
  {
    1 + |Above(v, n)|
  }

  // ----- the tree

  lemma OneParent(v: View, root: RadixNode, p: RadixNode, q: RadixNode, i: nat, j: nat)
    requires Shape(v, root) && p in v && q in v && i < |v[p].children| && j < |v[q].children|
    requires v[p].children[i] == v[q].children[j]
    ensures p == q && i == j
  {
    hide Linked, Branching, Distinct, Covered;
    LinkAt(v, p, i);
    LinkAt(v, q, j);
    var c := v[p].children[i];
    assert |v[p].fullpath| == |v[q].fullpath|;
    assert v[p].fullpath == v[c].fullpath[..|v[p].fullpath|] == v[q].fullpath;
    SameNode(v, p, q);
    if i != j {
      SiblingsDiffer(v, p, i, j);
      assert false;
    }
  }

  lemma ChildIsNotRoot(v: View, root: RadixNode, p: RadixNode, i: nat)
    requires Shape(v, root) && p in v && i < |v[p].children|
    ensures v[p].children[i] in v && v[p].children[i] != root && v[p].fullpath < v[v[p].children[i]].fullpath
  {
    hide Linked, Branching, Distinct, Covered;
    LinkAt(v, p, i);
  }

  lemma ChildDepth(v: View, root: RadixNode, p: RadixNode, i: nat)
    requires Shape(v, root) && p in v && i < |v[p].children|
    ensures v[p].children[i] in v && DepthOf(v, v[p].children[i]) == DepthOf(v, p) + 1
  {
    hide Linked, Branching, Distinct, Covered;
    LinkAt(v, p, i);
    var c := v[p].children[i];
    forall m | m in Above(v, c) && m != p ensures m in Above(v, p) {
      BetweenNothing(v, root, p, i, m);
    }
    assert Above(v, c) == Above(v, p) + {p};
  }

  lemma BetweenNothing(v: View, root: RadixNode, p: RadixNode, i: nat, m: RadixNode)
    requires Shape(v, root) && p in v && i < |v[p].children| && LinkedTo(v, p, v[p].children[i])
    requires m in v && m != p && v[m].fullpath < v[v[p].children[i]].fullpath
    ensures v[m].fullpath < v[p].fullpath
  {
    hide Linked, Branching, Distinct, Covered;
    var c := v[p].children[i];
    Prefixes(v[m].fullpath, v[p].fullpath, v[c].fullpath);
    if v[m].fullpath == v[p].fullpath {
      SameNode(v, m, p);
      assert false;
    }
    if v[p].fullpath < v[m].fullpath {
      assert v[m].fullpath[|v[p].fullpath|] == v[c].fullpath[|v[p].fullpath|] == v[c].path[0];
      Through(v, root, p, c, m);
      assert false;
    }
  }

  lemma RootDepth(v: View, root: RadixNode)
    requires Shape(v, root)
    ensures DepthOf(v, root) == 1
  {
    assert Above(v, root) == {};
  }

  lemma DeeperBelow(v: View, m: RadixNode, n: RadixNode)
    requires m in v && n in v && v[m].fullpath <= v[n].fullpath
    ensures DepthOf(v, m) <= DepthOf(v, n)
  {
    SubsetSize(Above(v, m), Above(v, n));
  }

  lemma {:induction false} SubsetSize<T>(a: set<T>, b: set<T>)
    requires a <= b
    ensures |a| <= |b|
    decreases |a|
  {
    if a != {} {
      var x :| x in a;
      SubsetSize(a - {x}, b - {x});
    }
  }

  // ----- the queue

  datatype Waiting = Waiting(node: RadixNode, depth: nat)

  ghost predicate Queued(queue: seq<Waiting>, n: RadixNode)
  {
    exists i :: 0 <= i < |queue| && queue[i].node == n
  }

  /** Queue entries are nodes, at their own depth, not yet taken, and no node twice. */
  ghost predicate Entries(v: View, taken: set<RadixNode>, queue: seq<Waiting>)
  {
    && (forall i :: 0 <= i < |queue| ==>
          queue[i].node in v && queue[i].depth == DepthOf(v, queue[i].node) && queue[i].node !in taken)
    && forall i, j :: 0 <= i < j < |queue| ==> queue[i].node != queue[j].node
  }

  /** The children of a taken node are taken or queued. */
  ghost predicate Downward(v: View, taken: set<RadixNode>, queue: seq<Waiting>)
  {
    taken <= v.Keys &&
    forall p, i :: p in taken && 0 <= i < |v[p].children| ==>
                     v[p].children[i] in taken || Queued(queue, v[p].children[i])
  }

  /** Only children of taken nodes, and the root, are taken or queued. */
  ghost predicate Upward(v: View, taken: set<RadixNode>, queue: seq<Waiting>)
  {
    forall p, i :: p in v && 0 <= i < |v[p].children| &&
                   (v[p].children[i] in taken || Queued(queue, v[p].children[i])) ==>
                     p in taken
  }

  /** Depths rise along the queue, by one at most, and nothing taken is deeper than its head. */
  ghost predicate Rising(v: View, taken: set<RadixNode>, queue: seq<Waiting>)
  {
    && (forall i, j :: 0 <= i < j < |queue| ==> queue[i].depth <= queue[j].depth <= queue[0].depth + 1)
    && forall p :: p in taken && p in v && queue != [] ==> DepthOf(v, p) <= queue[0].depth
  }

  ghost predicate Frontier(v: View, root: RadixNode, taken: set<RadixNode>, queue: seq<Waiting>)
  {
    && Entries(v, taken, queue) && Downward(v, taken, queue) && Upward(v, taken, queue) && Rising(v, taken, queue)
    && (root in taken || Queued(queue, root))
  }

  function Kids(children: seq<RadixNode>, depth: nat): (r: seq<Waiting>)
    ensures |r| == |children| && forall i :: 0 <= i < |children| ==> r[i] == Waiting(children[i], depth)
  {
    seq(|children|, i requires 0 <= i < |children| => Waiting(children[i], depth))
  }

  lemma QueuedConcat(a: seq<Waiting>, b: seq<Waiting>, n: RadixNode)
    ensures Queued(a + b, n) <==> Queued(a, n) || Queued(b, n)
  {
    if Queued(a, n) {
      var i :| 0 <= i < |a| && a[i].node == n;
      assert (a + b)[i].node == n;
    }
    if Queued(b, n) {
      var i :| 0 <= i < |b| && b[i].node == n;
      assert (a + b)[|a| + i].node == n;
    }
  }

  lemma QueuedHead(queue: seq<Waiting>, n: RadixNode)
    requires queue != []
    ensures Queued(queue, n) <==> queue[0].node == n || Queued(queue[1..], n)
  {
    if Queued(queue, n) && queue[0].node != n {
      var i :| 0 <= i < |queue| && queue[i].node == n;
      assert queue[1..][i - 1].node == n;
    }
    if Queued(queue[1..], n) {
      var i :| 0 <= i < |queue[1..]| && queue[1..][i].node == n;
      assert queue[i + 1].node == n;
    }
  }

  /** What is queued after a turn: the same, without the head, with its children. */
  lemma QueuedAfter(v: View, queue: seq<Waiting>, n: RadixNode)
    requires queue != [] && queue[0].node in v
    ensures var head := queue[0];
            Queued(queue[1..] + Kids(v[head.node].children, head.depth + 1), n) <==>
            Queued(queue[1..], n) || n in v[head.node].children
  {
    var kids := Kids(v[queue[0].node].children, queue[0].depth + 1);
    QueuedConcat(queue[1..], kids, n);
    if n in v[queue[0].node].children {
      var i :| 0 <= i < |v[queue[0].node].children| && v[queue[0].node].children[i] == n;
      assert kids[i].node == n;
    }
  }

  ghost predicate Turn(v: View, root: RadixNode, taken: set<RadixNode>, queue: seq<Waiting>, queue': seq<Waiting>)
  {
    && Shape(v, root) && Frontier(v, root, taken, queue) && queue != [] && queue[0].node in v
    && queue' == queue[1..] + Kids(v[queue[0].node].children, queue[0].depth + 1)
  }

  lemma TurnEntries(v: View, root: RadixNode, taken: set<RadixNode>, queue: seq<Waiting>, queue': seq<Waiting>)
    requires Turn(v, root, taken, queue, queue')
    ensures Entries(v, taken + {queue[0].node}, queue')
  {
    hide Shape, Downward, Upward, Rising, Queued, Above;
    var (head, k) := (queue[0], |queue| - 1);
    var children := v[head.node].children;
    forall i | 0 <= i < |children|
      ensures children[i] in v && DepthOf(v, children[i]) == head.depth + 1
      ensures children[i] !in taken && children[i] != head.node && !Queued(queue, children[i])
    {
      ChildDepth(v, root, head.node, i);
      FreshChild(v, root, taken, queue, i);
    }
    forall i, j | 0 <= i < j < |queue'| ensures queue'[i].node != queue'[j].node {
      if i >= k {
        OneParentHere(v, root, head.node, i - k, j - k);
      } else if j >= k {
        NotQueuedAt(queue, children[j - k], i + 1);
      }
    }
  }

  lemma NotQueuedAt(queue: seq<Waiting>, n: RadixNode, i: nat)
    requires !Queued(queue, n) && i < |queue|
    ensures queue[i].node != n
  {
  }

  lemma OneParentHere(v: View, root: RadixNode, p: RadixNode, i: nat, j: nat)
    requires Shape(v, root) && p in v && i < j < |v[p].children|
    ensures v[p].children[i] != v[p].children[j]
  {
    hide Shape;
    if v[p].children[i] == v[p].children[j] {
      OneParent(v, root, p, p, i, j);
    }
  }

  /** A child of the head was not met before: its only parent was not. */
  lemma FreshChild(v: View, root: RadixNode, taken: set<RadixNode>, queue: seq<Waiting>, i: nat)
    requires Shape(v, root) && Entries(v, taken, queue) && Upward(v, taken, queue) && queue != []
    requires queue[0].node in v && i < |v[queue[0].node].children|
    ensures var c := v[queue[0].node].children[i]; c !in taken && c != queue[0].node && !Queued(queue, c)
  {
    hide Shape, Queued;
    ChildIsNotRoot(v, root, queue[0].node, i);
  }

  lemma TurnDownward(v: View, root: RadixNode, taken: set<RadixNode>, queue: seq<Waiting>, queue': seq<Waiting>)
    requires Turn(v, root, taken, queue, queue')
    ensures Downward(v, taken + {queue[0].node}, queue')
  {
    hide Shape, Entries, Upward, Rising, Queued, Kids;
    var taken' := taken + {queue[0].node};
    forall p, i | p in taken' && 0 <= i < |v[p].children|
      ensures v[p].children[i] in taken' || Queued(queue', v[p].children[i])
    {
      QueuedAfter(v, queue, v[p].children[i]);
      QueuedHead(queue, v[p].children[i]);
    }
  }

  lemma TurnUpward(v: View, root: RadixNode, taken: set<RadixNode>, queue: seq<Waiting>, queue': seq<Waiting>)
    requires Turn(v, root, taken, queue, queue')
    ensures Upward(v, taken + {queue[0].node}, queue')
  {
    hide Shape, Entries, Downward, Rising, Queued, Kids;
    var taken' := taken + {queue[0].node};
    forall p, i | p in v && 0 <= i < |v[p].children| && (v[p].children[i] in taken' || Queued(queue', v[p].children[i]))
      ensures p in taken'
    {
      var c := v[p].children[i];
      QueuedAfter(v, queue, c);
      QueuedHead(queue, c);
      if c in v[queue[0].node].children {
        var j :| 0 <= j < |v[queue[0].node].children| && v[queue[0].node].children[j] == c;
        OneParent(v, root, p, queue[0].node, i, j);
      }
    }
  }

  lemma TurnRising(v: View, root: RadixNode, taken: set<RadixNode>, queue: seq<Waiting>, queue': seq<Waiting>)
    requires Turn(v, root, taken, queue, queue')
    ensures Rising(v, taken + {queue[0].node}, queue')
  {
    hide Shape, Downward, Upward, Queued, DepthOf;
  }

  /** A turn moves the head to the taken nodes and its children to the end of the queue. */
  lemma TurnKeeps(v: View, root: RadixNode, taken: set<RadixNode>, queue: seq<Waiting>, queue': seq<Waiting>)
    requires Turn(v, root, taken, queue, queue')
    ensures Frontier(v, root, taken + {queue[0].node}, queue')
  {
    hide Shape, Entries, Downward, Upward, Rising, Queued, Kids;
    TurnEntries(v, root, taken, queue, queue');
    TurnDownward(v, root, taken, queue, queue');
    TurnUpward(v, root, taken, queue, queue');
    TurnRising(v, root, taken, queue, queue');
    QueuedAfter(v, queue, root);
    QueuedHead(queue, root);
  }

  lemma StartFrontier(v: View, root: RadixNode)
    requires Shape(v, root)
    ensures Frontier(v, root, {}, [Waiting(root, 1)])
  {
    var queue := [Waiting(root, 1)];
    RootDepth(v, root);
    hide Shape, DepthOf;
    assert queue[0].node == root;
    forall p, i | p in v && 0 <= i < |v[p].children| ensures !Queued(queue, v[p].children[i]) {
      ChildIsNotRoot(v, root, p, i);
    }
  }

  // ----- what is left

  /** A node not taken lies at or below a queued one. */
  lemma {:induction false} LeftBelow(v: View, root: RadixNode, taken: set<RadixNode>, queue: seq<Waiting>,
                                     n: RadixNode, m: RadixNode)
    returns (i: nat)
    requires Shape(v, root) && Downward(v, taken, queue) && m in v && m !in taken
    requires n in v && (n in taken || Queued(queue, n)) && v[n].fullpath <= v[m].fullpath
    ensures i < |queue| && queue[i].node in v && v[queue[i].node].fullpath <= v[m].fullpath
    decreases |v[m].fullpath| - |v[n].fullpath|
  {
    hide Linked, Branching, Distinct, Covered;
    if n in taken {
      if v[n].fullpath == v[m].fullpath {
        SameNode(v, n, m);
        assert false;
      }
      var k := ChildTowards(v, n, m);
      i := LeftBelow(v, root, taken, queue, v[n].children[k], m);
    } else {
      i :| i < |queue| && queue[i].node == n;
    }
  }

  /** Everything left is at least as deep as the head; with an empty queue nothing is left. */
  lemma LeftDeep(v: View, root: RadixNode, taken: set<RadixNode>, queue: seq<Waiting>, m: RadixNode)
    requires Shape(v, root) && Frontier(v, root, taken, queue) && m in v && m !in taken
    ensures queue != [] && DepthOf(v, m) >= queue[0].depth
  {
    hide Linked, Branching, Distinct, Covered, DepthOf;
    var i := LeftBelow(v, root, taken, queue, root, m);
    DeeperBelow(v, queue[i].node, m);
  }

  // ----- the report

  /** The nodes listed: all of depth 3 up to the limit, once each, level by level. */
  ghost predicate Listed(v: View, listed: seq<RadixNode>, limit: int)
  {
    && (forall i :: 0 <= i < |listed| ==> listed[i] in v)
    && (forall n :: n in v ==> (n in listed <==> 3 <= DepthOf(v, n) <= limit))
    && forall i, j :: 0 <= i < j < |listed| ==> listed[i] != listed[j] && DepthOf(v, listed[i]) <= DepthOf(v, listed[j])
  }

  /** The same of the nodes taken so far. */
  ghost predicate Listing(v: View, taken: set<RadixNode>, listed: seq<RadixNode>, limit: int)
  {
    && (forall i :: 0 <= i < |listed| ==> listed[i] in taken && listed[i] in v)
    && (forall n :: n in taken && n in v ==> DepthOf(v, n) <= limit && (n in listed <==> DepthOf(v, n) >= 3))
    && forall i, j :: 0 <= i < j < |listed| ==> listed[i] != listed[j] && DepthOf(v, listed[i]) <= DepthOf(v, listed[j])
  }

  lemma ListingStep(v: View, root: RadixNode, taken: set<RadixNode>, queue: seq<Waiting>, listed: seq<RadixNode>,
                    limit: int)
    requires Frontier(v, root, taken, queue) && Listing(v, taken, listed, limit)
    requires queue != [] && queue[0].depth <= limit
    ensures Listing(v, taken + {queue[0].node}, if queue[0].depth <= 2 then listed else listed + [queue[0].node], limit)
  {
    hide Downward, Upward, Queued, DepthOf;
  }

  lemma ListingDone(v: View, root: RadixNode, taken: set<RadixNode>, queue: seq<Waiting>, listed: seq<RadixNode>,
                    limit: int)
    requires Shape(v, root) && Frontier(v, root, taken, queue) && Listing(v, taken, listed, limit)
    requires queue == [] || queue[0].depth > limit
    ensures Listed(v, listed, limit)
  {
    hide Shape, Frontier, DepthOf;
    forall n | n in v && n !in taken ensures DepthOf(v, n) > limit {
      LeftDeep(v, root, taken, queue, n);
    }
  }

  // ----- the order

  ghost function ChildrenOf(v: View, nodes: seq<RadixNode>): seq<RadixNode>
  {
    if nodes == [] then []
    else
      var n := nodes[|nodes| - 1];
      ChildrenOf(v, nodes[..|nodes| - 1]) + if n in v then v[n].children else []
  }

  /** Breadth first: the node visited at place k is the one at place k of the root and the children, in order,
      of the nodes visited before it. */
  ghost predicate LevelOrder(v: View, root: RadixNode, visited: seq<RadixNode>)
  {
    forall k :: 0 <= k < |visited| ==> NextAt(v, root, visited, k)
  }

  ghost predicate NextAt(v: View, root: RadixNode, visited: seq<RadixNode>, k: nat)
    requires k < |visited|
  {
    k <= |ChildrenOf(v, visited[..k])| && visited[k] == ([root] + ChildrenOf(v, visited[..k]))[k]
  }

  /** The nodes from depth 3 on, in the order visited. */
  ghost function Deep(v: View, visited: seq<RadixNode>): seq<RadixNode>
  {
    if visited == [] then []
    else
      var n := visited[|visited| - 1];
      Deep(v, visited[..|visited| - 1]) + if n in v && DepthOf(v, n) >= 3 then [n] else []
  }

  function NodesOf(queue: seq<Waiting>): (r: seq<RadixNode>)
    ensures |r| == |queue| && forall i :: 0 <= i < |r| ==> r[i] == queue[i].node
  {
    seq(|queue|, i requires 0 <= i < |queue| => queue[i].node)
  }

  /** The visited nodes and then the queue are the root and the children of the visited nodes. */
  ghost predicate Visiting(v: View, root: RadixNode, visited: seq<RadixNode>, queue: seq<Waiting>,
                           listed: seq<RadixNode>)
  {
    && LevelOrder(v, root, visited) && visited + NodesOf(queue) == [root] + ChildrenOf(v, visited)
    && listed == Deep(v, visited)
  }

  lemma VisitStart(v: View, root: RadixNode)
    ensures Visiting(v, root, [], [Waiting(root, 1)], [])
  {
    assert NodesOf([Waiting(root, 1)]) == [root];
  }

  lemma VisitStep(v: View, root: RadixNode, visited: seq<RadixNode>, queue: seq<Waiting>, listed: seq<RadixNode>)
    requires Visiting(v, root, visited, queue, listed) && queue != [] && queue[0].node in v
    ensures var head := queue[0];
            Visiting(v, root, visited + [head.node], queue[1..] + Kids(v[head.node].children, head.depth + 1),
                     if DepthOf(v, head.node) >= 3 then listed + [head.node] else listed)
  {
    hide DepthOf, LevelOrder, ChildrenOf, NodesOf, Kids, Deep;
    var n := queue[0].node;
    VisitNext(v, root, visited, queue);
    Pushed(v, visited, n);
    TurnNodes(queue, v[n].children);
    Regroup(visited, n, NodesOf(queue[1..]), v[n].children);
    Onto(root, ChildrenOf(v, visited), v[n].children);
  }

  lemma Pushed(v: View, visited: seq<RadixNode>, n: RadixNode)
    requires n in v
    ensures ChildrenOf(v, visited + [n]) == ChildrenOf(v, visited) + v[n].children
    ensures Deep(v, visited + [n]) == if DepthOf(v, n) >= 3 then Deep(v, visited) + [n] else Deep(v, visited)
  {
    hide DepthOf;
    assert (visited + [n])[..|visited|] == visited;
  }

  lemma TurnNodes(queue: seq<Waiting>, children: seq<RadixNode>)
    requires queue != []
    ensures NodesOf(queue) == [queue[0].node] + NodesOf(queue[1..])
    ensures NodesOf(queue[1..] + Kids(children, queue[0].depth + 1)) == NodesOf(queue[1..]) + children
  {
  }

  lemma Regroup(a: seq<RadixNode>, n: RadixNode, b: seq<RadixNode>, c: seq<RadixNode>)
    ensures (a + ([n] + b)) + c == (a + [n]) + (b + c)
  {
  }

  lemma Onto(n: RadixNode, a: seq<RadixNode>, b: seq<RadixNode>)
    ensures ([n] + a) + b == [n] + (a + b)
  {
  }

  lemma VisitNext(v: View, root: RadixNode, visited: seq<RadixNode>, queue: seq<Waiting>)
    requires LevelOrder(v, root, visited) && visited + NodesOf(queue) == [root] + ChildrenOf(v, visited) && queue != []
    ensures LevelOrder(v, root, visited + [queue[0].node])
  {
    hide ChildrenOf;
    var visited' := visited + [queue[0].node];
    forall j | 0 <= j < |visited'| ensures NextAt(v, root, visited', j) {
      if j < |visited| {
        assert visited'[..j] == visited[..j] && NextAt(v, root, visited, j);
      } else {
        assert visited'[..j] == visited;
        assert (visited + NodesOf(queue))[j] == queue[0].node;
      }
    }
  }

  /** The order of visits depends on the tree alone. */
  lemma {:induction false} LevelOrderUnique(v: View, root: RadixNode, a: seq<RadixNode>, b: seq<RadixNode>, k: nat)
    requires LevelOrder(v, root, a) && LevelOrder(v, root, b) && k <= |a| && k <= |b|
    ensures a[..k] == b[..k]
  {
    if k > 0 {
      LevelOrderUnique(v, root, a, b, k - 1);
      assert NextAt(v, root, a, k - 1) && NextAt(v, root, b, k - 1);
      assert a[..k] == a[..k - 1] + [a[k - 1]] && b[..k] == b[..k - 1] + [b[k - 1]];
    }
  }

  lemma {:induction false} DeepPrefix(v: View, a: seq<RadixNode>, k: nat)
    requires k <= |a|
    ensures Deep(v, a[..k]) <= Deep(v, a)
    decreases |a|
  {
    hide DepthOf;
    if k < |a| {
      DeepPrefix(v, a[..|a| - 1], k);
      assert a[..|a| - 1][..k] == a[..k];
    } else {
      assert a[..k] == a;
    }
  }

  lemma ListedLength(v: View, a: seq<RadixNode>, b: seq<RadixNode>, limit: int)
    requires Listed(v, a, limit) && Listed(v, b, limit) && a <= b
    ensures a == b
  {
    hide Listed;
    if b != [] {
      NoneBehind(v, a, b, limit, |b| - 1);
    }
  }

  lemma NoneBehind(v: View, a: seq<RadixNode>, b: seq<RadixNode>, limit: int, i: nat)
    requires Listed(v, a, limit) && Listed(v, b, limit) && a <= b && i < |b|
    ensures i < |a|
  {
    hide DepthOf;
    assert b[i] in b;
    var j :| 0 <= j < |a| && a[j] == b[i];
  }

  /** And so does the list: whatever is visited in breadth-first order, what is listed of it, if it is all the
      nodes between the depths, is the same sequence. */
  lemma ListedUnique(v: View, root: RadixNode, a: seq<RadixNode>, b: seq<RadixNode>, limit: int)
    requires LevelOrder(v, root, a) && LevelOrder(v, root, b)
    requires Listed(v, Deep(v, a), limit) && Listed(v, Deep(v, b), limit)
    ensures Deep(v, a) == Deep(v, b)
  {
    hide Listed, Deep, LevelOrder;
    if |a| <= |b| {
      LevelOrderUnique(v, root, a, b, |a|);
      DeepPrefix(v, b, |a|);
      assert a[..|a|] == a;
      ListedLength(v, Deep(v, a), Deep(v, b), limit);
    } else {
      LevelOrderUnique(v, root, a, b, |b|);
      DeepPrefix(v, a, |b|);
      assert b[..|b|] == b;
      ListedLength(v, Deep(v, b), Deep(v, a), limit);
    }
  }
}
