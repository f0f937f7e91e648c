/**
 The radix tree of key prefixes as a map from node objects to their fields. The invariants speak of
 each node and its children only; that the tree is a tree follows from them. `insert` is taken apart
 into the three updates it makes: splitting a node, adding a leaf, counting a node.
 */
module RadixModel {
  import opened Bytes
  import opened Tally

  type Word = seq<byte>

  class RadixNode {
    var path: Word
    var end: bool
    var children: seq<RadixNode>
    var totalSize: int
    var keyCount: int
    var fullpath: Word

    constructor (path: Word, end: bool, children: seq<RadixNode>, totalSize: int, keyCount: int, fullpath: Word)
      ensures Fields() == Node(path, end, children, totalSize, keyCount, fullpath)
    {
      this.path, this.end, this.children := path, end, children;
      this.totalSize, this.keyCount, this.fullpath := totalSize, keyCount, fullpath;
    }

    ghost function Fields(): Node
      reads this
    {
      Node(path, end, children, totalSize, keyCount, fullpath)
    }
  }

  datatype Node = Node(path: Word, end: bool, children: seq<RadixNode>, totalSize: int, keyCount: int, fullpath: Word)

  type View = map<RadixNode, Node>

  type KeySize = Item<byte>

  // ----- shape

  /** Children are nodes, have nonempty paths, and continue their parent's full path. */
  ghost predicate Linked(v: View)
  {
    forall n, i :: n in v && 0 <= i < |v[n].children| ==> LinkedTo(v, n, v[n].children[i])
  }

  ghost predicate LinkedTo(v: View, n: RadixNode, c: RadixNode)
    requires n in v
  {
    c in v && v[c].path != [] && v[c].fullpath == v[n].fullpath + v[c].path
  }

  /** Siblings differ in their first byte. */
  ghost predicate Branching(v: View)
  {
    forall n, i: nat, j: nat :: n in v && i < j < |v[n].children| ==> Differ(v, n, i, j)
  }

  ghost predicate Differ(v: View, n: RadixNode, i: nat, j: nat)
    requires n in v && i < |v[n].children| && j < |v[n].children|
  {
    LinkedTo(v, n, v[n].children[i]) && LinkedTo(v, n, v[n].children[j]) &&
    v[v[n].children[i]].path[0] != v[v[n].children[j]].path[0]
  }

  ghost predicate Distinct(v: View)
  {
    forall m, n :: m in v && n in v && v[m].fullpath == v[n].fullpath ==> m == n
  }

  /** Below a node everything is below one of its children. */
  ghost predicate Covered(v: View)
  {
    forall n, m :: n in v && m in v && v[n].fullpath < v[m].fullpath ==> Leads(v, n, v[m].fullpath)
  }

  ghost predicate Leads(v: View, n: RadixNode, p: Word)
    requires n in v
  {
    exists i :: 0 <= i < |v[n].children| && v[n].children[i] in v && v[v[n].children[i]].fullpath <= p
  }

  ghost predicate Shape(v: View, root: RadixNode)
  {
    && root in v && v[root].path == [] && v[root].fullpath == []
    && Linked(v) && Branching(v) && Distinct(v) && Covered(v)
  }

  /** Every node but the root and one exception either ends a word or branches. */
  ghost predicate Compact(v: View, root: RadixNode, except: set<RadixNode>)
  {
    forall n :: n in v && n != root && n !in except ==> v[n].end || |v[n].children| >= 2
  }

  /** end marks exactly the inserted words, and each has its node. */
  ghost predicate Marked(v: View, log: seq<KeySize>)
  {
    && (forall n :: n in v ==> (v[n].end <==> Inserted(log, v[n].fullpath)))
    && forall i :: 0 <= i < |log| ==> HasNode(v, log[i].word)
  }

  ghost predicate HasNode(v: View, word: Word)
  {
    exists n :: n in v && v[n].fullpath == word
  }

  /** The counters of the prefixes of item.word shorter than k include the item, all others do not. */
  ghost predicate Tallied(v: View, log: seq<KeySize>, item: KeySize, k: nat)
  {
    forall n :: n in v ==> TallyOf(v[n], log, item, k)
  }

  ghost predicate TallyOf(n: Node, log: seq<KeySize>, item: KeySize, k: nat)
  {
    var seen := n.fullpath <= item.word && |n.fullpath| < k;
    && n.keyCount == Count(log, n.fullpath) + (if seen then 1 else 0)
    && n.totalSize == Sum(log, n.fullpath) + (if seen then item.size else 0)
  }

  /** The invariant of the tree. */
  ghost predicate Good(v: View, root: RadixNode, log: seq<KeySize>)
  {
    Shape(v, root) && Compact(v, root, {}) && Marked(v, log) && Sums(v, log)
  }

  ghost predicate Sums(v: View, log: seq<KeySize>)
  {
    forall n :: n in v ==> v[n].keyCount == Count(log, v[n].fullpath) && v[n].totalSize == Sum(log, v[n].fullpath)
  }

  // ----- consequences of the shape

  lemma LinkAt(v: View, n: RadixNode, i: nat)
    requires Linked(v) && n in v && i < |v[n].children|
    ensures LinkedTo(v, n, v[n].children[i])
  {
  }

  lemma SameNode(v: View, m: RadixNode, n: RadixNode)
    requires Distinct(v) && m in v && n in v && v[m].fullpath == v[n].fullpath
    ensures m == n
  {
  }

  /** The child that leads from n towards m. */
  lemma ChildTowards(v: View, n: RadixNode, m: RadixNode) returns (i: nat)
    requires Linked(v) && Covered(v) && n in v && m in v && v[n].fullpath < v[m].fullpath
    ensures i < |v[n].children| && LinkedTo(v, n, v[n].children[i])
    ensures v[v[n].children[i]].fullpath <= v[m].fullpath
    ensures v[v[n].children[i]].path[0] == v[m].fullpath[|v[n].fullpath|]
  {
    hide Branching, Distinct, Linked;
    assert Leads(v, n, v[m].fullpath);
    i :| 0 <= i < |v[n].children| && v[n].children[i] in v && v[v[n].children[i]].fullpath <= v[m].fullpath;
    LinkAt(v, n, i);
    assert v[v[n].children[i]].path[0] == v[v[n].children[i]].fullpath[|v[n].fullpath|];
  }

  /** A node below n whose next byte starts child c is below c. */
  lemma Through(v: View, root: RadixNode, n: RadixNode, c: RadixNode, m: RadixNode)
    requires Shape(v, root) && n in v && c in v[n].children && m in v
    requires v[n].fullpath < v[m].fullpath && v[m].fullpath[|v[n].fullpath|] == v[c].path[0]
    ensures v[c].fullpath <= v[m].fullpath
  {
    hide Linked, Branching, Distinct, Covered;
    var j :| 0 <= j < |v[n].children| && v[n].children[j] == c;
    var i := ChildTowards(v, n, m);
    if i != j {
      SiblingsDiffer(v, n, i, j);
      assert false;
    }
  }

  lemma SiblingsDiffer(v: View, n: RadixNode, i: nat, j: nat)
    requires Linked(v) && Branching(v) && n in v && i < |v[n].children| && j < |v[n].children| && i != j
    ensures LinkedTo(v, n, v[n].children[i]) && LinkedTo(v, n, v[n].children[j])
    ensures v[v[n].children[i]].path[0] != v[v[n].children[j]].path[0]
  {
    if i < j {
      assert Differ(v, n, i, j);
    } else {
      assert Differ(v, n, j, i);
    }
  }

  ghost predicate NoChild(v: View, n: RadixNode, b: byte)
    requires n in v
  {
    forall i :: 0 <= i < |v[n].children| && v[n].children[i] in v && v[v[n].children[i]].path != [] ==>
                  v[v[n].children[i]].path[0] != b
  }

  /** When no child of n starts with b, nothing below n goes on with b. */
  lemma NoneBelow(v: View, root: RadixNode, n: RadixNode, b: byte, m: RadixNode)
    requires Shape(v, root) && n in v && m in v && NoChild(v, n, b)
    requires v[n].fullpath < v[m].fullpath
    ensures v[m].fullpath[|v[n].fullpath|] != b
  {
    hide Linked, Branching, Distinct, Covered;
    var i := ChildTowards(v, n, m);
  }

  // ----- where the walk stands

  /** node is the root or the child of parent that starts like the rest of the word; fullword is what
      lies above the node, then word. */
  ghost predicate Standing(v: View, root: RadixNode, parent: RadixNode, node: RadixNode, fullword: Word, word: Word)
  {
    && node in v && parent in v
    && if node == root then word == fullword
       else
         && node in v[parent].children && LinkedTo(v, parent, node)
         && word != [] && v[node].path[0] == word[0] && fullword == v[parent].fullpath + word
  }

  /** Counters up to here are done. */
  ghost function Depth(v: View, root: RadixNode, parent: RadixNode, node: RadixNode): nat
    requires parent in v
  {
    if node == root then 0 else |v[parent].fullpath| + 1
  }

  /** A node on the way to fullword that is no prefix of what lies above node has node's full path
      before it. */
  lemma OnTheWay(v: View, root: RadixNode, parent: RadixNode, node: RadixNode, fullword: Word, word: Word, m: RadixNode)
    requires Shape(v, root) && Standing(v, root, parent, node, fullword, word) && m in v
    requires v[m].fullpath <= fullword && |v[m].fullpath| >= Depth(v, root, parent, node)
    ensures v[node].fullpath <= v[m].fullpath
  {
    hide Linked, Branching, Distinct, Covered;
    if node != root {
      assert v[m].fullpath[|v[parent].fullpath|] == word[0];
      assert v[parent].fullpath < v[m].fullpath;
      Through(v, root, parent, node, m);
    }
  }

  // ----- splitting a node

  function Upper(n: Node, i: nat, lower: RadixNode): Node
    requires i <= |n.path| <= |n.fullpath|
  {
    Node(n.path[..i], false, [lower], n.totalSize, n.keyCount, n.fullpath[..|n.fullpath| - (|n.path| - i)])
  }

  function Lower(n: Node, i: nat): Node
    requires i <= |n.path|
  {
    Node(n.path[i..], n.end, n.children, n.totalSize, n.keyCount, n.fullpath)
  }

  function Split(v: View, node: RadixNode, i: nat, lower: RadixNode): View
    requires node in v && i <= |v[node].path| <= |v[node].fullpath|
  {
    v[lower := Lower(v[node], i)][node := Upper(v[node], i, lower)]
  }

  /** The first i > 0 bytes of the path are kept above; the lower object is new. */
  ghost predicate Splits(v: View, root: RadixNode, parent: RadixNode, node: RadixNode, i: nat, lower: RadixNode)
  {
    && Shape(v, root) && node in v && parent in v && node != root && lower !in v
    && node in v[parent].children && LinkedTo(v, parent, node) && 0 < i < |v[node].path|
  }

  /** Nothing lies between the upper half and the old node. */
  lemma Gap(v: View, root: RadixNode, parent: RadixNode, node: RadixNode, i: nat, m: RadixNode)
    requires Shape(v, root) && node in v && parent in v && node in v[parent].children && LinkedTo(v, parent, node)
    requires 0 < i <= |v[node].path| && m in v && v[parent].fullpath + v[node].path[..i] <= v[m].fullpath
    ensures v[node].fullpath <= v[m].fullpath
  {
    hide Shape;
    LongerBy(v[parent].fullpath, v[node].path, i, v[m].fullpath);
    Through(v, root, parent, node, m);
  }

  lemma LongerBy(base: Word, path: Word, i: nat, w: Word)
    requires 0 < i <= |path| && base + path[..i] <= w
    ensures base < w && w[|base|] == path[0]
  {
    assert (base + path[..i])[|base|] == path[0];
  }

  lemma UpperPath(v: View, root: RadixNode, parent: RadixNode, node: RadixNode, i: nat, lower: RadixNode)
    requires Splits(v, root, parent, node, i, lower)
    ensures i <= |v[node].path| <= |v[node].fullpath|
    ensures Upper(v[node], i, lower).fullpath == v[parent].fullpath + v[node].path[..i]
    ensures Upper(v[node], i, lower).fullpath < v[node].fullpath
    ensures v[node].fullpath == Upper(v[node], i, lower).fullpath + v[node].path[i..]
  {
    hide Shape;
  }

  lemma SplitLinked(v: View, root: RadixNode, parent: RadixNode, node: RadixNode, i: nat, lower: RadixNode)
    requires Splits(v, root, parent, node, i, lower)
    ensures i <= |v[node].path| <= |v[node].fullpath| && Linked(Split(v, node, i, lower))
  {
    hide Linked, Branching, Distinct, Covered;
    UpperPath(v, root, parent, node, i, lower);
    var w := Split(v, node, i, lower);
    forall n, j: nat | n in w && j < |w[n].children| ensures LinkedTo(w, n, w[n].children[j]) {
      SplitLink(v, root, parent, node, i, lower, n, j);
    }
    AllLinked(w);
  }

  lemma AllLinked(v: View)
    requires forall n, j: nat :: n in v && j < |v[n].children| ==> LinkedTo(v, n, v[n].children[j])
    ensures Linked(v)
  {
  }

  lemma SplitLink(v: View, root: RadixNode, parent: RadixNode, node: RadixNode, i: nat, lower: RadixNode,
                  n: RadixNode, j: nat)
    requires Splits(v, root, parent, node, i, lower) && i <= |v[node].path| <= |v[node].fullpath|
    requires var w := Split(v, node, i, lower); n in w && j < |w[n].children|
    ensures var w := Split(v, node, i, lower); LinkedTo(w, n, w[n].children[j])
  {
    hide Linked, Branching, Distinct, Covered;
    UpperPath(v, root, parent, node, i, lower);
    if n != node {
      var o: RadixNode := if n == lower then node else n;
      LinkAt(v, o, j);
      if v[o].children[j] == node {
        assert |v[o].fullpath| == |v[parent].fullpath|;
        assert v[o].fullpath == v[node].fullpath[..|v[parent].fullpath|] == v[parent].fullpath;
      }
    }
  }

  lemma SplitBranching(v: View, root: RadixNode, parent: RadixNode, node: RadixNode, i: nat, lower: RadixNode)
    requires Splits(v, root, parent, node, i, lower)
    requires i <= |v[node].path| <= |v[node].fullpath| && Linked(Split(v, node, i, lower))
    ensures Branching(Split(v, node, i, lower))
  {
    hide Linked, Distinct, Covered;
    var w := Split(v, node, i, lower);
    forall n, j: nat, k: nat | n in w && j < k < |w[n].children| ensures Differ(w, n, j, k) {
      var o: RadixNode := if n == lower then node else n;
      LinkAt(w, n, j);
      LinkAt(w, n, k);
      SiblingsDiffer(v, o, j, k);
      SameFirst(v, root, parent, node, i, lower, v[o].children[j]);
      SameFirst(v, root, parent, node, i, lower, v[o].children[k]);
    }
  }

  /** Splitting changes no node's first byte. */
  lemma SameFirst(v: View, root: RadixNode, parent: RadixNode, node: RadixNode, i: nat, lower: RadixNode, c: RadixNode)
    requires Splits(v, root, parent, node, i, lower) && i <= |v[node].path| <= |v[node].fullpath|
    requires c in v && v[c].path != []
    ensures var w := Split(v, node, i, lower); c in w && w[c].path != [] && w[c].path[0] == v[c].path[0]
  {
    hide Shape;
  }

  lemma SplitDistinct(v: View, root: RadixNode, parent: RadixNode, node: RadixNode, i: nat, lower: RadixNode)
    requires Splits(v, root, parent, node, i, lower)
    ensures i <= |v[node].path| <= |v[node].fullpath| && Distinct(Split(v, node, i, lower))
  {
    hide Linked, Branching, Covered;
    UpperPath(v, root, parent, node, i, lower);
    var w := Split(v, node, i, lower);
    forall m, n | m in w && n in w && w[m].fullpath == w[n].fullpath ensures m == n {
      hide Distinct;
      NotAtCut(v, root, parent, node, i, lower, if m == lower then node else m);
      NotAtCut(v, root, parent, node, i, lower, if n == lower then node else n);
      if m != node && n != node {
        SameNode(v, if m == lower then node else m, if n == lower then node else n);
      }
    }
  }

  /** No old node has the full path of the upper half. */
  lemma NotAtCut(v: View, root: RadixNode, parent: RadixNode, node: RadixNode, i: nat, lower: RadixNode, m: RadixNode)
    requires Splits(v, root, parent, node, i, lower) && m in v
    ensures i <= |v[node].path| <= |v[node].fullpath| && v[m].fullpath != Upper(v[node], i, lower).fullpath
  {
    hide Shape;
    UpperPath(v, root, parent, node, i, lower);
    if v[m].fullpath == Upper(v[node], i, lower).fullpath {
      Gap(v, root, parent, node, i, m);
    }
  }

  lemma SplitCovered(v: View, root: RadixNode, parent: RadixNode, node: RadixNode, i: nat, lower: RadixNode)
    requires Splits(v, root, parent, node, i, lower)
    ensures i <= |v[node].path| <= |v[node].fullpath| && Covered(Split(v, node, i, lower))
  {
    hide Linked, Branching, Distinct;
    UpperPath(v, root, parent, node, i, lower);
    var w := Split(v, node, i, lower);
    forall n, m | n in w && m in w && w[n].fullpath < w[m].fullpath ensures Leads(w, n, w[m].fullpath) {
      hide Shape;
      if n == node {
        if m != lower {
          Gap(v, root, parent, node, i, m);
        }
        assert w[n].children[0] == lower;
      } else {
        SplitLeads(v, root, parent, node, i, lower, n, m);
      }
    }
  }

  lemma SplitLeads(v: View, root: RadixNode, parent: RadixNode, node: RadixNode, i: nat, lower: RadixNode,
                   n: RadixNode, m: RadixNode)
    requires Splits(v, root, parent, node, i, lower) && i <= |v[node].path| <= |v[node].fullpath|
    requires var w := Split(v, node, i, lower); n in w && m in w && n != node && w[n].fullpath < w[m].fullpath
    ensures var w := Split(v, node, i, lower); Leads(w, n, w[m].fullpath)
  {
    hide Linked, Branching, Distinct, Covered;
    UpperPath(v, root, parent, node, i, lower);
    var w := Split(v, node, i, lower);
    var n0: RadixNode := if n == lower then node else n;
    var m0: RadixNode := if m == lower then node else m;
    assert w[n].fullpath == v[n0].fullpath && w[n].children == v[n0].children;
    assert w[m].fullpath <= v[m0].fullpath;
    var k := ChildTowards(v, n0, m0);
    var c := v[n0].children[k];
    assert w[n].children[k] == c;
    if m == node && c != node {
      // c ends before the cut, or it would have node below it
      Prefixes(v[c].fullpath, w[node].fullpath, v[node].fullpath);
      if w[node].fullpath <= v[c].fullpath {
        Gap(v, root, parent, node, i, c);
        SameNode(v, c, node);
      }
    }
    assert w[c].fullpath <= w[m].fullpath;
  }

  lemma Prefixes(a: Word, b: Word, w: Word)
    requires a <= w && b <= w
    ensures a <= b || b <= a
  {
  }

  lemma SplitShape(v: View, root: RadixNode, parent: RadixNode, node: RadixNode, i: nat, lower: RadixNode)
    requires Splits(v, root, parent, node, i, lower)
    ensures i <= |v[node].path| <= |v[node].fullpath| && Shape(Split(v, node, i, lower), root)
  {
    SplitLinked(v, root, parent, node, i, lower);
    SplitBranching(v, root, parent, node, i, lower);
    SplitDistinct(v, root, parent, node, i, lower);
    SplitCovered(v, root, parent, node, i, lower);
    hide *;
  }

  /** The words below the upper half are those below the old node. */
  lemma SplitSums(v: View, root: RadixNode, parent: RadixNode, node: RadixNode, i: nat, lower: RadixNode,
                  log: seq<KeySize>)
    requires Splits(v, root, parent, node, i, lower) && Marked(v, log)
    ensures i <= |v[node].path| <= |v[node].fullpath|
    ensures var p := Upper(v[node], i, lower).fullpath;
            && Count(log, p) == Count(log, v[node].fullpath) && Sum(log, p) == Sum(log, v[node].fullpath)
            && !Inserted(log, p)
  {
    hide Shape, Count, Sum;
    UpperPath(v, root, parent, node, i, lower);
    var p := Upper(v[node], i, lower).fullpath;
    forall k | 0 <= k < |log| ensures (p <= log[k].word <==> v[node].fullpath <= log[k].word) && log[k].word != p {
      assert HasNode(v, log[k].word);
      var m: RadixNode :| m in v && v[m].fullpath == log[k].word;
      if p <= log[k].word {
        Gap(v, root, parent, node, i, m);
      }
    }
    SameSums(log, p, v[node].fullpath);
  }

  lemma SplitMarked(v: View, root: RadixNode, parent: RadixNode, node: RadixNode, i: nat, lower: RadixNode,
                    log: seq<KeySize>)
    requires Splits(v, root, parent, node, i, lower) && Marked(v, log)
    ensures i <= |v[node].path| <= |v[node].fullpath| && Marked(Split(v, node, i, lower), log)
  {
    hide Shape, Inserted;
    SplitSums(v, root, parent, node, i, lower, log);
    var w := Split(v, node, i, lower);
    forall k | 0 <= k < |log| ensures HasNode(w, log[k].word) {
      assert HasNode(v, log[k].word);
      var m: RadixNode :| m in v && v[m].fullpath == log[k].word;
      var m': RadixNode := if m == node then lower else m;
      assert w[m'].fullpath == log[k].word;
    }
    forall n | n in w ensures w[n].end <==> Inserted(log, w[n].fullpath) {
    }
  }

  lemma SplitTallied(v: View, root: RadixNode, parent: RadixNode, node: RadixNode, i: nat, lower: RadixNode,
                     log: seq<KeySize>, item: KeySize, k: nat)
    requires Splits(v, root, parent, node, i, lower) && Marked(v, log) && Tallied(v, log, item, k)
    requires k <= |v[parent].fullpath| + 1
    ensures i <= |v[node].path| <= |v[node].fullpath| && Tallied(Split(v, node, i, lower), log, item, k)
  {
    hide Shape, Marked, Inserted, Count, Sum;
    UpperPath(v, root, parent, node, i, lower);
    SplitSums(v, root, parent, node, i, lower, log);
    var w := Split(v, node, i, lower);
    forall n | n in w ensures TallyOf(w[n], log, item, k) {
      assert TallyOf(v[if n == lower then node else n], log, item, k);
    }
  }

  lemma SplitCompact(v: View, root: RadixNode, parent: RadixNode, node: RadixNode, i: nat, lower: RadixNode)
    requires Splits(v, root, parent, node, i, lower) && Compact(v, root, {})
    ensures i <= |v[node].path| <= |v[node].fullpath| && Compact(Split(v, node, i, lower), root, {node})
  {
    hide Shape;
    UpperPath(v, root, parent, node, i, lower);
  }

  // ----- adding a leaf

  function LeafOf(word: Word, fullword: Word, size: int): Node
  {
    Node(word, true, [], size, 1, fullword)
  }

  function Adopt(v: View, node: RadixNode, leaf: RadixNode, word: Word, fullword: Word, size: int): View
    requires node in v
  {
    v[leaf := LeafOf(word, fullword, size)][node := v[node].(children := v[node].children + [leaf])]
  }

  /** No child of node starts like the rest of the word; the leaf object is new. */
  ghost predicate Adopts(v: View, root: RadixNode, node: RadixNode, leaf: RadixNode, word: Word, fullword: Word)
  {
    && Shape(v, root) && node in v && leaf !in v && word != [] && NoChild(v, node, word[0])
    && fullword == v[node].fullpath + word
  }

  lemma AdoptLinked(v: View, root: RadixNode, node: RadixNode, leaf: RadixNode, word: Word, fullword: Word, size: int)
    requires Adopts(v, root, node, leaf, word, fullword)
    ensures Linked(Adopt(v, node, leaf, word, fullword, size))
  {
    hide Linked, Branching, Distinct, Covered, NoChild;
    var w := Adopt(v, node, leaf, word, fullword, size);
    forall n, j: nat | n in w && j < |w[n].children| ensures LinkedTo(w, n, w[n].children[j]) {
      if n != leaf && j < |v[n].children| {
        LinkAt(v, n, j);
      }
    }
    AllLinked(w);
  }

  lemma AdoptBranching(v: View, root: RadixNode, node: RadixNode, leaf: RadixNode, word: Word, fullword: Word,
                       size: int)
    requires Adopts(v, root, node, leaf, word, fullword) && Linked(Adopt(v, node, leaf, word, fullword, size))
    ensures Branching(Adopt(v, node, leaf, word, fullword, size))
  {
    hide Linked, Distinct, Covered;
    var w := Adopt(v, node, leaf, word, fullword, size);
    forall n, j: nat, k: nat | n in w && j < k < |w[n].children| ensures Differ(w, n, j, k) {
      LinkAt(w, n, j);
      LinkAt(w, n, k);
      LinkAt(v, n, j);
      if k < |v[n].children| {
        SiblingsDiffer(v, n, j, k);
      }
    }
  }

  /** Nothing is at or below the new leaf's place. */
  lemma PlaceFree(v: View, root: RadixNode, node: RadixNode, leaf: RadixNode, word: Word, fullword: Word, m: RadixNode)
    requires Adopts(v, root, node, leaf, word, fullword) && m in v
    ensures !(fullword <= v[m].fullpath)
    ensures v[m].fullpath <= fullword ==> v[m].fullpath <= v[node].fullpath
  {
    hide Shape, NoChild;
    if v[node].fullpath < v[m].fullpath {
      NoneBelow(v, root, node, word[0], m);
      assert fullword[|v[node].fullpath|] == word[0];
    } else if v[m].fullpath <= fullword {
      Prefixes(v[m].fullpath, v[node].fullpath, fullword);
    }
  }

  lemma AdoptDistinct(v: View, root: RadixNode, node: RadixNode, leaf: RadixNode, word: Word, fullword: Word, size: int)
    requires Adopts(v, root, node, leaf, word, fullword)
    ensures Distinct(Adopt(v, node, leaf, word, fullword, size))
  {
    hide Linked, Branching, Covered, NoChild;
    forall m | m in v ensures v[m].fullpath != fullword {
      PlaceFree(v, root, node, leaf, word, fullword, m);
    }
  }

  lemma AdoptCovered(v: View, root: RadixNode, node: RadixNode, leaf: RadixNode, word: Word, fullword: Word, size: int)
    requires Adopts(v, root, node, leaf, word, fullword)
    ensures Covered(Adopt(v, node, leaf, word, fullword, size))
  {
    hide Linked, Branching, Distinct, NoChild;
    var w := Adopt(v, node, leaf, word, fullword, size);
    forall n, m | n in w && m in w && w[n].fullpath < w[m].fullpath ensures Leads(w, n, w[m].fullpath) {
      AdoptLeads(v, root, node, leaf, word, fullword, size, n, m);
    }
  }

  lemma AdoptLeads(v: View, root: RadixNode, node: RadixNode, leaf: RadixNode, word: Word, fullword: Word, size: int,
                   n: RadixNode, m: RadixNode)
    requires Adopts(v, root, node, leaf, word, fullword)
    requires var w := Adopt(v, node, leaf, word, fullword, size); n in w && m in w && w[n].fullpath < w[m].fullpath
    ensures var w := Adopt(v, node, leaf, word, fullword, size); Leads(w, n, w[m].fullpath)
  {
    hide Linked, Branching, Distinct, Covered, NoChild;
    var w := Adopt(v, node, leaf, word, fullword, size);
    if n == leaf {
      PlaceFree(v, root, node, leaf, word, fullword, m);
    } else if n == node && m == leaf {
      assert w[n].children[|v[n].children|] == leaf;
    } else {
      var m0: RadixNode := if m == leaf then node else m;
      PlaceFree(v, root, node, leaf, word, fullword, n);
      if m == leaf && v[n].fullpath == v[node].fullpath {
        SameNode(v, n, node);
      }
      assert v[n].fullpath < v[m0].fullpath && v[m0].fullpath <= w[m].fullpath;
      var k := ChildTowards(v, n, m0);
      assert w[n].children[k] == v[n].children[k];
    }
  }

  lemma AdoptShape(v: View, root: RadixNode, node: RadixNode, leaf: RadixNode, word: Word, fullword: Word, size: int)
    requires Adopts(v, root, node, leaf, word, fullword)
    ensures Shape(Adopt(v, node, leaf, word, fullword, size), root)
  {
    AdoptLinked(v, root, node, leaf, word, fullword, size);
    AdoptBranching(v, root, node, leaf, word, fullword, size);
    AdoptDistinct(v, root, node, leaf, word, fullword, size);
    AdoptCovered(v, root, node, leaf, word, fullword, size);
    hide Linked, Branching, Distinct, Covered, NoChild;
  }

  /** No inserted word lies at or below the new leaf's place. */
  lemma PlaceUnused(v: View, root: RadixNode, node: RadixNode, leaf: RadixNode, word: Word, fullword: Word,
                    log: seq<KeySize>)
    requires Adopts(v, root, node, leaf, word, fullword) && Marked(v, log)
    ensures Count(log, fullword) == 0 && Sum(log, fullword) == 0
  {
    hide Shape, NoChild, Count, Sum;
    forall k | 0 <= k < |log| ensures !(fullword <= log[k].word) {
      assert HasNode(v, log[k].word);
      var m: RadixNode :| m in v && v[m].fullpath == log[k].word;
      PlaceFree(v, root, node, leaf, word, fullword, m);
    }
    NoSums(log, fullword);
  }

  /** The walk ends with a leaf: the tree is good again, with one more item. */
  lemma AdoptGood(v: View, root: RadixNode, node: RadixNode, leaf: RadixNode, word: Word, log: seq<KeySize>,
                  item: KeySize)
    requires Adopts(v, root, node, leaf, word, item.word) && Marked(v, log)
    requires Tallied(v, log, item, |v[node].fullpath| + 1)
    requires Compact(v, root, {node}) && (node == root || v[node].end || v[node].children != [])
    ensures Good(Adopt(v, node, leaf, word, item.word, item.size), root, log + [item])
  {
    AdoptShape(v, root, node, leaf, word, item.word, item.size);
    AdoptMarked(v, root, node, leaf, word, log, item);
    AdoptSums(v, root, node, leaf, word, log, item);
    hide Shape, Marked, NoChild, Tallied, Sums;
  }

  lemma AdoptMarked(v: View, root: RadixNode, node: RadixNode, leaf: RadixNode, word: Word, log: seq<KeySize>,
                    item: KeySize)
    requires Adopts(v, root, node, leaf, word, item.word) && Marked(v, log)
    ensures Marked(Adopt(v, node, leaf, word, item.word, item.size), log + [item])
  {
    hide Shape, NoChild, Inserted;
    var w := Adopt(v, node, leaf, word, item.word, item.size);
    forall n | n in w ensures w[n].end <==> Inserted(log + [item], w[n].fullpath) {
      InsertedOneMore(log, item, w[n].fullpath);
      if n != leaf {
        PlaceFree(v, root, node, leaf, word, item.word, n);
      }
    }
    MarkedOneMore(v, w, log, item, leaf);
  }

  /** Nodes are never lost and the new word has one. */
  lemma MarkedOneMore(v: View, w: View, log: seq<KeySize>, item: KeySize, last: RadixNode)
    requires Marked(v, log) && last in w && w[last].fullpath == item.word
    requires forall n :: n in v ==> n in w && w[n].fullpath == v[n].fullpath
    ensures forall i :: 0 <= i < |log| + 1 ==> HasNode(w, (log + [item])[i].word)
  {
    forall i | 0 <= i < |log| + 1 ensures HasNode(w, (log + [item])[i].word) {
      if i < |log| {
        assert HasNode(v, log[i].word);
      }
    }
  }

  lemma AdoptSums(v: View, root: RadixNode, node: RadixNode, leaf: RadixNode, word: Word, log: seq<KeySize>,
                  item: KeySize)
    requires Adopts(v, root, node, leaf, word, item.word) && Marked(v, log)
    requires Tallied(v, log, item, |v[node].fullpath| + 1)
    ensures Sums(Adopt(v, node, leaf, word, item.word, item.size), log + [item])
  {
    hide Shape, Marked, NoChild, Count, Sum;
    var w := Adopt(v, node, leaf, word, item.word, item.size);
    forall n | n in w
      ensures w[n].keyCount == Count(log + [item], w[n].fullpath) && w[n].totalSize == Sum(log + [item], w[n].fullpath)
    {
      OneMore(log, item, w[n].fullpath);
      if n == leaf {
        PlaceUnused(v, root, node, leaf, word, item.word, log);
      } else {
        PlaceFree(v, root, node, leaf, word, item.word, n);
        assert TallyOf(v[n], log, item, |v[node].fullpath| + 1);
      }
    }
  }

  // ----- counting a node, and ending on one

  function Bump(v: View, node: RadixNode, size: int): View
    requires node in v
  {
    v[node := v[node].(totalSize := v[node].totalSize + size, keyCount := v[node].keyCount + 1)]
  }

  function Finish(v: View, node: RadixNode): View
    requires node in v
  {
    v[node := v[node].(end := true)]
  }

  /** Paths and children are what the shape depends on. */
  ghost predicate SamePaths(v: View, w: View)
  {
    v.Keys == w.Keys &&
    forall n :: n in v ==> w[n].path == v[n].path && w[n].children == v[n].children && w[n].fullpath == v[n].fullpath
  }

  lemma ShapeKept(v: View, w: View, root: RadixNode)
    requires Shape(v, root) && SamePaths(v, w)
    ensures Shape(w, root)
  {
    hide Linked, Branching, Distinct, Covered;
    forall n, j: nat | n in w && j < |w[n].children| ensures LinkedTo(w, n, w[n].children[j]) {
      LinkAt(v, n, j);
    }
    AllLinked(w);
    BranchingKept(v, w);
    CoverKept(v, w);
    DistinctKept(v, w);
  }

  lemma BranchingKept(v: View, w: View)
    requires Linked(v) && Branching(v) && SamePaths(v, w)
    ensures Branching(w)
  {
    hide Linked;
    forall n, j: nat, k: nat | n in w && j < k < |w[n].children| ensures Differ(w, n, j, k) {
      SiblingsDiffer(v, n, j, k);
    }
  }

  lemma CoverKept(v: View, w: View)
    requires Linked(v) && Covered(v) && SamePaths(v, w)
    ensures Covered(w)
  {
    hide Linked;
    forall n, m | n in w && m in w && w[n].fullpath < w[m].fullpath ensures Leads(w, n, w[m].fullpath) {
      var k := ChildTowards(v, n, m);
      assert w[n].children[k] == v[n].children[k];
    }
  }

  lemma DistinctKept(v: View, w: View)
    requires Distinct(v) && SamePaths(v, w)
    ensures Distinct(w)
  {
  }

  /** Counting the node the walk stands on moves the mark from above it to below it. */
  lemma BumpTallied(v: View, root: RadixNode, parent: RadixNode, node: RadixNode, word: Word, log: seq<KeySize>,
                    item: KeySize)
    requires Shape(v, root) && Standing(v, root, parent, node, item.word, word) && v[node].fullpath <= item.word
    requires Tallied(v, log, item, Depth(v, root, parent, node))
    ensures Tallied(Bump(v, node, item.size), log, item, |v[node].fullpath| + 1)
  {
    hide Shape, Count, Sum;
    var w := Bump(v, node, item.size);
    var k := Depth(v, root, parent, node);
    DepthBound(v, root, parent, node, item.word, word);
    forall n | n in w ensures TallyOf(w[n], log, item, |v[node].fullpath| + 1) {
      assert TallyOf(v[n], log, item, k);
      if n != node && v[n].fullpath <= item.word && |v[n].fullpath| >= k {
        OnTheWay(v, root, parent, node, item.word, word, n);
        if |v[n].fullpath| <= |v[node].fullpath| {
          NodeAt(v, root, n, node);
        }
      }
    }
  }

  lemma NodeAt(v: View, root: RadixNode, m: RadixNode, n: RadixNode)
    requires Shape(v, root) && m in v && n in v && v[n].fullpath <= v[m].fullpath && |v[m].fullpath| <= |v[n].fullpath|
    ensures m == n
  {
    hide Linked, Branching, Distinct, Covered;
    SameNode(v, m, n);
  }

  lemma DepthBound(v: View, root: RadixNode, parent: RadixNode, node: RadixNode, fullword: Word, word: Word)
    requires Shape(v, root) && Standing(v, root, parent, node, fullword, word)
    ensures Depth(v, root, parent, node) <= |v[node].fullpath|
    ensures node != root ==> |v[node].fullpath| == |v[parent].fullpath| + |v[node].path|
  {
    hide Linked, Branching, Distinct, Covered;
  }

  /** The walk ends on a node: the tree is good again, with one more item. */
  lemma FinishGood(v: View, root: RadixNode, node: RadixNode, log: seq<KeySize>, item: KeySize)
    requires Shape(v, root) && node in v && v[node].fullpath == item.word && Marked(v, log)
    requires Compact(v, root, {node}) && Tallied(v, log, item, |v[node].fullpath| + 1)
    ensures Good(Finish(v, node), root, log + [item])
  {
    hide Shape, Marked, Tallied, Sums;
    ShapeKept(v, Finish(v, node), root);
    FinishMarked(v, root, node, log, item);
    FinishSums(v, root, node, log, item);
  }

  lemma FinishMarked(v: View, root: RadixNode, node: RadixNode, log: seq<KeySize>, item: KeySize)
    requires Shape(v, root) && node in v && v[node].fullpath == item.word && Marked(v, log)
    ensures Marked(Finish(v, node), log + [item])
  {
    hide Shape, Inserted;
    var w := Finish(v, node);
    forall n | n in w ensures w[n].end <==> Inserted(log + [item], w[n].fullpath) {
      InsertedOneMore(log, item, w[n].fullpath);
      if n != node && v[n].fullpath == item.word {
        NodeAt(v, root, n, node);
      }
    }
    MarkedOneMore(v, w, log, item, node);
  }

  lemma FinishSums(v: View, root: RadixNode, node: RadixNode, log: seq<KeySize>, item: KeySize)
    requires node in v && v[node].fullpath == item.word && Tallied(v, log, item, |v[node].fullpath| + 1)
    ensures Sums(Finish(v, node), log + [item])
  {
    hide Count, Sum;
    var w := Finish(v, node);
    forall n | n in w
      ensures w[n].keyCount == Count(log + [item], w[n].fullpath) && w[n].totalSize == Sum(log + [item], w[n].fullpath)
    {
      OneMore(log, item, w[n].fullpath);
      assert TallyOf(v[n], log, item, |v[node].fullpath| + 1);
    }
  }

  lemma MarkedKept(v: View, w: View, log: seq<KeySize>)
    requires Marked(v, log) && SamePaths(v, w) && forall n :: n in v ==> w[n].end == v[n].end
    ensures Marked(w, log)
  {
    hide Inserted;
    forall i | 0 <= i < |log| ensures HasNode(w, log[i].word) {
      assert HasNode(v, log[i].word);
    }
  }

  // ----- one turn of the walk

  /** The state at the head of the walk. */
  ghost predicate Walking(v: View, root: RadixNode, parent: RadixNode, node: RadixNode, word: Word, log: seq<KeySize>,
                          item: KeySize)
  {
    && Shape(v, root) && Compact(v, root, {}) && Marked(v, log)
    && Standing(v, root, parent, node, item.word, word)
    && Tallied(v, log, item, Depth(v, root, parent, node))
  }

  /** i bytes of word and the node's path agree, and no more. */
  ghost predicate Agree(word: Word, path: Word, i: nat)
  {
    && i <= |word| && i <= |path| && word[..i] == path[..i]
    && (i < |word| && i < |path| ==> word[i] != path[i])
  }

  /** The node after the split, if one is due, and after counting. */
  ghost function Arrived(v: View, node: RadixNode, i: nat, lower: RadixNode, size: int): View
    requires node in v && i <= |v[node].path| <= |v[node].fullpath|
  {
    Bump(if i < |v[node].path| then Split(v, node, i, lower) else v, node, size)
  }

  /** The state after the node is counted, with some of the word left. */
  ghost predicate Ready(v: View, root: RadixNode, node: RadixNode, rest: Word, log: seq<KeySize>, item: KeySize)
  {
    && Shape(v, root) && node in v && Compact(v, root, {node}) && Marked(v, log)
    && Tallied(v, log, item, |v[node].fullpath| + 1) && v[node].fullpath + rest == item.word
    && (node == root || v[node].end || v[node].children != [])
  }

  lemma PathInFull(v: View, root: RadixNode, parent: RadixNode, node: RadixNode, word: Word, log: seq<KeySize>,
                   item: KeySize)
    requires Walking(v, root, parent, node, word, log, item)
    ensures |v[node].path| <= |v[node].fullpath| && (node == root ==> v[node].path == [] == v[node].fullpath)
    ensures node != root ==> v[node].path != [] && word != [] && v[node].path[0] == word[0]
    ensures node != root ==>
              v[node].fullpath == v[parent].fullpath + v[node].path && item.word == v[parent].fullpath + word
  {
    hide Linked, Branching, Distinct, Covered, Compact, Marked, Tallied;
  }

  lemma ArriveWhole(v: View, root: RadixNode, parent: RadixNode, node: RadixNode, word: Word, log: seq<KeySize>,
                    item: KeySize)
    requires Walking(v, root, parent, node, word, log, item) && Agree(word, v[node].path, |v[node].path|)
    ensures Ready(Bump(v, node, item.size), root, node, word[|v[node].path|..], log, item)
    ensures Compact(Bump(v, node, item.size), root, {})
  {
    hide Shape, Marked, Tallied, Compact, SamePaths;
    PathInFull(v, root, parent, node, word, log, item);
    var i := |v[node].path|;
    var w := Bump(v, node, item.size);
    Rejoin(if node == root then [] else v[parent].fullpath, v[node].path, i, word);
    assert v[node].path[..i] == v[node].path;
    BumpTallied(v, root, parent, node, word, log, item);
    BumpKeeps(v, node, item.size);
    ShapeKept(v, w, root);
    MarkedKept(v, w, log);
    CompactKept(v, w, root, {});
    CompactAt(w, root, node);
  }

  lemma Rejoin(base: Word, path: Word, i: nat, word: Word)
    requires i <= |path| && i <= |word| && word[..i] == path[..i]
    ensures (base + path[..i]) + word[i..] == base + word
    ensures base + path[..i] <= base + word && [] + word == word && [] + path == path
  {
    assert word == word[..i] + word[i..];
  }

  lemma BumpKeeps(v: View, node: RadixNode, size: int)
    requires node in v
    ensures SamePaths(v, Bump(v, node, size))
    ensures forall n :: n in v ==> Bump(v, node, size)[n].end == v[n].end
  {
  }

  lemma CompactAt(v: View, root: RadixNode, node: RadixNode)
    requires Compact(v, root, {}) && node in v
    ensures Compact(v, root, {node}) && (node == root || v[node].end || v[node].children != [])
  {
  }

  lemma ArriveSplit(v: View, root: RadixNode, parent: RadixNode, node: RadixNode, word: Word, log: seq<KeySize>,
                    item: KeySize, i: nat, lower: RadixNode)
    requires Walking(v, root, parent, node, word, log, item) && Agree(word, v[node].path, i)
    requires i < |v[node].path| && lower !in v
    ensures i <= |v[node].path| <= |v[node].fullpath|
    ensures var w := Bump(Split(v, node, i, lower), node, item.size);
            Ready(w, root, node, word[i..], log, item) && w[node].children == [lower]
  {
    hide Shape, Marked, Tallied, Compact, SamePaths;
    PathInFull(v, root, parent, node, word, log, item);
    assert i > 0;
    var u := Split(v, node, i, lower);
    var w := Bump(u, node, item.size);
    UpperPath(v, root, parent, node, i, lower);
    SplitShape(v, root, parent, node, i, lower);
    SplitMarked(v, root, parent, node, i, lower, log);
    SplitTallied(v, root, parent, node, i, lower, log, item, Depth(v, root, parent, node));
    SplitCompact(v, root, parent, node, i, lower);
    ParentStays(v, root, parent, node);
    Rejoin(v[parent].fullpath, v[node].path, i, word);
    assert Standing(u, root, parent, node, item.word, word);
    BumpTallied(u, root, parent, node, word, log, item);
    BumpKeeps(u, node, item.size);
    ShapeKept(u, w, root);
    MarkedKept(u, w, log);
    CompactKept(u, w, root, {node});
  }

  lemma ParentStays(v: View, root: RadixNode, parent: RadixNode, node: RadixNode)
    requires Shape(v, root) && parent in v && node in v && LinkedTo(v, parent, node)
    ensures parent != node
  {
    hide Linked, Branching, Distinct, Covered;
  }

  lemma CompactKept(v: View, w: View, root: RadixNode, except: set<RadixNode>)
    requires Compact(v, root, except) && SamePaths(v, w) && forall n :: n in v ==> w[n].end == v[n].end
    ensures Compact(w, root, except)
  {
  }

  lemma Arrive(v: View, root: RadixNode, parent: RadixNode, node: RadixNode, word: Word, log: seq<KeySize>,
               item: KeySize, i: nat, lower: RadixNode)
    requires Walking(v, root, parent, node, word, log, item) && Agree(word, v[node].path, i)
    requires i < |v[node].path| ==> lower !in v
    ensures |v[node].path| <= |v[node].fullpath|
    ensures Ready(Arrived(v, node, i, lower, item.size), root, node, word[i..], log, item)
    ensures i == |v[node].path| ==> Compact(Arrived(v, node, i, lower, item.size), root, {})
    ensures i < |v[node].path| ==> Arrived(v, node, i, lower, item.size)[node].children == [lower]
  {
    PathInFull(v, root, parent, node, word, log, item);
    hide Walking, Ready, Compact;
    if i < |v[node].path| {
      ArriveSplit(v, root, parent, node, word, log, item, i, lower);
    } else {
      ArriveWhole(v, root, parent, node, word, log, item);
    }
  }

  /** Going on to a child. */
  lemma WalkOn(v: View, root: RadixNode, node: RadixNode, child: RadixNode, rest: Word, log: seq<KeySize>,
               item: KeySize)
    requires Ready(v, root, node, rest, log, item) && Compact(v, root, {})
    requires child in v[node].children && child in v && rest != [] && v[child].path != [] && v[child].path[0] == rest[0]
    ensures Walking(v, root, node, child, rest, log, item) && child != root
  {
    hide Linked, Branching, Distinct, Covered, Compact, Marked, Tallied;
    var k :| 0 <= k < |v[node].children| && v[node].children[k] == child;
    LinkAt(v, node, k);
  }

  // ----- the ends of the walk

  lemma EmptyGood(v: View, root: RadixNode)
    requires v.Keys == {root} && v[root] == Node([], false, [], 0, 0, [])
    ensures Good(v, root, [])
  {
  }

  lemma Enter(v: View, root: RadixNode, log: seq<KeySize>, item: KeySize)
    requires Good(v, root, log)
    ensures root in v && Walking(v, root, root, root, item.word, log, item)
  {
    hide Linked, Branching, Distinct, Covered, Compact, Marked, Count, Sum;
  }

  lemma AgreeBounds(word: Word, path: Word, i: nat)
    requires Agree(word, path, i)
    ensures i <= |word| && i <= |path|
  {
  }

  lemma ReadyEnds(v: View, root: RadixNode, node: RadixNode, log: seq<KeySize>, item: KeySize)
    requires Ready(v, root, node, [], log, item)
    ensures node in v && Good(Finish(v, node), root, log + [item])
  {
    hide Shape, Compact, Marked, Tallied, Good;
    assert v[node].fullpath + [] == v[node].fullpath;
    FinishGood(v, root, node, log, item);
  }

  lemma ReadyLinked(v: View, root: RadixNode, node: RadixNode, rest: Word, log: seq<KeySize>, item: KeySize)
    requires Ready(v, root, node, rest, log, item)
    ensures node in v && Linked(v)
  {
    hide Linked, Branching, Distinct, Covered, Compact, Marked, Tallied;
  }

  lemma ReadyAdopts(v: View, root: RadixNode, node: RadixNode, leaf: RadixNode, rest: Word, log: seq<KeySize>,
                    item: KeySize)
    requires Ready(v, root, node, rest, log, item) && rest != [] && leaf !in v
    requires node in v && NoChild(v, node, rest[0])
    ensures Good(Adopt(v, node, leaf, rest, item.word, item.size), root, log + [item])
  {
    hide Shape, Compact, Marked, Tallied, Good, NoChild;
    AdoptGood(v, root, node, leaf, rest, log, item);
  }

  /** After a split no child starts like the rest of the word. */
  lemma SplitNoChild(before: View, v: View, node: RadixNode, i: nat, lower: RadixNode, word: Word, size: int)
    requires node in before && i < |before[node].path| <= |before[node].fullpath| && lower !in before
    requires v == Arrived(before, node, i, lower, size)
    requires i < |word| && Agree(word, before[node].path, i)
    ensures NoChild(v, node, word[i])
  {
    assert v[node].children == [lower] && v[lower].path == before[node].path[i..];
  }

  lemma ChildFound(v: View, node: RadixNode, child: RadixNode, b: byte)
    requires node in v && child in v && child in v[node].children && v[child].path != [] && v[child].path[0] == b
    ensures !NoChild(v, node, b)
  {
    var j :| 0 <= j < |v[node].children| && v[node].children[j] == child;
  }
}
