/** The element tree of any accepted text: what the sibling and child links of the parser's arena say, whatever
    the text looked like. */
module XmlElements {
  import opened Words
  import opened XmlParser
  import opened XmlTree
  import opened XmlArena

  // ---------------------------------------------------------------- links agree with parents

  predicate IsKid(nodes: seq<Node>, k: nat, j: nat)
    requires j < |nodes|
  {
    nodes[j].parent == At(k)
  }

  predicate NoKidIn(nodes: seq<Node>, k: nat, lo: nat, hi: nat)
    requires hi <= |nodes|
  {
    forall j :: lo <= j < hi ==> !IsKid(nodes, k, j)
  }

  predicate IsFirstKid(nodes: seq<Node>, k: nat, j: nat) { j < |nodes| && IsKid(nodes, k, j) && NoKidIn(nodes, k, 0, j) }

  predicate IsLastKid(nodes: seq<Node>, k: nat, j: nat) { j < |nodes| && IsKid(nodes, k, j) && NoKidIn(nodes, k, j + 1, |nodes|) }

  /** The first-child link names the oldest child, the last-child link the youngest. */
  predicate EndsOk(nodes: seq<Node>, k: nat)
    requires k < |nodes|
  {
    var first, last := nodes[k].childStart, nodes[k].childEnd;
    && (first.Null? ==> last.Null? && NoKidIn(nodes, k, 0, |nodes|))
    && (first.At? ==> last.At? && IsFirstKid(nodes, k, first.i) && IsLastKid(nodes, k, last.i))
  }

  /** The sibling link names the next child of the same parent. */
  predicate NextOk(nodes: seq<Node>, j: nat)
    requires j < |nodes|
  {
    var right, parent := nodes[j].right, nodes[j].parent;
    if parent.Null? then right.Null?
    else if right.Null? then NoKidIn(nodes, parent.i, j + 1, |nodes|)
    else j < right.i < |nodes| && IsKid(nodes, parent.i, right.i) && NoKidIn(nodes, parent.i, j + 1, right.i)
  }

  /** Node 0 is the only one without a parent, and all links agree with the parents. */
  ghost predicate Tidy(nodes: seq<Node>) {
    forall k :: 0 <= k < |nodes| ==> (nodes[k].parent.Null? <==> k == 0) && EndsOk(nodes, k) && NextOk(nodes, k)
  }

  ghost predicate TidyParser(p: Parser) {
    Tidy(p.nodes) && Rising(p.nodes) && (p.parent.Null? <==> p.nodes == [])
  }

  /** The arena with one node more, link by link. */
  ghost predicate Grown(nodes: seq<Node>, grown: seq<Node>, parent: Ptr) {
    && |grown| == |nodes| + 1 && (parent.At? ==> parent.i < |nodes|)
    && grown[|nodes|].parent == parent && grown[|nodes|].right == Null
    && grown[|nodes|].childStart == Null && grown[|nodes|].childEnd == Null
    && forall k :: 0 <= k < |nodes| ==> GrownNode(nodes, grown[k], parent, k)
  }

  predicate GrownNode(nodes: seq<Node>, node: Node, parent: Ptr, k: nat)
    requires k < |nodes| && (parent.At? ==> parent.i < |nodes|)
  {
    && node.parent == nodes[k].parent
    && node.childStart == (if parent == At(k) && nodes[k].childStart.Null? then At(|nodes|) else nodes[k].childStart)
    && node.childEnd == (if parent == At(k) then At(|nodes|) else nodes[k].childEnd)
    && node.right == (if parent.At? && nodes[parent.i].childStart.At? && nodes[parent.i].childEnd == At(k) then At(|nodes|) else nodes[k].right)
  }

  lemma AddNodeGrows(nodes: seq<Node>, parent: Ptr, tag: nat)
    requires Linked(nodes) && InArena(nodes, parent)
    ensures Grown(nodes, AddNode(nodes, parent, tag), parent)
  {}

  lemma NoKidGrown(nodes: seq<Node>, grown: seq<Node>, parent: Ptr, k: nat, lo: nat, hi: nat)
    requires Grown(nodes, grown, parent) && lo <= hi <= |nodes|
    ensures NoKidIn(grown, k, lo, hi) <==> NoKidIn(nodes, k, lo, hi)
    ensures NoKidIn(grown, k, lo, |grown|) <==> NoKidIn(nodes, k, lo, |nodes|) && parent != At(k)
  {
    assert forall j :: 0 <= j < |nodes| ==> GrownNode(nodes, grown[j], parent, j);
    if parent == At(k) { assert IsKid(grown, k, |nodes|); }
    forall j | 0 <= j < |nodes|
      ensures IsKid(grown, k, j) <==> IsKid(nodes, k, j)
    {}
  }

  lemma EndsGrown(nodes: seq<Node>, grown: seq<Node>, parent: Ptr, k: nat)
    requires Grown(nodes, grown, parent) && k < |nodes| && EndsOk(nodes, k)
    ensures EndsOk(grown, k)
  {
    hide NoKidIn, Grown;
    GrownAt(nodes, grown, parent, k);
    NoKidGrown(nodes, grown, parent, k, 0, |nodes|);
    NothingBehind(grown, k);
    var first, last := nodes[k].childStart, nodes[k].childEnd;
    if first.At? {
      NoKidGrown(nodes, grown, parent, k, 0, first.i);
      NoKidGrown(nodes, grown, parent, k, last.i + 1, |nodes|);
      GrownAt(nodes, grown, parent, first.i);
      GrownAt(nodes, grown, parent, last.i);
    }
  }

  lemma GrownAt(nodes: seq<Node>, grown: seq<Node>, parent: Ptr, k: nat)
    requires Grown(nodes, grown, parent) && k < |nodes|
    ensures |grown| == |nodes| + 1 && grown[|nodes|].parent == parent && (parent.At? ==> parent.i < |nodes|)
    ensures GrownNode(nodes, grown[k], parent, k)
  {}

  lemma NothingBehind(nodes: seq<Node>, k: nat)
    ensures NoKidIn(nodes, k, |nodes|, |nodes|)
  {}

  lemma NextGrown(nodes: seq<Node>, grown: seq<Node>, parent: Ptr, j: nat)
    requires Grown(nodes, grown, parent) && Tidy(nodes) && j < |nodes|
    ensures NextOk(grown, j)
  {
    hide NoKidIn;
    assert NextOk(nodes, j) && GrownNode(nodes, grown[j], parent, j);
    var right, above := nodes[j].right, nodes[j].parent;
    if above.At? {
      NoKidGrown(nodes, grown, parent, above.i, j + 1, |nodes|);
      if right.At? {
        NoKidGrown(nodes, grown, parent, above.i, j + 1, right.i);
        assert GrownNode(nodes, grown[right.i], parent, right.i);
      }
    }
    if parent.At? { LastIsUnique(nodes, parent.i, j); }
  }

  /** The last child of a node is the child without a right sibling. */
  lemma LastIsUnique(nodes: seq<Node>, k: nat, j: nat)
    requires Tidy(nodes) && k < |nodes| && j < |nodes|
    ensures nodes[k].childStart.At? && nodes[k].childEnd == At(j) <==> IsKid(nodes, k, j) && nodes[j].right.Null?
  {
    assert EndsOk(nodes, k) && NextOk(nodes, j);
    if nodes[k].childEnd.At? { assert NextOk(nodes, nodes[k].childEnd.i); }
  }

  /** Hanging a new node below the open element keeps links and parents in agreement. */
  lemma AddNodeTidy(nodes: seq<Node>, parent: Ptr, tag: nat)
    requires Linked(nodes) && InArena(nodes, parent) && Rising(nodes) && Tidy(nodes) && (parent.Null? <==> nodes == [])
    ensures Tidy(AddNode(nodes, parent, tag))
  {
    hide Linked, AddNode, EndsOk, NextOk;
    var n, grown := |nodes|, AddNode(nodes, parent, tag);
    AddNodeGrows(nodes, parent, tag);
    forall k | 0 <= k < n
      ensures (grown[k].parent.Null? <==> k == 0) && EndsOk(grown, k) && NextOk(grown, k)
    {
      assert GrownNode(nodes, grown[k], parent, k);
      assert EndsOk(nodes, k);
      EndsGrown(nodes, grown, parent, k);
      NextGrown(nodes, grown, parent, k);
    }
    NewestTidy(nodes, grown, parent);
  }

  lemma NewestTidy(nodes: seq<Node>, grown: seq<Node>, parent: Ptr)
    requires Grown(nodes, grown, parent) && Rising(nodes)
    ensures EndsOk(grown, |nodes|) && NextOk(grown, |nodes|)
  {
    forall j | 0 <= j < |grown|
      ensures !IsKid(grown, |nodes|, j)
    {
      assert j < |nodes| ==> GrownNode(nodes, grown[j], parent, j);
    }
  }

  lemma SameLinksTidy(nodes: seq<Node>, other: seq<Node>)
    requires Tidy(nodes) && |nodes| == |other|
    requires forall k :: 0 <= k < |nodes| ==> other[k] == nodes[k].(content := other[k].content)
    ensures Tidy(other)
  {
    hide NoKidIn;
    SameNoKid(nodes, other);
    forall k | 0 <= k < |nodes|
      ensures EndsOk(other, k) && NextOk(other, k)
    {
      assert EndsOk(nodes, k) && NextOk(nodes, k);
    }
  }

  lemma SameNoKid(nodes: seq<Node>, other: seq<Node>)
    requires |nodes| == |other| && forall k :: 0 <= k < |nodes| ==> other[k].parent == nodes[k].parent
    ensures forall k: nat, lo: nat, hi: nat :: hi <= |nodes| ==> NoKidIn(other, k, lo, hi) == NoKidIn(nodes, k, lo, hi)
  {
    assert forall k: nat, j: nat :: j < |nodes| ==> IsKid(other, k, j) == IsKid(nodes, k, j);
  }

  lemma OpenTidy(p: Parser)
    requires WellFormed(p) && p.index < |p.src| && TidyParser(p) && Open(p).Go?
    ensures TidyParser(Open(p).p)
  {
    hide Cut, CStr, LinkKid, Linked, Tidy, Rising;
    AddNodeTidy(p.nodes, p.parent, p.index + 1);
    LinkKidRises(p.nodes, p.parent, p.index + 1);
  }

  lemma CloseTidy(p: Parser)
    requires WellFormed(p) && p.index + 2 <= |p.src| && TidyParser(p) && Close(p).Go?
    ensures TidyParser(Close(p).p)
  {
    hide Cut, CStr, LinkKid, Linked, Tidy, Rising;
    CloseRises(p);
    SameLinksTidy(p.nodes, Close(p).p.nodes);
  }

  /** Every text the parser accepts leaves a tidy arena. */
  lemma {:induction false} RunTidy(p: Parser)
    requires WellFormed(p) && TidyParser(p) && Run(p).Go?
    ensures TidyParser(Run(p).p)
    decreases if p.index < |p.src| then |p.src| - p.index else 0
  {
    hide Open, Close, Linked, Tidy, Rising;
    if p.index < |p.src| {
      if p.src[p.index] == '<' && Ch(p.src, p.index + 1) == '/' {
        CloseTidy(p);
      } else if p.src[p.index] == '<' && Ch(p.src, p.index + 1) != '?' {
        OpenTidy(p);
      }
      RunTidy(Step(p).p);
    }
  }

  // ---------------------------------------------------------------- children

  /** The indices of a node and its right siblings. */
  function Siblings(nodes: seq<Node>, p: Ptr): (r: seq<nat>)
    requires Rising(nodes) && InArena(nodes, p)
    ensures forall k :: 0 <= k < |r| ==> r[k] < |nodes|
    decreases if p.At? then |nodes| - p.i else 0
  {
    if p.Null? then []
    else
      assert Forward(nodes, p.i, nodes[p.i].right);
      [p.i] + Siblings(nodes, nodes[p.i].right)
  }

  /** The nodes from i on whose parent is k, oldest first. */
  function KidsFrom(nodes: seq<Node>, k: nat, i: nat): (r: seq<nat>)
    requires i <= |nodes|
    ensures forall j :: 0 <= j < |r| ==> i <= r[j] < |nodes| && IsKid(nodes, k, r[j])
    ensures forall a, b :: 0 <= a < b < |r| ==> r[a] < r[b]
    ensures forall j :: i <= j < |nodes| && IsKid(nodes, k, j) ==> j in r
    decreases |nodes| - i
  {
    if i == |nodes| then []
    else (if IsKid(nodes, k, i) then [i] else []) + KidsFrom(nodes, k, i + 1)
  }

  lemma {:induction false} KidsFromSkips(nodes: seq<Node>, k: nat, i: nat, j: nat)
    requires i <= j <= |nodes| && NoKidIn(nodes, k, i, j)
    ensures KidsFrom(nodes, k, i) == KidsFrom(nodes, k, j)
    decreases j - i
  {
    if i < j {
      assert !IsKid(nodes, k, i);
      KidsFromSkips(nodes, k, i + 1, j);
    }
  }

  lemma {:induction false} SiblingsAreKids(nodes: seq<Node>, k: nat, j: nat)
    requires Rising(nodes) && Tidy(nodes) && j < |nodes| && IsKid(nodes, k, j)
    ensures Siblings(nodes, At(j)) == KidsFrom(nodes, k, j)
    decreases |nodes| - j
  {
    hide Siblings, KidsFrom, NoKidIn;
    NextKid(nodes, k, j);
    var right := nodes[j].right;
    KidsFromSkips(nodes, k, j + 1, if right.At? then right.i else |nodes|);
    KidsFromKid(nodes, k, j);
    SiblingsStep(nodes, j);
    if right.At? {
      SiblingsAreKids(nodes, k, right.i);
    } else {
      ListsEnd(nodes, k);
    }
  }

  lemma NextKid(nodes: seq<Node>, k: nat, j: nat)
    requires Rising(nodes) && Tidy(nodes) && j < |nodes| && IsKid(nodes, k, j)
    ensures var right := nodes[j].right;
      && (right.At? ==> j < right.i < |nodes| && IsKid(nodes, k, right.i))
      && NoKidIn(nodes, k, j + 1, if right.At? then right.i else |nodes|)
  {
    assert NextOk(nodes, j);
  }

  lemma KidsFromKid(nodes: seq<Node>, k: nat, j: nat)
    requires j < |nodes| && IsKid(nodes, k, j)
    ensures KidsFrom(nodes, k, j) == [j] + KidsFrom(nodes, k, j + 1)
  {}

  lemma SiblingsStep(nodes: seq<Node>, j: nat)
    requires Rising(nodes) && j < |nodes|
    ensures InArena(nodes, nodes[j].right) && Siblings(nodes, At(j)) == [j] + Siblings(nodes, nodes[j].right)
  {
    assert Forward(nodes, j, nodes[j].right);
  }

  lemma ListsEnd(nodes: seq<Node>, k: nat)
    requires Rising(nodes)
    ensures Siblings(nodes, Null) == [] == KidsFrom(nodes, k, |nodes|)
  {
  }

  /** The child list of a node: exactly the nodes whose parent it is, each once and oldest first, and its
      last-child link names the last of them. */
  lemma ChildListExact(nodes: seq<Node>, k: nat)
    requires Rising(nodes) && Tidy(nodes) && k < |nodes|
    ensures InArena(nodes, nodes[k].childStart)
    ensures var kids := Siblings(nodes, nodes[k].childStart);
      && kids == KidsFrom(nodes, k, 0)
      && nodes[k].childEnd == if kids == [] then Null else At(kids[|kids| - 1])
  {
    assert Forward(nodes, k, nodes[k].childStart) && EndsOk(nodes, k);
    var first, last := nodes[k].childStart, nodes[k].childEnd;
    var kids := KidsFrom(nodes, k, 0);
    if first.Null? {
      KidsFromSkips(nodes, k, 0, |nodes|);
    } else {
      KidsFromSkips(nodes, k, 0, first.i);
      SiblingsAreKids(nodes, k, first.i);
      assert last.i in kids && kids[|kids| - 1] >= last.i;
    }
  }

  /** Where `x` stands in a list. */
  function Places(s: seq<nat>, x: nat): set<nat> { set i | 0 <= i < |s| && s[i] == x }

  /** Whatever text was accepted: every node but the first stands exactly once among the children of its
      parent, and among the children of no other node. */
  lemma AcceptedChildren(src: seq<char>, j: nat)
    requires Run(Start(src)).Go? && 0 < j < |Run(Start(src)).p.nodes|
    ensures var nodes := Run(Start(src)).p.nodes;
      && Rising(nodes) && nodes[j].parent.At? && nodes[j].parent.i < j
      && forall k :: 0 <= k < |nodes| ==>
        InArena(nodes, nodes[k].childStart)
        && |Places(Siblings(nodes, nodes[k].childStart), j)| == if nodes[j].parent == At(k) then 1 else 0
  {
    hide Run, Rising, Tidy, Siblings;
    StartTidy(src);
    RunTidy(Start(src));
    var nodes := Run(Start(src)).p.nodes;
    ParentOlder(nodes, j);
    forall k | 0 <= k < |nodes|
      ensures InArena(nodes, nodes[k].childStart)
      ensures |Places(Siblings(nodes, nodes[k].childStart), j)| == if nodes[j].parent == At(k) then 1 else 0
    {
      ChildListExact(nodes, k);
      OnePlace(nodes, k, j);
    }
  }

  lemma ParentOlder(nodes: seq<Node>, j: nat)
    requires Rising(nodes) && Tidy(nodes) && 0 < j < |nodes|
    ensures nodes[j].parent.At? && nodes[j].parent.i < j
  {}

  lemma OnePlace(nodes: seq<Node>, k: nat, j: nat)
    requires j < |nodes|
    ensures |Places(KidsFrom(nodes, k, 0), j)| == if IsKid(nodes, k, j) then 1 else 0
  {
    hide KidsFrom;
    var kids := KidsFrom(nodes, k, 0);
    if IsKid(nodes, k, j) {
      var i :| 0 <= i < |kids| && kids[i] == j;
      assert Places(kids, j) == {i};
    } else {
      assert Places(kids, j) == {};
    }
  }

  lemma StartTidy(src: seq<char>)
    ensures TidyParser(Start(src))
  {}

  // ---------------------------------------------------------------- the element tree

  /** An element: its node, tag, text if it has one, and children. */
  datatype Element = Element(index: nat, tag: seq<char>, text: Option<seq<char>>, kids: seq<Element>)

  /** The elements that a node, its right siblings and all their children stand for. */
  function Elements(src: seq<char>, nodes: seq<Node>, p: Ptr): (r: seq<Element>)
    requires Rising(nodes) && InArena(nodes, p)
    decreases if p.At? then |nodes| - p.i else 0
  {
    if p.Null? then []
    else
      var node := nodes[p.i];
      assert Forward(nodes, p.i, node.right) && Forward(nodes, p.i, node.childStart);
      var text := if node.content.At? then Some(CStr(src, node.content.i)) else None;
      [Element(p.i, CStr(src, node.tag), text, Elements(src, nodes, node.childStart))] + Elements(src, nodes, node.right)
  }

  /** The element of one node. */
  function ElementAt(src: seq<char>, nodes: seq<Node>, i: nat): (e: Element)
    requires Rising(nodes) && i < |nodes|
    ensures e == Elements(src, nodes, At(i))[0] && e.index == i && InArena(nodes, nodes[i].childStart)
    ensures e.kids == Elements(src, nodes, nodes[i].childStart) && e.tag == CStr(src, nodes[i].tag)
  {
    assert Forward(nodes, i, nodes[i].right) && Forward(nodes, i, nodes[i].childStart);
    Elements(src, nodes, At(i))[0]
  }

  /** Node k occurs in the forest. */
  predicate Contains(f: seq<Element>, k: nat) {
    f != [] && (f[0].index == k || Contains(f[0].kids, k) || Contains(f[1..], k))
  }

  lemma {:induction false} SiblingContained(src: seq<char>, nodes: seq<Node>, p: Ptr, j: nat)
    requires Rising(nodes) && InArena(nodes, p) && j in Siblings(nodes, p)
    ensures Contains(Elements(src, nodes, p), j)
    decreases if p.At? then |nodes| - p.i else 0
  {
    hide CStr, Rising;
    ElementsStep(src, nodes, p.i);
    SiblingsStep(nodes, p.i);
    if p.i != j { SiblingContained(src, nodes, nodes[p.i].right, j); }
  }

  lemma ElementsStep(src: seq<char>, nodes: seq<Node>, i: nat)
    requires Rising(nodes) && i < |nodes|
    ensures InArena(nodes, nodes[i].right) && InArena(nodes, nodes[i].childStart)
    ensures nodes[i].right.At? ==> i < nodes[i].right.i
    ensures nodes[i].childStart.At? ==> i < nodes[i].childStart.i
    ensures var f := Elements(src, nodes, At(i));
      f == [ElementAt(src, nodes, i)] + Elements(src, nodes, nodes[i].right) && f[1..] == Elements(src, nodes, nodes[i].right)
  {
    assert Forward(nodes, i, nodes[i].right) && Forward(nodes, i, nodes[i].childStart);
  }

  /** A forest that contains a node contains the node's children. */
  lemma {:induction false} KidContained(src: seq<char>, nodes: seq<Node>, p: Ptr, k: nat, j: nat)
    requires Rising(nodes) && Tidy(nodes) && InArena(nodes, p) && Contains(Elements(src, nodes, p), k)
    requires j < |nodes| && IsKid(nodes, k, j) && k < |nodes|
    ensures Contains(Elements(src, nodes, p), j)
    decreases if p.At? then |nodes| - p.i else 0
  {
    hide CStr, Rising, Tidy, Siblings, ElementAt;
    if p.At? {
      ElementsStep(src, nodes, p.i);
      var e := ElementAt(src, nodes, p.i);
      if p.i == k {
        ChildListExact(nodes, k);
        SiblingContained(src, nodes, nodes[k].childStart, j);
      } else if Contains(e.kids, k) {
        KidContained(src, nodes, nodes[p.i].childStart, k, j);
      } else {
        KidContained(src, nodes, nodes[p.i].right, k, j);
      }
    }
  }

  /** The element tree of an accepted text has every node of the arena in it, and a single root. */
  lemma {:induction false} AcceptedTreeIsWhole(src: seq<char>, k: nat)
    requires Run(Start(src)).Go? && k < |Run(Start(src)).p.nodes|
    ensures var r := Run(Start(src)).p;
      && Rising(r.nodes) && Contains(Elements(r.src, r.nodes, At(0)), k) && |Elements(r.src, r.nodes, At(0))| == 1
  {
    hide Run, Rising, Tidy, CStr, Start;
    StartTidy(src);
    RunTidy(Start(src));
    var r := Run(Start(src)).p;
    ElementsStep(r.src, r.nodes, 0);
    RootAlone(r.nodes);
    if k > 0 {
      ParentOlder(r.nodes, k);
      var parent := r.nodes[k].parent.i;
      AcceptedTreeIsWhole(src, parent);
      KidContained(r.src, r.nodes, At(0), parent, k);
    }
  }

  lemma RootAlone(nodes: seq<Node>)
    requires Tidy(nodes) && nodes != []
    ensures nodes[0].right == Null
  {
    assert NextOk(nodes, 0);
  }

  // ---------------------------------------------------------------- rendered trees

  function TextOf(t: Tree): Option<seq<char>> { if t.Leaf? then Some(t.text) else None }

  function Children(t: Tree): seq<Tree> { if t.Branch? then t.kids else [] }

  /** The elements of trees whose nodes are numbered in document order from `first` on. */
  function Numbered(first: nat, kids: seq<Tree>): seq<Element>
    decreases kids
  {
    if kids == [] then []
    else
      var t := kids[0];
      [Element(first, t.tag, TextOf(t), if t.Branch? then Numbered(first + 1, t.kids) else [])]
      + Numbered(first + Size(t), kids[1..])
  }

  function FirstOf(first: nat, kids: seq<Tree>): Ptr { if kids == [] then Null else At(first) }

  /** Where the arena shows rendered trees, its element tree is theirs. */
  lemma {:induction false} ShowsAreElements(src: seq<char>, nodes: seq<Node>, first: nat, kids: seq<Tree>, parent: Ptr)
    requires Rising(nodes) && ShowsKids(src, nodes, first, kids, parent)
    ensures InArena(nodes, FirstOf(first, kids)) && Elements(src, nodes, FirstOf(first, kids)) == Numbered(first, kids)
    decreases kids
  {
    hide CStr, Rising;
    if kids != [] {
      var t := kids[0];
      assert nodes[first].right == FirstOf(first + Size(t), kids[1..]);
      ShowsAreElements(src, nodes, first + Size(t), kids[1..], parent);
      if t.Branch? { ShowsAreElements(src, nodes, first + 1, t.kids, At(first)); }
      assert nodes[first].childStart == FirstOf(first + 1, Children(t));
    }
  }
}
