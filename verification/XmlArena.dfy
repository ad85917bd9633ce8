/** What the parser's arena means: which trees it holds, and why walking its links ends. */
module XmlArena {
  import opened Words
  import opened XmlParser
  import opened XmlTree

  // ---------------------------------------------------------------- links only lead forward

  predicate Forward(nodes: seq<Node>, k: nat, p: Ptr) { p.At? ==> k < p.i < |nodes| }

  /** Sibling and child links lead to younger nodes, parent links to older ones. */
  predicate Rising(nodes: seq<Node>) {
    forall k :: 0 <= k < |nodes| ==>
      Forward(nodes, k, nodes[k].right) && Forward(nodes, k, nodes[k].childStart) && Forward(nodes, k, nodes[k].childEnd)
      && (nodes[k].parent.At? ==> nodes[k].parent.i < k)
  }

  lemma LinkKidRises(nodes: seq<Node>, parent: Ptr, tag: nat)
    requires Linked(nodes) && InArena(nodes, parent) && Rising(nodes)
    ensures Rising(AddNode(nodes, parent, tag))
  {
    var grown := AddNode(nodes, parent, tag);
    forall k | 0 <= k < |grown|
      ensures Forward(grown, k, grown[k].right) && Forward(grown, k, grown[k].childStart) && Forward(grown, k, grown[k].childEnd)
        && (grown[k].parent.At? ==> grown[k].parent.i < k)
    {
      if k < |nodes| {
        assert Forward(nodes, k, nodes[k].right) && Forward(nodes, k, nodes[k].childStart) && Forward(nodes, k, nodes[k].childEnd);
      }
    }
  }

  lemma CloseRises(p: Parser)
    requires WellFormed(p) && p.index + 2 <= |p.src| && Rising(p.nodes) && Close(p).Go?
    ensures Rising(Close(p).p.nodes)
  {
    hide Cut, CStr;
    var nodes := Close(p).p.nodes;
    forall k | 0 <= k < |nodes|
      ensures Forward(nodes, k, nodes[k].right) && Forward(nodes, k, nodes[k].childStart) && Forward(nodes, k, nodes[k].childEnd)
        && (nodes[k].parent.At? ==> nodes[k].parent.i < k)
    {
      assert Forward(p.nodes, k, p.nodes[k].right) && Forward(p.nodes, k, p.nodes[k].childStart) && Forward(p.nodes, k, p.nodes[k].childEnd);
    }
  }

  lemma OpenRises(p: Parser)
    requires WellFormed(p) && p.index < |p.src| && Rising(p.nodes) && Open(p).Go?
    ensures Rising(Open(p).p.nodes)
  {
    hide Cut, CStr, LinkKid, Rising, Linked;
    LinkKidRises(p.nodes, p.parent, p.index + 1);
  }

  /** Whatever text is parsed, well formed or not, the links of the resulting arena lead forward. */
  lemma {:induction false} RunRises(p: Parser)
    requires WellFormed(p) && Rising(p.nodes) && Run(p).Go?
    ensures Rising(Run(p).p.nodes) && Linked(Run(p).p.nodes)
    decreases if p.index < |p.src| then |p.src| - p.index else 0
  {
    hide Open, Close, Linked, Rising;
    if p.index < |p.src| {
      if p.src[p.index] == '<' && Ch(p.src, p.index + 1) == '/' {
        CloseRises(p);
      } else if p.src[p.index] == '<' && Ch(p.src, p.index + 1) != '?' {
        OpenRises(p);
      }
      RunRises(Step(p).p);
    }
  }

  predicate TagsInside(nodes: seq<Node>, limit: nat) { forall k :: 0 <= k < |nodes| ==> nodes[k].tag <= limit }

  /** Tags point into the source or at its closing NUL. */
  lemma {:induction false} RunTags(p: Parser)
    requires WellFormed(p) && TagsInside(p.nodes, |p.src|) && Run(p).Go?
    ensures TagsInside(Run(p).p.nodes, |p.src|)
    decreases if p.index < |p.src| then |p.src| - p.index else 0
  {
    hide Open, Close, Linked, TagsInside;
    if p.index < |p.src| {
      StepTags(p);
      RunTags(Step(p).p);
    }
  }

  lemma StepTags(p: Parser)
    requires WellFormed(p) && p.index < |p.src| && TagsInside(p.nodes, |p.src|) && Step(p).Go?
    ensures TagsInside(Step(p).p.nodes, |p.src|)
  {
    hide Cut, CStr, Linked;
    hide LinkKid;
    LinkKidTags(p.nodes, p.parent);
  }

  lemma LinkKidTags(nodes: seq<Node>, parent: Ptr)
    requires Linked(nodes) && InArena(nodes, parent)
    ensures forall k :: 0 <= k < |nodes| ==> LinkKid(nodes, parent, |nodes|)[k].tag == nodes[k].tag
  {}

  // ---------------------------------------------------------------- the tree in the arena

  /** Index of the last of several siblings whose first node is at `first`. */
  function LastKid(first: nat, kids: seq<Tree>): nat
    requires kids != []
    decreases |kids|
  {
    if |kids| == 1 then first else LastKid(first + Size(kids[0]), kids[1..])
  }

  /** The nodes from i on are the tree t in document order: tags, texts and links, except the link to the
      right sibling of t itself. */
  ghost predicate Shows(src: seq<char>, nodes: seq<Node>, i: nat, t: Tree, parent: Ptr)
    decreases t, 0
  {
    && i + Size(t) <= |nodes| && 1 <= Size(t)
    && nodes[i].parent == parent && CStr(src, nodes[i].tag) == t.tag
    && match t
       case Branch(_, _, kids, _) =>
         && kids != [] && nodes[i].childStart == At(i + 1) && nodes[i].childEnd == At(LastKid(i + 1, kids))
         && nodes[i].content == Null && ShowsKids(src, nodes, i + 1, kids, At(i))
       case Leaf(_, _, text, _) =>
         && nodes[i].childStart == Null && nodes[i].childEnd == Null
         && nodes[i].content.At? && CStr(src, nodes[i].content.i) == text
       case Empty(_, _) =>
         nodes[i].childStart == Null && nodes[i].childEnd == Null && nodes[i].content == Null
  }

  /** The siblings `kids` follow each other from `first` on, linked to the right. */
  ghost predicate ShowsKids(src: seq<char>, nodes: seq<Node>, first: nat, kids: seq<Tree>, parent: Ptr)
    decreases kids, 1
  {
    kids == [] ||
    (&& Shows(src, nodes, first, kids[0], parent)
     && nodes[first].right == (if |kids| == 1 then Null else At(first + Size(kids[0])))
     && ShowsKids(src, nodes, first + Size(kids[0]), kids[1..], parent))
  }

  // ---------------------------------------------------------------- what building leaves alone

  /** Old nodes once siblings from `first` to `last` hang below the parent. */
  function Adopt(nodes: seq<Node>, parent: nat, first: nat, last: nat): (r: seq<Node>)
    requires Linked(nodes) && parent < |nodes|
    ensures |r| == |nodes|
  {
    var linked := LinkKid(nodes, At(parent), first);
    linked[parent := linked[parent].(childEnd := At(last))]
  }

  lemma {:induction false} BuildOld(nodes: seq<Node>, parent: Ptr, t: Tree, off: nat)
    requires Linked(nodes) && InArena(nodes, parent)
    ensures Build(nodes, parent, t, off)[..|nodes|] == LinkKid(nodes, parent, |nodes|)
    decreases t, 0
  {
    hide Linked;
    var n, grown := |nodes|, AddNode(nodes, parent, off + 1);
    assert grown[..n] == LinkKid(nodes, parent, n);
    if t.Branch? {
      BuildBranch(nodes, parent, t, off);
      if t.kids != [] {
        BuildAllOld(grown, n, t.kids, off + |t.Head()| + 2);
        assert Adopt(grown, n, n + 1, LastKid(n + 1, t.kids))[..n] == grown[..n];
      }
    }
  }

  lemma {:induction false} BuildAllOld(nodes: seq<Node>, parent: nat, kids: seq<Tree>, off: nat)
    requires Linked(nodes) && parent < |nodes| && kids != []
    ensures BuildAll(nodes, At(parent), kids, off)[..|nodes|] == Adopt(nodes, parent, |nodes|, LastKid(|nodes|, kids))
    decreases kids, 1
  {
    hide Build;
    var n, next := |nodes|, Build(nodes, At(parent), kids[0], off);
    BuildOld(nodes, At(parent), kids[0], off);
    BuildAllUnfolds(nodes, At(parent), kids, off);
    if |kids| > 1 {
      BuildAllOld(next, parent, kids[1..], off + |Render(kids[0])|);
    }
  }

  // ---------------------------------------------------------------- what building adds

  /** The text at position off of the source. */
  ghost predicate Holds(src: seq<char>, off: nat, text: seq<char>) {
    off + |text| <= |src| && src[off..off + |text|] == text
  }

  lemma SliceOfSlice(s: seq<char>, i: nat, n: nat, x: nat, y: nat)
    requires i + n <= |s| && x <= y <= n
    ensures s[i..i + n][x..y] == s[i + x..i + y]
  {
    var t, u := s[i..i + n][x..y], s[i + x..i + y];
    assert |t| == |u| && forall k :: 0 <= k < |t| ==> t[k] == u[k];
  }

  lemma HoldsPart(src: seq<char>, off: nat, a: seq<char>, b: seq<char>, c: seq<char>)
    requires Holds(src, off, a + b + c)
    ensures Holds(src, off + |a|, b)
  {
    var all := a + b + c;
    SliceOfSlice(src, off, |all|, |a|, |a| + |b|);
    assert all[|a|..|a| + |b|] == b;
  }

  /** A string that ends in a NUL is read back from its position. */
  lemma StringAt(src: seq<char>, off: nat, s: seq<char>)
    requires Holds(src, off, s + [NUL]) && NUL !in s
    ensures CStr(src, off) == s
  {
    hide CStr;
    assert src == src[..off] + s + [NUL] + src[off + |s| + 1..] by {
      assert src == src[..off] + src[off..off + |s| + 1] + src[off + |s| + 1..];
    }
    CStrIs(src[..off], s, src[off + |s| + 1..]);
  }

  /** A cut tag is read back as the tag it names. */
  lemma NameAt(src: seq<char>, off: nat, head: seq<char>, tag: seq<char>)
    requires Names(head, tag) && Holds(src, off, Cleared(head) + [NUL])
    ensures CStr(src, off) == tag
  {
    hide CStr, Names, Cleared;
    assert src == src[..off] + Cleared(head) + [NUL] + src[off + |Cleared(head)| + 1..] by {
      assert src == src[..off] + src[off..off + |Cleared(head)| + 1] + src[off + |Cleared(head)| + 1..];
    }
    ClearedTag(src[..off], head, tag, src[off + |Cleared(head)| + 1..]);
  }

  /** What a cut rendering starts with. */
  lemma CutStarts(t: Tree) returns (head: seq<char>, rest: seq<char>)
    requires Plain(t)
    ensures Names(head, t.tag) && CutRender(t) == ['<'] + (Cleared(head) + [NUL]) + rest
  {
    hide CutRender, Cleared, Names, Plain;
    PlainNames(t);
    head := t.Head();
    if t.Empty? {
      head, rest := EmptyStarts(t);
    } else {
      rest := OpenStarts(t);
    }
  }

  lemma OpenStarts(t: Tree) returns (rest: seq<char>)
    requires !t.Empty?
    ensures CutRender(t) == ['<'] + (Cleared(t.Head()) + [NUL]) + rest
  {
    hide CutRenderAll, RenderAll, Cleared;
    var inside := if t.Branch? then CutRenderAll(t.kids) else t.text;
    var end := if t.Branch? then ['<', '/'] else [NUL, '/'];
    Grouped(Cleared(t.Head()), inside, end, Cleared(t.Foot()));
    rest := inside + end + Cleared(t.Foot()) + [NUL];
  }

  lemma Grouped(head: seq<char>, inside: seq<char>, end: seq<char>, foot: seq<char>)
    ensures ['<'] + head + [NUL] + inside + end + foot + [NUL] == ['<'] + (head + [NUL]) + (inside + end + foot + [NUL])
  {}

  lemma EmptyStarts(t: Tree) returns (head: seq<char>, rest: seq<char>)
    requires t.Empty? && Names(t.Head(), t.tag)
    ensures Names(head, t.tag) && CutRender(t) == ['<'] + (Cleared(head) + [NUL]) + rest
  {
    hide Cleared, Names;
    head := t.Head();
    assert CutRender(t) == ['<'] + Cleared(head) + EmptyMark(head, t.tag) + [NUL];
    if head == t.tag {
      rest := [NUL];
    } else {
      SlashCleared(head, t.tag);
      head, rest := head + ['/'], [];
    }
  }

  lemma SlashCleared(head: seq<char>, tag: seq<char>)
    requires Names(head, tag) && head != tag
    ensures Names(head + ['/'], tag) && Cleared(head + ['/']) == Cleared(head) + ['/']
  {
    hide Names;
    AttrsWithSlash(head, tag);
  }

  lemma TagAt(src: seq<char>, t: Tree, off: nat)
    requires Plain(t) && Holds(src, off, CutRender(t))
    ensures CStr(src, off + 1) == t.tag
  {
    hide CStr, CutRender, Cleared, Names, Plain, Holds;
    var head, rest := CutStarts(t);
    HoldsPart(src, off, ['<'], Cleared(head) + [NUL], rest);
    NameAt(src, off + 1, head, t.tag);
  }

  lemma TextAt(src: seq<char>, t: Tree, off: nat)
    requires t.Leaf? && PlainText(t.text) && Holds(src, off, CutRender(t))
    ensures CStr(src, off + |t.Head()| + 2) == t.text
  {
    hide CStr, Cleared;
    var head, rest := ['<'] + Cleared(t.Head()) + [NUL], ['/'] + Cleared(t.Foot()) + [NUL];
    assert CutRender(t) == head + (t.text + [NUL]) + rest;
    HoldsPart(src, off, head, t.text + [NUL], rest);
    StringAt(src, off + |head|, t.text);
  }

  lemma KidsAt(src: seq<char>, t: Tree, off: nat)
    requires t.Branch? && Holds(src, off, CutRender(t))
    ensures Holds(src, off + |t.Head()| + 2, CutRenderAll(t.kids))
  {
    hide CutRenderAll, Cleared;
    var head, rest := ['<'] + Cleared(t.Head()) + [NUL], ['<', '/'] + Cleared(t.Foot()) + [NUL];
    assert CutRender(t) == head + CutRenderAll(t.kids) + rest;
    HoldsPart(src, off, head, CutRenderAll(t.kids), rest);
  }

  lemma KidAt(src: seq<char>, kids: seq<Tree>, off: nat)
    requires kids != [] && Holds(src, off, CutRenderAll(kids))
    ensures Holds(src, off, CutRender(kids[0])) && Holds(src, off + |Render(kids[0])|, CutRenderAll(kids[1..]))
  {
    hide CutRender, Render, Holds;
    HoldsBoth(src, off, CutRender(kids[0]), CutRenderAll(kids[1..]));
  }

  lemma HoldsBoth(src: seq<char>, off: nat, a: seq<char>, b: seq<char>)
    requires Holds(src, off, a + b)
    ensures Holds(src, off, a) && Holds(src, off + |a|, b)
  {
    assert a + b == [] + a + b && a + b == a + b + [];
    HoldsPart(src, off, [], a, b);
    HoldsPart(src, off, a, b, []);
  }

  /** Nodes outside a tree's range, and the right link of its root, do not matter to it. */
  lemma {:induction false} ShowsFrame(src: seq<char>, a: seq<Node>, b: seq<Node>, i: nat, t: Tree, parent: Ptr)
    requires Shows(src, a, i, t, parent) && i + Size(t) <= |b|
    requires a[i] == b[i].(right := a[i].right) && forall k :: i < k < i + Size(t) ==> a[k] == b[k]
    ensures Shows(src, b, i, t, parent)
    decreases t, 0
  {
    hide CStr;
    if t.Branch? { ShowsKidsFrame(src, a, b, i + 1, t.kids, At(i)); }
  }

  lemma {:induction false} ShowsKidsFrame(src: seq<char>, a: seq<Node>, b: seq<Node>, first: nat, kids: seq<Tree>, parent: Ptr)
    requires ShowsKids(src, a, first, kids, parent) && first + SizeAll(kids) <= |a| && first + SizeAll(kids) <= |b|
    requires forall k :: first <= k < first + SizeAll(kids) ==> a[k] == b[k]
    ensures ShowsKids(src, b, first, kids, parent)
    decreases kids, 1
  {
    hide CStr;
    if kids != [] {
      ShowsFrame(src, a, b, first, kids[0], parent);
      ShowsKidsFrame(src, a, b, first + Size(kids[0]), kids[1..], parent);
    }
  }

  /** Building adds exactly the nodes of the tree. */
  lemma {:induction false} BuildShows(src: seq<char>, nodes: seq<Node>, parent: Ptr, t: Tree, off: nat)
    requires Plain(t) && Linked(nodes) && InArena(nodes, parent) && Holds(src, off, CutRender(t))
    ensures var r := Build(nodes, parent, t, off); Shows(src, r, |nodes|, t, parent) && r[|nodes|].right == Null
    decreases t, 0
  {
    hide Linked, LinkKid, CStr, CutRender, Holds;
    TagAt(src, t, off);
    match t
    case Branch(_, _, _, _) => BuildShowsBranch(src, nodes, parent, t, off);
    case Leaf(_, _, _, _) => TextAt(src, t, off);
    case Empty(_, _) =>
  }

  lemma BuildShowsBranch(src: seq<char>, nodes: seq<Node>, parent: Ptr, t: Tree, off: nat)
    requires t.Branch? && Plain(t) && Linked(nodes) && InArena(nodes, parent)
    requires Holds(src, off, CutRender(t)) && CStr(src, off + 1) == t.tag
    ensures var r := Build(nodes, parent, t, off); Shows(src, r, |nodes|, t, parent) && r[|nodes|].right == Null
    decreases t.kids, 2
  {
    hide Linked, CStr, CutRender, CutRenderAll, Holds, BuildAll, PlainTag;
    var n, kids, grown := |nodes|, t.kids, AddNode(nodes, parent, off + 1);
    KidsAt(src, t, off);
    BuildBranch(nodes, parent, t, off);
    BuildAllOld(grown, n, kids, off + |t.Head()| + 2);
    BuildAllShows(src, grown, n, kids, off + |t.Head()| + 2);
    var r := Build(nodes, parent, t, off);
    assert r[n] == r[..n + 1][n];
  }

  lemma {:induction false} BuildAllShows(src: seq<char>, nodes: seq<Node>, parent: nat, kids: seq<Tree>, off: nat)
    requires forall k :: 0 <= k < |kids| ==> Plain(kids[k])
    requires Linked(nodes) && parent < |nodes| && Holds(src, off, CutRenderAll(kids))
    ensures ShowsKids(src, BuildAll(nodes, At(parent), kids, off), |nodes|, kids, At(parent))
    decreases kids, 1
  {
    hide Linked, CStr, CutRenderAll, CutRender, Render, Holds, Build, BuildAll, Plain, Shows;
    if kids != [] {
      var n, next, off' := |nodes|, Build(nodes, At(parent), kids[0], off), off + |Render(kids[0])|;
      var r := BuildAll(nodes, At(parent), kids, off);
      KidAt(src, kids, off);
      BuildShows(src, nodes, At(parent), kids[0], off);
      BuildAllUnfolds(nodes, At(parent), kids, off);
      BuildAllShows(src, next, parent, kids[1..], off');
      KidKept(nodes, parent, kids, off);
      ShowsFrame(src, next, r, n, kids[0], At(parent));
    }
  }

  /** Building the other siblings changes nothing of the first one but its right link. */
  lemma KidKept(nodes: seq<Node>, parent: nat, kids: seq<Tree>, off: nat)
    requires Linked(nodes) && parent < |nodes| && kids != []
    ensures var n, next, r := |nodes|, Build(nodes, At(parent), kids[0], off), BuildAll(nodes, At(parent), kids, off);
      && |next| == n + Size(kids[0]) <= |r|
      && r[n].right == (if |kids| == 1 then next[n].right else At(|next|)) && next[n] == r[n].(right := next[n].right)
      && forall k :: n < k < |next| ==> next[k] == r[k]
  {
    hide Build, BuildAll, Linked;
    var n, next, r := |nodes|, Build(nodes, At(parent), kids[0], off), BuildAll(nodes, At(parent), kids, off);
    BuildAllUnfolds(nodes, At(parent), kids, off);
    BuildOld(nodes, At(parent), kids[0], off);
    LinkKidParent(nodes, parent, n);
    assert next[parent] == next[..n][parent];
    assert next[parent].childStart.At? && next[parent].childEnd == At(n);
    if |kids| > 1 {
      BuildAllOld(next, parent, kids[1..], off + |Render(kids[0])|);
      var kept := Adopt(next, parent, |next|, LastKid(|next|, kids[1..]));
      assert kept[n] == next[n].(right := At(|next|));
      forall k | n <= k < |next|
        ensures r[k] == kept[k]
      {
        assert r[k] == r[..|next|][k];
      }
    } else {
      BuildNone(next, At(parent), kids[1..], off + |Render(kids[0])|);
    }
  }

  lemma LinkKidParent(nodes: seq<Node>, parent: nat, n: nat)
    requires Linked(nodes) && parent < |nodes|
    ensures var p := LinkKid(nodes, At(parent), n)[parent]; p.childStart.At? && p.childEnd == At(n)
  {}

  lemma BuildNone(nodes: seq<Node>, parent: Ptr, kids: seq<Tree>, off: nat)
    requires Linked(nodes) && InArena(nodes, parent) && kids == []
    ensures BuildAll(nodes, parent, kids, off) == nodes
  {}

  /** The whole way: the file read back shows the tree from node 0 on, and nothing else. */
  lemma ReadBackShows(pre: seq<char>, t: Tree, post: seq<char>)
    requires Plain(t) && Depth(t) <= 128 && Size(t) <= 131072 && Outside(pre) && Outside(post)
    ensures var r := Run(Start(Cat(pre, Render(t), post)));
      && r.Go? && |r.p.nodes| == Size(t)
      && Shows(r.p.src, r.p.nodes, 0, t, Null) && r.p.nodes[0].right == Null
  {
    hide Run, Render, CutRender, Build, Plain, Shows;
    ReadBack(pre, t, post);
    var src := Cat(pre, CutRender(t), post);
    assert src[|pre|..|pre| + |CutRender(t)|] == CutRender(t);
    BuildShows(src, [], Null, t, |pre|);
  }
}
