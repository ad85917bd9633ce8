/** Trees, their XML rendering, and what the parser does while it consumes a rendering. */
module XmlTree {
  import opened Words
  import opened XmlParser

  /** An element with children, one with text, or a self-closing one.  Attributes stand behind the tag in the
      start tag; the end tag may be padded. */
  datatype Tree =
    | Branch(tag: seq<char>, attrs: seq<char>, kids: seq<Tree>, pad: seq<char>)
    | Leaf(tag: seq<char>, attrs: seq<char>, text: seq<char>, pad: seq<char>)
    | Empty(tag: seq<char>, attrs: seq<char>)
  {
    function Text(): seq<char> { if Leaf? then text else [] }

    /** What stands between the brackets of the start tag, and behind the slash of the end tag. */
    function Head(): seq<char> { tag + attrs }

    function Foot(): seq<char> { if Empty? then [] else tag + pad }
  }

  /** A tag the parser reads as written: no blank, '>' or NUL inside, no '/' or '?' in front, no '/' at the end. */
  predicate PlainTag(tag: seq<char>) {
    tag != [] && NUL !in tag && ' ' !in tag && '>' !in tag && tag[0] != '/' && tag[0] != '?' && tag[|tag| - 1] != '/'
  }

  /** Nothing, or a blank and then any text without '>' and NUL. */
  predicate PlainAttrs(attrs: seq<char>) { NUL !in attrs && '>' !in attrs && (attrs != [] ==> attrs[0] == ' ') }

  predicate EndsInSlash(s: seq<char>) { s != [] && s[|s| - 1] == '/' }

  predicate PlainText(text: seq<char>) { NUL !in text && '<' !in text }

  predicate Plain(t: Tree) {
    PlainTag(t.tag) && PlainAttrs(t.attrs) &&
    match t
    case Branch(_, attrs, kids, pad) =>
      !EndsInSlash(attrs) && PlainAttrs(pad) && kids != [] && forall k :: 0 <= k < |kids| ==> Plain(kids[k])
    case Leaf(_, attrs, text, pad) => !EndsInSlash(attrs) && PlainAttrs(pad) && PlainText(text)
    case Empty(_, _) => true
  }

  /** The text `head` is the tag, with or without something behind a blank. */
  predicate Names(head: seq<char>, tag: seq<char>) {
    PlainTag(tag) && |tag| <= |head| && head[..|tag|] == tag && PlainAttrs(head[|tag|..])
  }

  /** The brackets around `head` open an element with this tag. */
  predicate Opens(head: seq<char>, tag: seq<char>) { Names(head, tag) && !EndsInSlash(head) }

  lemma PlainNames(t: Tree)
    requires Plain(t)
    ensures Names(t.Head(), t.tag) && (!t.Empty? ==> Opens(t.Head(), t.tag) && Names(t.Foot(), t.tag))
  {
    hide PlainTag, PlainAttrs;
    HeadNames(t.tag, t.attrs);
    if !t.Empty? { HeadNames(t.tag, t.pad); }
  }

  lemma HeadNames(tag: seq<char>, attrs: seq<char>)
    requires PlainTag(tag) && PlainAttrs(attrs)
    ensures Names(tag + attrs, tag) && (!EndsInSlash(attrs) ==> Opens(tag + attrs, tag))
  {
    assert (tag + attrs)[|tag|..] == attrs;
  }

  function Render(t: Tree): (s: seq<char>) {
    match t
    case Branch(_, _, kids, _) => ['<'] + t.Head() + ['>'] + RenderAll(kids) + ['<', '/'] + t.Foot() + ['>']
    case Leaf(_, _, text, _) => ['<'] + t.Head() + ['>'] + text + ['<', '/'] + t.Foot() + ['>']
    case Empty(_, _) => ['<'] + t.Head() + ['/', '>']
  }

  function RenderAll(kids: seq<Tree>): seq<char> {
    if kids == [] then [] else Render(kids[0]) + RenderAll(kids[1..])
  }

  /** A tag's text after the parser has cut it. */
  function Cleared(s: seq<char>): (r: seq<char>)
    ensures |r| == |s| && forall k :: 0 <= k < |s| ==> r[k] == if s[k] == ' ' then NUL else s[k]
  {
    seq(|s|, k requires 0 <= k < |s| => if s[k] == ' ' then NUL else s[k])
  }

  /** The rendering after the parser has cut it: the same length, with NULs where strings end. */
  function CutRender(t: Tree): (s: seq<char>)
    ensures |s| == |Render(t)|
  {
    match t
    case Branch(_, _, kids, _) => ['<'] + Cleared(t.Head()) + [NUL] + CutRenderAll(kids) + ['<', '/'] + Cleared(t.Foot()) + [NUL]
    case Leaf(_, _, text, _) => ['<'] + Cleared(t.Head()) + [NUL] + text + [NUL, '/'] + Cleared(t.Foot()) + [NUL]
    case Empty(_, _) => ['<'] + Cleared(t.Head()) + EmptyMark(t.Head(), t.tag) + [NUL]
  }

  /** The slash of a self-closing tag ends the tag itself when nothing stands between them. */
  function EmptyMark(head: seq<char>, tag: seq<char>): (s: seq<char>)
    ensures |s| == 1
  {
    if head == tag then [NUL] else ['/']
  }

  function CutRenderAll(kids: seq<Tree>): (s: seq<char>)
    ensures |s| == |RenderAll(kids)|
  {
    if kids == [] then [] else CutRender(kids[0]) + CutRenderAll(kids[1..])
  }

  function Size(t: Tree): nat {
    match t
    case Branch(_, _, kids, _) => 1 + SizeAll(kids)
    case _ => 1
  }

  function SizeAll(kids: seq<Tree>): nat {
    if kids == [] then 0 else Size(kids[0]) + SizeAll(kids[1..])
  }

  /** Elements open at once while t is read; a self-closing element is never pushed. */
  function Depth(t: Tree): nat {
    match t
    case Branch(_, _, kids, _) => 1 + DepthAll(kids)
    case Leaf(_, _, _, _) => 1
    case Empty(_, _) => 0
  }

  function DepthAll(kids: seq<Tree>): nat {
    if kids == [] then 0
    else if Depth(kids[0]) < DepthAll(kids[1..]) then DepthAll(kids[1..]) else Depth(kids[0])
  }

  // ---------------------------------------------------------------- strings in the source

  lemma {:induction false} CStrIs(pre: seq<char>, s: seq<char>, post: seq<char>)
    requires NUL !in s
    ensures CStr(pre + s + [NUL] + post, |pre|) == s
    decreases |s|
  {
    var src := pre + s + [NUL] + post;
    if s == [] {
      assert src[|pre|] == NUL;
    } else {
      assert src[|pre|] == s[0];
      CStrIs(pre + [s[0]], s[1..], post);
      assert src == (pre + [s[0]]) + s[1..] + [NUL] + post;
    }
  }

  /** Scanning a tag stops at its '>'; the bracket and all blanks in front of it become NULs. */
  lemma {:induction false} CutPlain(pre: seq<char>, head: seq<char>, post: seq<char>)
    requires '>' !in head
    ensures Cut(pre + head + ['>'] + post, |pre|) == (pre + Cleared(head) + [NUL] + post, |pre| + |head|)
    decreases |head|
  {
    hide Cleared;
    if head == [] {
      CutBracket(pre, post);
    } else {
      var first := if head[0] == ' ' then NUL else head[0];
      CutOne(pre, head, post);
      CutPlain(pre + [first], head[1..], post);
      ClearedOne(pre, head, post);
    }
  }

  lemma CutBracket(pre: seq<char>, post: seq<char>)
    ensures Cut(pre + [] + ['>'] + post, |pre|) == (pre + Cleared([]) + [NUL] + post, |pre|)
  {
    var src := pre + [] + ['>'] + post;
    assert src[|pre|] == '>' && src[|pre| := NUL] == pre + Cleared([]) + [NUL] + post;
  }

  /** One character of a tag is scanned. */
  lemma CutOne(pre: seq<char>, head: seq<char>, post: seq<char>)
    requires head != [] && head[0] != '>'
    ensures var first := if head[0] == ' ' then NUL else head[0];
      Cut(pre + head + ['>'] + post, |pre|) == Cut((pre + [first]) + head[1..] + ['>'] + post, |pre| + 1)
  {
    var src, first := pre + head + ['>'] + post, if head[0] == ' ' then NUL else head[0];
    assert src[|pre|] == head[0];
    assert src[|pre| := first] == (pre + [first]) + head[1..] + ['>'] + post;
    if head[0] != ' ' { assert src[|pre| := first] == src; }
  }

  lemma ClearedOne(pre: seq<char>, head: seq<char>, post: seq<char>)
    requires head != []
    ensures var first := if head[0] == ' ' then NUL else head[0];
      pre + Cleared(head) + [NUL] + post == (pre + [first]) + Cleared(head[1..]) + [NUL] + post
  {
    var first := if head[0] == ' ' then NUL else head[0];
    assert Cleared(head) == [first] + Cleared(head[1..]);
  }

  /** Of a cut tag the tag itself is left as a C string. */
  lemma ClearedTag(pre: seq<char>, head: seq<char>, tag: seq<char>, post: seq<char>)
    requires Names(head, tag)
    ensures CStr(pre + Cleared(head) + [NUL] + post, |pre|) == tag
  {
    hide CStr;
    var src := pre + Cleared(head) + [NUL] + post;
    var rest := (Cleared(head) + [NUL])[|tag| + 1..] + post;
    assert Cleared(head) + [NUL] == tag + [NUL] + (Cleared(head) + [NUL])[|tag| + 1..] by { ClearedSplits(head, tag); }
    assert src == pre + tag + [NUL] + rest;
    CStrIs(pre, tag, rest);
  }

  lemma ClearedSplits(head: seq<char>, tag: seq<char>)
    requires Names(head, tag)
    ensures Cleared(head) + [NUL] == tag + [NUL] + (Cleared(head) + [NUL])[|tag| + 1..]
  {
    var cut := Cleared(head) + [NUL];
    forall k | 0 <= k < |tag|
      ensures cut[k] == tag[k]
    {
      assert head[k] == head[..|tag|][k] && tag[k] in tag;
    }
    if |tag| < |head| { assert head[|tag|] == head[|tag|..][0]; }
  }

  // ---------------------------------------------------------------- the arena a tree is built into

  /** The new last node, hung below the parent. */
  function AddNode(nodes: seq<Node>, parent: Ptr, tag: nat): (r: seq<Node>)
    requires Linked(nodes) && InArena(nodes, parent)
    ensures |r| == |nodes| + 1 && Linked(r)
  {
    LinkKid(nodes, parent, |nodes|) + [Node(tag, parent, Null, Null, Null, Null)]
  }

  /** The arena after t, rendered at position `off`, was read below the parent. */
  function Build(nodes: seq<Node>, parent: Ptr, t: Tree, off: nat): (r: seq<Node>)
    requires Linked(nodes) && InArena(nodes, parent)
    ensures |r| == |nodes| + Size(t) && Linked(r)
    decreases t, 0
  {
    var n := |nodes|;
    var grown := AddNode(nodes, parent, off + 1);
    match t
    case Branch(_, _, kids, _) => BuildAll(grown, At(n), kids, off + |t.Head()| + 2)
    case Leaf(_, _, _, _) => grown[n := grown[n].(content := At(off + |t.Head()| + 2))]
    case Empty(_, _) => grown
  }

  function BuildAll(nodes: seq<Node>, parent: Ptr, kids: seq<Tree>, off: nat): (r: seq<Node>)
    requires Linked(nodes) && InArena(nodes, parent)
    ensures |r| == |nodes| + SizeAll(kids) && Linked(r)
    decreases kids, 1
  {
    if kids == [] then nodes
    else BuildAll(Build(nodes, parent, kids[0], off), parent, kids[1..], off + |Render(kids[0])|)
  }

  // ---------------------------------------------------------------- pieces of source text

  function Cat(a: seq<char>, b: seq<char>, c: seq<char>): seq<char> { a + b + c }

  function Join(a: seq<char>, b: seq<char>): seq<char> { a + b }

  /** A start tag between other text, as written and after it was cut. */
  function StartText(pre: seq<char>, head: seq<char>, rest: seq<char>): seq<char> { pre + ['<'] + head + ['>'] + rest }

  function StartCut(pre: seq<char>, head: seq<char>, rest: seq<char>): seq<char> { pre + ['<'] + Cleared(head) + [NUL] + rest }

  /** An end tag between other text; the '<' becomes NUL where it ends a text. */
  function EndText(pre: seq<char>, foot: seq<char>, rest: seq<char>): seq<char> { pre + ['<', '/'] + foot + ['>'] + rest }

  function EndCut(pre: seq<char>, first: char, foot: seq<char>, rest: seq<char>): seq<char> {
    pre + [first, '/'] + Cleared(foot) + [NUL] + rest
  }

  function EmptyText(pre: seq<char>, head: seq<char>, rest: seq<char>): seq<char> { pre + ['<'] + head + ['/', '>'] + rest }

  function EmptyCut(pre: seq<char>, head: seq<char>, tag: seq<char>, rest: seq<char>): seq<char> {
    pre + ['<'] + Cleared(head) + EmptyMark(head, tag) + [NUL] + rest
  }

  function Push(stack: seq<nat>, tag: nat): (r: seq<nat>)
    ensures |r| == |stack| + 1
  {
    stack + [tag]
  }

  /** Node n with its text, if it has one. */
  function Filled(nodes: seq<Node>, n: nat, content: Ptr): seq<Node>
    requires n < |nodes|
  {
    if content.At? then nodes[n := nodes[n].(content := content)] else nodes
  }

  /** The element that is open once node n is closed. */
  function Up(parent: Ptr, n: nat): Ptr { if parent.At? then parent else At(n) }

  function First(content: Ptr): char { if content.At? then NUL else '<' }

  lemma StartTagStrings(pre: seq<char>, head: seq<char>, tag: seq<char>, rest: seq<char>)
    requires Opens(head, tag)
    ensures var src, cut := StartText(pre, head, rest), StartCut(pre, head, rest);
      && |pre| + |head| + 2 <= |src| == |cut| && |tag| <= |head|
      && src[|pre|] == '<' && src[|pre| + 1] == tag[0] && cut[|pre| + |tag|] != '/' && cut[|pre| + |head|] != '/'
      && Cut(src, |pre| + 1) == (cut, |pre| + 1 + |head|) && CStr(cut, |pre| + 1) == tag
  {
    hide Cut, CStr;
    NoBracket(head, tag);
    CutPlain(pre + ['<'], head, rest);
    ClearedTag(pre + ['<'], head, tag, rest);
    var cut := StartCut(pre, head, rest);
    assert cut[|pre| + |tag|] == Cleared(head)[|tag| - 1] && cut[|pre| + |head|] == Cleared(head)[|head| - 1];
    assert head[0] == head[..|tag|][0] && head[|tag| - 1] == head[..|tag|][|tag| - 1];
  }

  lemma NoBracket(head: seq<char>, tag: seq<char>)
    requires Names(head, tag)
    ensures '>' !in head && NUL !in head
  {
    assert head == tag + head[|tag|..];
  }

  lemma EmptyTagStrings(pre: seq<char>, head: seq<char>, tag: seq<char>, rest: seq<char>)
    requires Names(head, tag)
    ensures var src, slashed := EmptyText(pre, head, rest), head + ['/']; var cut := StartCut(pre, slashed, rest);
      && |pre| + |head| + 3 <= |src| == |cut| && |tag| <= |head|
      && src[|pre|] == '<' && src[|pre| + 1] == tag[0] && cut[|pre| + |slashed|] == '/'
      && Cut(src, |pre| + 1) == (cut, |pre| + 1 + |slashed|)
      && (head == tag ==> CStr(cut, |pre| + 1) == slashed && cut[|pre| + |slashed| := NUL] == EmptyCut(pre, head, tag, rest))
      && (head != tag ==> CStr(cut, |pre| + 1) == tag && cut[|pre| + |tag|] != '/' && cut == EmptyCut(pre, head, tag, rest))
  {
    hide Cut, CStr;
    var slashed := head + ['/'];
    var cut := StartCut(pre, slashed, rest);
    NoBracket(head, tag);
    assert EmptyText(pre, head, rest) == (pre + ['<']) + slashed + ['>'] + rest;
    CutPlain(pre + ['<'], slashed, rest);
    assert Cleared(slashed) == Cleared(head) + ['/'];
    assert cut == pre + ['<'] + Cleared(head) + ['/'] + [NUL] + rest;
    assert head[0] == head[..|tag|][0] && head[|tag| - 1] == head[..|tag|][|tag| - 1];
    if head == tag {
      ClearedPlain(tag);
      assert cut == (pre + ['<']) + slashed + [NUL] + rest;
      CStrIs(pre + ['<'], slashed, rest);
    } else {
      AttrsWithSlash(head, tag);
      ClearedTag(pre + ['<'], slashed, tag, rest);
    }
  }

  lemma ClearedPlain(tag: seq<char>)
    requires ' ' !in tag
    ensures Cleared(tag) == tag
  {
    forall k | 0 <= k < |tag|
      ensures Cleared(tag)[k] == tag[k]
    {
      assert tag[k] in tag;
    }
  }

  lemma AttrsWithSlash(head: seq<char>, tag: seq<char>)
    requires Names(head, tag) && head != tag
    ensures Names(head + ['/'], tag)
  {
    var slashed := head + ['/'];
    assert |tag| < |head| by { assert head[..|head|] == head; }
    assert slashed[..|tag|] == tag && slashed[|tag|..] == head[|tag|..] + ['/'];
  }

  lemma EndTagStrings(pre: seq<char>, head: seq<char>, tag: seq<char>, b: seq<char>, foot: seq<char>, end: seq<char>,
                      rest: seq<char>, content: Ptr)
    requires Names(head, tag) && Names(foot, end)
    ensures var at := StartCut(pre, head, b); var src, cut := EndText(at, foot, rest), EndCut(at, First(content), foot, rest);
      var marked := if content.At? then src[|at| := NUL] else src;
      && |at| == |pre| + |head| + 2 + |b| && |at| + |foot| + 3 <= |src| == |cut|
      && src[|at|] == '<' && src[|at| + 1] == '/'
      && Cut(marked, |at| + 2) == (cut, |at| + 2 + |foot|)
      && CStr(cut, |at| + 2) == end && CStr(cut, |pre| + 1) == tag
  {
    hide Cut, CStr, Names;
    var at := StartCut(pre, head, b);
    var first := First(content);
    EndMarked(at, foot, rest, content);
    NoBracket(foot, end);
    CutPlain(at + [first, '/'], foot, rest);
    ClearedTag(at + [first, '/'], foot, end, rest);
    EarlierTag(pre + ['<'], head, tag, b, [first, '/'] + Cleared(foot) + [NUL] + rest);
    Regroup(at, [first, '/'], Cleared(foot), rest);
  }

  lemma EndMarked(at: seq<char>, foot: seq<char>, rest: seq<char>, content: Ptr)
    ensures var src := EndText(at, foot, rest);
      (if content.At? then src[|at| := NUL] else src) == (at + [First(content), '/']) + foot + ['>'] + rest
  {}

  lemma Regroup(pre: seq<char>, mid: seq<char>, tag: seq<char>, post: seq<char>)
    ensures pre + mid + tag + [NUL] + post == pre + (mid + tag + [NUL] + post)
  {}

  lemma EarlierTag(a: seq<char>, head: seq<char>, tag: seq<char>, b: seq<char>, rest: seq<char>)
    requires Names(head, tag)
    ensures CStr((a + Cleared(head) + [NUL] + b) + rest, |a|) == tag
  {
    hide CStr, Names;
    ClearedTag(a, head, tag, b + rest);
    assert (a + Cleared(head) + [NUL] + b) + rest == a + Cleared(head) + [NUL] + (b + rest);
  }

  // ---------------------------------------------------------------- single steps

  /** A start tag, with attributes or without, opens an element with its tag. */
  lemma StartStep(pre: seq<char>, head: seq<char>, tag: seq<char>, rest: seq<char>, nodes: seq<Node>, parent: Ptr, stack: seq<nat>, content: Ptr)
    requires Opens(head, tag) && Linked(nodes) && InArena(nodes, parent)
    requires |nodes| < MAX_NODES && |stack| < MAX_DEPTH
    ensures var end := |pre| + |head| + 2; var p := Parser(StartText(pre, head, rest), |pre|, nodes, parent, stack, content);
      && WellFormed(p) && p.index < |p.src| && end <= |StartCut(pre, head, rest)|
      && Step(p) == Go(Parser(StartCut(pre, head, rest), end, AddNode(nodes, parent, |pre| + 1), At(|nodes|), Push(stack, |pre| + 1), At(end)))
      && CStr(StartCut(pre, head, rest), |pre| + 1) == tag
  {
    hide Cut, CStr, LinkKid, StartText, StartCut;
    StartTagStrings(pre, head, tag, rest);
  }

  /** A tag that ends in a slash, behind attributes or not, closes itself. */
  lemma EmptyStep(pre: seq<char>, head: seq<char>, tag: seq<char>, rest: seq<char>, nodes: seq<Node>, parent: Ptr, stack: seq<nat>, content: Ptr)
    requires Names(head, tag) && Linked(nodes) && InArena(nodes, parent) && |nodes| < MAX_NODES
    ensures var p := Parser(EmptyText(pre, head, rest), |pre|, nodes, parent, stack, content);
      && p.index < |p.src|
      && Step(p) == Go(Parser(EmptyCut(pre, head, tag, rest), |pre| + |head| + 3, AddNode(nodes, parent, |pre| + 1),
                              if parent.At? then parent else At(|nodes|), stack, Null))
  {
    hide Cut, CStr, LinkKid, EmptyText, EmptyCut, StartCut;
    EmptyTagStrings(pre, head, tag, rest);
  }

  /** Reading the end tag of node n, padded or not, whose start tag was cut earlier in the source. */
  lemma EndStep(pre: seq<char>, head: seq<char>, tag: seq<char>, b: seq<char>, foot: seq<char>, rest: seq<char>,
                nodes: seq<Node>, n: nat, stack: seq<nat>, content: Ptr)
    requires Names(head, tag) && Names(foot, tag) && Linked(nodes) && n < |nodes|
    ensures var at := StartCut(pre, head, b); var p := Parser(EndText(at, foot, rest), |at|, nodes, At(n), Push(stack, |pre| + 1), content);
      && WellFormed(p) && p.index < |p.src| && |at| == |pre| + |head| + 2 + |b|
      && Step(p) == Go(Parser(EndCut(at, First(content), foot, rest), |at| + |foot| + 3,
                              Filled(nodes, n, content), Up(nodes[n].parent, n), stack, Null))
  {
    hide Cut, CStr, LinkKid, Linked, StartCut, EndText, EndCut, Names;
    EndTagStrings(pre, head, tag, b, foot, tag, rest, content);
    assert Push(stack, |pre| + 1)[..|stack|] == stack;
  }

  /** An end tag that names another element than the open one makes the parse return 0, whatever stands between them. */
  lemma MismatchRejected(pre: seq<char>, head: seq<char>, tag: seq<char>, b: seq<char>, foot: seq<char>, end: seq<char>, rest: seq<char>,
                         nodes: seq<Node>, n: nat, stack: seq<nat>, content: Ptr)
    requires Names(head, tag) && Names(foot, end) && tag != end && Linked(nodes) && n < |nodes|
    ensures var at := StartCut(pre, head, b); var p := Parser(EndText(at, foot, rest), |at|, nodes, At(n), Push(stack, |pre| + 1), content);
      WellFormed(p) && p.index < |p.src| && Step(p) == Run(p) == Reject
  {
    hide Cut, CStr, LinkKid, Linked, StartCut, EndText, EndCut, Names, Open, Run;
    var at := StartCut(pre, head, b);
    EndTagStrings(pre, head, tag, b, foot, end, rest, content);
    RejectStops(Parser(EndText(at, foot, rest), |at|, nodes, At(n), Push(stack, |pre| + 1), content));
  }

  lemma RejectStops(p: Parser)
    requires WellFormed(p) && p.index < |p.src| && Step(p) == Reject
    ensures Run(p) == Reject
  {}

  /** No tag starts between the parser's position and j. */
  predicate NoTagBefore(p: Parser, j: nat) {
    p.index <= j <= |p.src| && forall k :: p.index <= k < j ==> p.src[k] != '<' || Ch(p.src, k + 1) == '?'
  }

  /** Everything that is not a start or end tag is passed over. */
  lemma {:induction false} SkipTo(p: Parser, j: nat)
    requires WellFormed(p) && NoTagBefore(p, j)
    ensures Run(p) == Run(p.(index := j))
    decreases j - p.index
  {
    hide Open, Close, Linked;
    if p.index < j { SkipTo(p.(index := p.index + 1), j); }
  }

  lemma RunStep(p: Parser, q: Parser)
    requires WellFormed(p) && p.index < |p.src| && Step(p) == Go(q)
    ensures WellFormed(q) && Run(p) == Run(q)
  {}

  // ---------------------------------------------------------------- whole trees

  /** Older nodes keep their tag, parent and content while a tree is built. */
  lemma BuildKeeps(nodes: seq<Node>, parent: Ptr, t: Tree, off: nat, k: nat)
    requires Linked(nodes) && InArena(nodes, parent) && k < |nodes|
    ensures var r := Build(nodes, parent, t, off);
      r[k].tag == nodes[k].tag && r[k].parent == nodes[k].parent && r[k].content == nodes[k].content
    decreases t, 0
  {
    var n := |nodes|;
    var grown := AddNode(nodes, parent, off + 1);
    assert grown[k].tag == nodes[k].tag && grown[k].parent == nodes[k].parent && grown[k].content == nodes[k].content;
    match t
    case Branch(_, _, kids, _) => BuildAllKeeps(grown, At(n), kids, off + |t.Head()| + 2, k);
    case Leaf(_, _, _, _) =>
    case Empty(_, _) =>
  }

  lemma BuildAllKeeps(nodes: seq<Node>, parent: Ptr, kids: seq<Tree>, off: nat, k: nat)
    requires Linked(nodes) && InArena(nodes, parent) && k < |nodes|
    ensures var r := BuildAll(nodes, parent, kids, off);
      r[k].tag == nodes[k].tag && r[k].parent == nodes[k].parent && r[k].content == nodes[k].content
    decreases kids, 1
  {
    if kids != [] {
      BuildKeeps(nodes, parent, kids[0], off, k);
      BuildAllKeeps(Build(nodes, parent, kids[0], off), parent, kids[1..], off + |Render(kids[0])|, k);
    }
  }

  lemma BuildEmpty(nodes: seq<Node>, parent: Ptr, t: Tree, off: nat)
    requires Linked(nodes) && InArena(nodes, parent) && t.Empty?
    ensures Build(nodes, parent, t, off) == AddNode(nodes, parent, off + 1)
  {}

  lemma BuildLeaf(nodes: seq<Node>, parent: Ptr, t: Tree, off: nat)
    requires Linked(nodes) && InArena(nodes, parent) && t.Leaf?
    ensures var grown := AddNode(nodes, parent, off + 1);
      && grown[|nodes|].parent == parent
      && Build(nodes, parent, t, off) == Filled(grown, |nodes|, At(off + |t.Head()| + 2))
  {}

  lemma BuildBranch(nodes: seq<Node>, parent: Ptr, t: Tree, off: nat)
    requires Linked(nodes) && InArena(nodes, parent) && t.Branch?
    ensures var grown := AddNode(nodes, parent, off + 1);
      && grown[|nodes|].parent == parent
      && Build(nodes, parent, t, off) == BuildAll(grown, At(|nodes|), t.kids, off + |t.Head()| + 2)
  {}

  /** The parser in front of a piece of text, and behind it once it was cut. */
  function Before(pre: seq<char>, text: seq<char>, post: seq<char>, nodes: seq<Node>, parent: Ptr, stack: seq<nat>, content: Ptr): Parser {
    Parser(Cat(pre, text, post), |pre|, nodes, parent, stack, content)
  }

  function After(pre: seq<char>, cut: seq<char>, post: seq<char>, nodes: seq<Node>, parent: Ptr, stack: seq<nat>, content: Ptr): Parser {
    Parser(Cat(pre, cut, post), |pre| + |cut|, nodes, parent, stack, content)
  }

  /** Reading the rendering of a tree adds exactly the tree's nodes, cuts exactly its strings, and
      returns to the element it started in. */
  lemma ParseTree(pre: seq<char>, t: Tree, post: seq<char>, nodes: seq<Node>, parent: Ptr, stack: seq<nat>, content: Ptr)
    requires Plain(t) && Linked(nodes) && InArena(nodes, parent)
    requires |nodes| + Size(t) <= MAX_NODES && |stack| + Depth(t) <= MAX_DEPTH
    ensures Run(Before(pre, Render(t), post, nodes, parent, stack, content))
         == Run(After(pre, CutRender(t), post, Build(nodes, parent, t, |pre|), Up(parent, |nodes|), stack, Null))
    decreases t, 0
  {
    hide Step, Run, Linked, LinkKid, CutRender, Render, Build;
    PlainNames(t);
    match t
    case Branch(_, _, _, _) => ParseBranch(pre, t, post, nodes, parent, stack, content);
    case Leaf(_, _, _, _) => ParseLeaf(pre, t, post, nodes, parent, stack, content);
    case Empty(_, _) => ParseEmpty(pre, t, post, nodes, parent, stack, content);
  }

  lemma ParseEmpty(pre: seq<char>, t: Tree, post: seq<char>, nodes: seq<Node>, parent: Ptr, stack: seq<nat>, content: Ptr)
    requires t.Empty? && Names(t.Head(), t.tag) && Linked(nodes) && InArena(nodes, parent) && |nodes| < MAX_NODES
    ensures Run(Before(pre, Render(t), post, nodes, parent, stack, content))
         == Run(After(pre, CutRender(t), post, Build(nodes, parent, t, |pre|), Up(parent, |nodes|), stack, Null))
  {
    hide *;
    EmptyStates(pre, t, post, nodes, parent, stack, content);
    EmptyStep(pre, t.Head(), t.tag, post, nodes, parent, stack, content);
    WellFormedBefore(pre, Render(t), post, nodes, parent, stack, content);
    RunStep(Before(pre, Render(t), post, nodes, parent, stack, content),
            After(pre, CutRender(t), post, Build(nodes, parent, t, |pre|), Up(parent, |nodes|), stack, Null));
  }

  lemma WellFormedBefore(pre: seq<char>, text: seq<char>, post: seq<char>, nodes: seq<Node>, parent: Ptr, stack: seq<nat>, content: Ptr)
    requires Linked(nodes) && InArena(nodes, parent)
    ensures WellFormed(Before(pre, text, post, nodes, parent, stack, content))
  {
    hide Linked;
  }

  lemma EmptyStates(pre: seq<char>, t: Tree, post: seq<char>, nodes: seq<Node>, parent: Ptr, stack: seq<nat>, content: Ptr)
    requires t.Empty? && Linked(nodes) && InArena(nodes, parent)
    ensures Before(pre, Render(t), post, nodes, parent, stack, content)
         == Parser(EmptyText(pre, t.Head(), post), |pre|, nodes, parent, stack, content)
    ensures After(pre, CutRender(t), post, Build(nodes, parent, t, |pre|), Up(parent, |nodes|), stack, Null)
         == Parser(EmptyCut(pre, t.Head(), t.tag, post), |pre| + |t.Head()| + 3, AddNode(nodes, parent, |pre| + 1),
                   if parent.At? then parent else At(|nodes|), stack, Null)
  {
    hide Linked, AddNode, Build, Render, CutRender, Cat, EmptyText, EmptyCut;
    BuildEmpty(nodes, parent, t, |pre|);
    EmptyStrings(pre, t, post);
  }

  lemma EmptyStrings(pre: seq<char>, t: Tree, post: seq<char>)
    requires t.Empty?
    ensures Cat(pre, Render(t), post) == EmptyText(pre, t.Head(), post)
    ensures Cat(pre, CutRender(t), post) == EmptyCut(pre, t.Head(), t.tag, post)
    ensures |Render(t)| == |CutRender(t)| == |t.Head()| + 3
  {}

  /** Inside the text of a leaf whose start tag was read. */
  ghost function InLeaf(pre: seq<char>, t: Tree, post: seq<char>, nodes: seq<Node>, parent: Ptr, stack: seq<nat>, index: nat): Parser
    requires Linked(nodes) && InArena(nodes, parent)
  {
    Parser(StartCut(pre, t.Head(), EndText(t.Text(), t.Foot(), post)), index, AddNode(nodes, parent, |pre| + 1), At(|nodes|),
           Push(stack, |pre| + 1), At(|pre| + |t.Head()| + 2))
  }

  lemma LeafTextIsText(pre: seq<char>, t: Tree, post: seq<char>, nodes: seq<Node>, parent: Ptr, stack: seq<nat>)
    requires t.Leaf? && PlainText(t.text) && Linked(nodes) && InArena(nodes, parent)
    ensures var q := InLeaf(pre, t, post, nodes, parent, stack, |pre| + |t.Head()| + 2);
      && q.index == |pre| + |t.Head()| + 2
      && q.(index := q.index + |t.text|) == InLeaf(pre, t, post, nodes, parent, stack, q.index + |t.text|)
      && NoTagBefore(q, q.index + |t.text|)
  {
    hide AddNode, Push, StartCut, EndText, EndCut, Linked, Cat, StartText, Render, CutRender;
    LeafStrings(pre, t, post);
  }

  /** The text of a leaf is passed over. */
  lemma SkipText(pre: seq<char>, t: Tree, post: seq<char>, nodes: seq<Node>, parent: Ptr, stack: seq<nat>)
    requires t.Leaf? && PlainText(t.text) && Linked(nodes) && InArena(nodes, parent)
    requires WellFormed(InLeaf(pre, t, post, nodes, parent, stack, |pre| + |t.Head()| + 2))
    ensures Run(InLeaf(pre, t, post, nodes, parent, stack, |pre| + |t.Head()| + 2))
         == Run(InLeaf(pre, t, post, nodes, parent, stack, |pre| + |t.Head()| + 2 + |t.text|))
  {
    hide *;
    var q := InLeaf(pre, t, post, nodes, parent, stack, |pre| + |t.Head()| + 2);
    LeafTextIsText(pre, t, post, nodes, parent, stack);
    SkipTo(q, q.index + |t.text|);
  }

  lemma ParseLeaf(pre: seq<char>, t: Tree, post: seq<char>, nodes: seq<Node>, parent: Ptr, stack: seq<nat>, content: Ptr)
    requires t.Leaf? && Opens(t.Head(), t.tag) && Names(t.Head(), t.tag) && Names(t.Foot(), t.tag) && PlainText(t.text) && Linked(nodes) && InArena(nodes, parent)
    requires |nodes| < MAX_NODES && |stack| < MAX_DEPTH
    ensures Run(Before(pre, Render(t), post, nodes, parent, stack, content))
         == Run(After(pre, CutRender(t), post, Build(nodes, parent, t, |pre|), Up(parent, |nodes|), stack, Null))
  {
    hide *;
    LeafStart(pre, t, post, nodes, parent, stack, content);
    SkipText(pre, t, post, nodes, parent, stack);
    LeafEnd(pre, t, post, nodes, parent, stack);
  }

  lemma LeafStart(pre: seq<char>, t: Tree, post: seq<char>, nodes: seq<Node>, parent: Ptr, stack: seq<nat>, content: Ptr)
    requires t.Leaf? && Opens(t.Head(), t.tag) && Names(t.Head(), t.tag) && Names(t.Foot(), t.tag) && PlainText(t.text) && Linked(nodes) && InArena(nodes, parent)
    requires |nodes| < MAX_NODES && |stack| < MAX_DEPTH
    ensures var q := InLeaf(pre, t, post, nodes, parent, stack, |pre| + |t.Head()| + 2);
      WellFormed(q) && Run(Before(pre, Render(t), post, nodes, parent, stack, content)) == Run(q)
  {
    hide Push, AddNode, Build, Render, CutRender, Cat, StartText, StartCut, EndText, EndCut, Linked, LinkKid, Step, Run, WellFormed, Names, Opens, Cleared;
    LeafStrings(pre, t, post);
    StartStep(pre, t.Head(), t.tag, EndText(t.text, t.Foot(), post), nodes, parent, stack, content);
    RunStep(Before(pre, Render(t), post, nodes, parent, stack, content),
            InLeaf(pre, t, post, nodes, parent, stack, |pre| + |t.Head()| + 2));
  }

  lemma LeafEnd(pre: seq<char>, t: Tree, post: seq<char>, nodes: seq<Node>, parent: Ptr, stack: seq<nat>)
    requires t.Leaf? && Opens(t.Head(), t.tag) && Names(t.Head(), t.tag) && Names(t.Foot(), t.tag) && PlainText(t.text) && Linked(nodes) && InArena(nodes, parent)
    ensures var r := InLeaf(pre, t, post, nodes, parent, stack, |pre| + |t.Head()| + 2 + |t.text|);
      WellFormed(r)
      && Run(r) == Run(After(pre, CutRender(t), post, Build(nodes, parent, t, |pre|), Up(parent, |nodes|), stack, Null))
  {
    hide *;
    var r := InLeaf(pre, t, post, nodes, parent, stack, |pre| + |t.Head()| + 2 + |t.text|);
    LeafLast(pre, t, post, nodes, parent, stack);
    RunStep(r, Step(r).p);
  }

  lemma LeafStates(pre: seq<char>, t: Tree, post: seq<char>, nodes: seq<Node>, parent: Ptr, stack: seq<nat>)
    requires t.Leaf? && PlainText(t.text) && Linked(nodes) && InArena(nodes, parent)
    ensures var body, at, grown := |pre| + |t.Head()| + 2, StartCut(pre, t.Head(), t.text), AddNode(nodes, parent, |pre| + 1);
      && InLeaf(pre, t, post, nodes, parent, stack, body + |t.text|)
         == Parser(EndText(at, t.Foot(), post), |at|, grown, At(|nodes|), Push(stack, |pre| + 1), At(body))
      && After(pre, CutRender(t), post, Build(nodes, parent, t, |pre|), Up(parent, |nodes|), stack, Null)
         == Parser(EndCut(at, First(At(body)), t.Foot(), post), |at| + |t.Foot()| + 3, Filled(grown, |nodes|, At(body)),
                   Up(grown[|nodes|].parent, |nodes|), stack, Null)
  {
    hide AddNode, Push, Build, Render, CutRender, Cat, StartText, StartCut, EndText, EndCut, Linked, Filled;
    LeafStrings(pre, t, post);
    BuildLeaf(nodes, parent, t, |pre|);
  }

  lemma LeafLast(pre: seq<char>, t: Tree, post: seq<char>, nodes: seq<Node>, parent: Ptr, stack: seq<nat>)
    requires t.Leaf? && Opens(t.Head(), t.tag) && Names(t.Head(), t.tag) && Names(t.Foot(), t.tag) && PlainText(t.text) && Linked(nodes) && InArena(nodes, parent)
    ensures var r := InLeaf(pre, t, post, nodes, parent, stack, |pre| + |t.Head()| + 2 + |t.text|);
      WellFormed(r) && r.index < |r.src|
      && Step(r) == Go(After(pre, CutRender(t), post, Build(nodes, parent, t, |pre|), Up(parent, |nodes|), stack, Null))
  {
    hide *;
    LeafStates(pre, t, post, nodes, parent, stack);
    EndStep(pre, t.Head(), t.tag, t.text, t.Foot(), post, AddNode(nodes, parent, |pre| + 1), |nodes|, stack, At(|pre| + |t.Head()| + 2));
  }

  lemma LeafStrings(pre: seq<char>, t: Tree, post: seq<char>)
    requires t.Leaf? && PlainText(t.text)
    ensures var body := |pre| + |t.Head()| + 2; var cut := StartCut(pre, t.Head(), EndText(t.text, t.Foot(), post));
      && Cat(pre, Render(t), post) == StartText(pre, t.Head(), EndText(t.text, t.Foot(), post))
      && cut == EndText(StartCut(pre, t.Head(), t.text), t.Foot(), post)
      && EndCut(StartCut(pre, t.Head(), t.text), NUL, t.Foot(), post) == Cat(pre, CutRender(t), post)
      && body + |t.text| == |StartCut(pre, t.Head(), t.text)| <= |cut|
      && (forall k :: body <= k < body + |t.text| ==> cut[k] != '<')
      && |Render(t)| == |CutRender(t)| == |t.Head()| + |t.Foot()| + |t.text| + 5
  {
    assert Render(t) == ['<'] + t.Head() + ['>'] + t.text + ['<', '/'] + t.Foot() + ['>'];
    assert CutRender(t) == ['<'] + Cleared(t.Head()) + [NUL] + t.text + [NUL, '/'] + Cleared(t.Foot()) + [NUL];
    hide Render, CutRender, Cleared;
    TagsText(pre, t.Head(), t.text, t.Foot(), post);
    TagsCut(pre, t.Head(), t.text, NUL, t.Foot(), post);
    TextInside(pre, t.Head(), t.text, EndText([], t.Foot(), post));
  }

  lemma TextInside(pre: seq<char>, head: seq<char>, text: seq<char>, rest: seq<char>)
    requires PlainText(text)
    ensures var body, cut := |pre| + |head| + 2, Cat(StartCut(pre, head, []), text, rest);
      body + |text| == |StartCut(pre, head, text)| <= |cut| && forall k :: body <= k < body + |text| ==> cut[k] != '<'
  {
    var body, cut := |pre| + |head| + 2, Cat(StartCut(pre, head, []), text, rest);
    forall k | body <= k < body + |text|
      ensures cut[k] != '<'
    {
      assert cut[k] == text[k - body];
    }
  }

  /** In front of the children of an element whose start tag was read, and behind them. */
  ghost function InBranch(pre: seq<char>, t: Tree, post: seq<char>, nodes: seq<Node>, parent: Ptr, stack: seq<nat>): Parser
    requires Linked(nodes) && InArena(nodes, parent) && t.Branch?
  {
    var open := StartCut(pre, t.Head(), []);
    Before(open, RenderAll(t.kids), EndText([], t.Foot(), post), AddNode(nodes, parent, |pre| + 1), At(|nodes|),
           Push(stack, |pre| + 1), At(|open|))
  }

  ghost function PastKids(pre: seq<char>, t: Tree, post: seq<char>, nodes: seq<Node>, parent: Ptr, stack: seq<nat>): Parser
    requires Linked(nodes) && InArena(nodes, parent) && t.Branch?
  {
    var open := StartCut(pre, t.Head(), []);
    After(open, CutRenderAll(t.kids), EndText([], t.Foot(), post),
          BuildAll(AddNode(nodes, parent, |pre| + 1), At(|nodes|), t.kids, |open|), At(|nodes|), Push(stack, |pre| + 1), Null)
  }

  lemma ParseBranch(pre: seq<char>, t: Tree, post: seq<char>, nodes: seq<Node>, parent: Ptr, stack: seq<nat>, content: Ptr)
    requires t.Branch? && Plain(t) && Linked(nodes) && InArena(nodes, parent)
    requires |nodes| + Size(t) <= MAX_NODES && |stack| + Depth(t) <= MAX_DEPTH
    ensures Run(Before(pre, Render(t), post, nodes, parent, stack, content))
         == Run(After(pre, CutRender(t), post, Build(nodes, parent, t, |pre|), Up(parent, |nodes|), stack, Null))
    decreases t.kids, 2
  {
    hide Step, Run, Linked, AddNode, Push, Build, BuildAll, Render, CutRender, RenderAll, CutRenderAll;
    hide Cat, StartText, StartCut, EndText, EndCut;
    PlainNames(t);
    BranchStart(pre, t, post, nodes, parent, stack, content);
    BranchEnd(pre, t, post, nodes, parent, stack);
    var open, end, grown := StartCut(pre, t.Head(), []), EndText([], t.Foot(), post), AddNode(nodes, parent, |pre| + 1);
    ParseKids(open, t.kids, end, grown, |nodes|, Push(stack, |pre| + 1), At(|open|));
  }

  lemma BranchStart(pre: seq<char>, t: Tree, post: seq<char>, nodes: seq<Node>, parent: Ptr, stack: seq<nat>, content: Ptr)
    requires t.Branch? && Opens(t.Head(), t.tag) && Names(t.Head(), t.tag) && Names(t.Foot(), t.tag) && Linked(nodes) && InArena(nodes, parent)
    requires |nodes| < MAX_NODES && |stack| < MAX_DEPTH
    ensures Run(Before(pre, Render(t), post, nodes, parent, stack, content)) == Run(InBranch(pre, t, post, nodes, parent, stack))
  {
    hide Push, AddNode, Build, BuildAll, Render, CutRender, RenderAll, CutRenderAll, Cat, StartText, StartCut, EndText, EndCut;
    hide Linked, LinkKid, Step, Run, WellFormed, Names, Opens, Cleared;
    BranchStrings(pre, t, post);
    StartStep(pre, t.Head(), t.tag, EndText(RenderAll(t.kids), t.Foot(), post), nodes, parent, stack, content);
    RunStep(Before(pre, Render(t), post, nodes, parent, stack, content), InBranch(pre, t, post, nodes, parent, stack));
  }

  lemma BranchEnd(pre: seq<char>, t: Tree, post: seq<char>, nodes: seq<Node>, parent: Ptr, stack: seq<nat>)
    requires t.Branch? && Opens(t.Head(), t.tag) && Names(t.Head(), t.tag) && Names(t.Foot(), t.tag) && Linked(nodes) && InArena(nodes, parent)
    ensures Run(PastKids(pre, t, post, nodes, parent, stack))
         == Run(After(pre, CutRender(t), post, Build(nodes, parent, t, |pre|), Up(parent, |nodes|), stack, Null))
  {
    hide *;
    BranchLast(pre, t, post, nodes, parent, stack);
    var r := PastKids(pre, t, post, nodes, parent, stack);
    RunStep(r, Step(r).p);
  }

  lemma BranchStates(pre: seq<char>, t: Tree, post: seq<char>, nodes: seq<Node>, parent: Ptr, stack: seq<nat>)
    requires t.Branch? && Linked(nodes) && InArena(nodes, parent)
    ensures var n, open, at := |nodes|, StartCut(pre, t.Head(), []), StartCut(pre, t.Head(), CutRenderAll(t.kids));
      var grown := AddNode(nodes, parent, |pre| + 1); var built := BuildAll(grown, At(n), t.kids, |open|);
      && InArena(grown, At(n)) && grown[n].parent == parent
      && PastKids(pre, t, post, nodes, parent, stack) == Parser(EndText(at, t.Foot(), post), |at|, built, At(n), Push(stack, |pre| + 1), Null)
      && After(pre, CutRender(t), post, Build(nodes, parent, t, |pre|), Up(parent, n), stack, Null)
         == Parser(EndCut(at, First(Null), t.Foot(), post), |at| + |t.Foot()| + 3, Filled(built, n, Null), Up(parent, n), stack, Null)
  {
    hide AddNode, Push, Build, BuildAll, Render, CutRender, RenderAll, CutRenderAll, Cat, StartText, EndText, EndCut, Linked;
    BranchStrings(pre, t, post);
    BuildBranch(nodes, parent, t, |pre|);
  }

  lemma BranchLast(pre: seq<char>, t: Tree, post: seq<char>, nodes: seq<Node>, parent: Ptr, stack: seq<nat>)
    requires t.Branch? && Opens(t.Head(), t.tag) && Names(t.Head(), t.tag) && Names(t.Foot(), t.tag) && Linked(nodes) && InArena(nodes, parent)
    ensures var r := PastKids(pre, t, post, nodes, parent, stack);
      WellFormed(r) && r.index < |r.src|
      && Step(r) == Go(After(pre, CutRender(t), post, Build(nodes, parent, t, |pre|), Up(parent, |nodes|), stack, Null))
  {
    hide *;
    var n, open, grown := |nodes|, StartCut(pre, t.Head(), []), AddNode(nodes, parent, |pre| + 1);
    BranchStates(pre, t, post, nodes, parent, stack);
    BuildAllKeeps(grown, At(n), t.kids, |open|, n);
    EndStep(pre, t.Head(), t.tag, CutRenderAll(t.kids), t.Foot(), post, BuildAll(grown, At(n), t.kids, |open|), n, stack, Null);
  }

  lemma BranchStrings(pre: seq<char>, t: Tree, post: seq<char>)
    requires t.Branch?
    ensures var head, foot, text, cut := t.Head(), t.Foot(), RenderAll(t.kids), CutRenderAll(t.kids);
      var open, end := StartCut(pre, head, []), EndText([], foot, post);
      && |open| == |pre| + |head| + 2
      && Cat(pre, Render(t), post) == StartText(pre, head, EndText(text, foot, post))
      && StartCut(pre, head, EndText(text, foot, post)) == Cat(open, text, end)
      && Cat(open, cut, end) == EndText(StartCut(pre, head, cut), foot, post)
      && EndCut(StartCut(pre, head, cut), '<', foot, post) == Cat(pre, CutRender(t), post)
      && |Render(t)| == |CutRender(t)| == |t.Head()| + |t.Foot()| + |cut| + 5
  {
    var text, cut := RenderAll(t.kids), CutRenderAll(t.kids);
    assert Render(t) == ['<'] + t.Head() + ['>'] + text + ['<', '/'] + t.Foot() + ['>'];
    assert CutRender(t) == ['<'] + Cleared(t.Head()) + [NUL] + cut + ['<', '/'] + Cleared(t.Foot()) + [NUL];
    hide RenderAll, CutRenderAll, Render, CutRender;
    TagsText(pre, t.Head(), text, t.Foot(), post);
    TagsCut(pre, t.Head(), cut, '<', t.Foot(), post);
  }

  lemma TagsText(pre: seq<char>, head: seq<char>, text: seq<char>, foot: seq<char>, post: seq<char>)
    ensures Cat(pre, ['<'] + head + ['>'] + text + ['<', '/'] + foot + ['>'], post) == StartText(pre, head, EndText(text, foot, post))
    ensures StartCut(pre, head, EndText(text, foot, post)) == Cat(StartCut(pre, head, []), text, EndText([], foot, post))
  {}

  lemma TagsCut(pre: seq<char>, head: seq<char>, cut: seq<char>, first: char, foot: seq<char>, post: seq<char>)
    ensures Cat(StartCut(pre, head, []), cut, EndText([], foot, post)) == EndText(StartCut(pre, head, cut), foot, post)
    ensures EndCut(StartCut(pre, head, cut), first, foot, post)
         == Cat(pre, ['<'] + Cleared(head) + [NUL] + cut + [first, '/'] + Cleared(foot) + [NUL], post)
  {}

  /** Reading the children of an open element, one after the other. */
  lemma ParseKids(pre: seq<char>, kids: seq<Tree>, post: seq<char>, nodes: seq<Node>, parent: nat, stack: seq<nat>, content: Ptr)
    requires forall k :: 0 <= k < |kids| ==> Plain(kids[k])
    requires Linked(nodes) && parent < |nodes|
    requires |nodes| + SizeAll(kids) <= MAX_NODES && |stack| + DepthAll(kids) <= MAX_DEPTH
    ensures Run(Before(pre, RenderAll(kids), post, nodes, At(parent), stack, content))
         == Run(After(pre, CutRenderAll(kids), post, BuildAll(nodes, At(parent), kids, |pre|), At(parent), stack,
                      if kids == [] then content else Null))
    decreases kids, 1
  {
    hide Step, Run, Before, After, Linked, WellFormed, LinkKid, AddNode, Cat, Join, Render, CutRender, RenderAll, CutRenderAll, Build, BuildAll, Plain;
    if kids == [] {
      NoKids(pre, post, nodes, parent, stack, content);
    } else {
      var kid, rest := kids[0], kids[1..];
      KidsAround(pre, kids, post, nodes, parent, stack, content);
      ParseTree(pre, kid, Join(RenderAll(rest), post), nodes, At(parent), stack, content);
      ParseKids(Join(pre, CutRender(kid)), rest, post, Build(nodes, At(parent), kid, |pre|), parent, stack, Null);
    }
  }

  lemma NoKids(pre: seq<char>, post: seq<char>, nodes: seq<Node>, parent: nat, stack: seq<nat>, content: Ptr)
    requires Linked(nodes) && parent < |nodes|
    ensures Before(pre, RenderAll([]), post, nodes, At(parent), stack, content)
         == After(pre, CutRenderAll([]), post, BuildAll(nodes, At(parent), [], |pre|), At(parent), stack, content)
  {
    hide Linked;
  }

  /** The states of the first child and of the other children fit together. */
  lemma KidsAround(pre: seq<char>, kids: seq<Tree>, post: seq<char>, nodes: seq<Node>, parent: nat, stack: seq<nat>, content: Ptr)
    requires kids != [] && Linked(nodes) && parent < |nodes|
    ensures var kid, rest := kids[0], kids[1..]; var tail := Join(RenderAll(rest), post);
      var next, grown := Join(pre, CutRender(kid)), Build(nodes, At(parent), kid, |pre|);
      && Before(pre, RenderAll(kids), post, nodes, At(parent), stack, content) == Before(pre, Render(kid), tail, nodes, At(parent), stack, content)
      && After(pre, CutRender(kid), tail, grown, Up(At(parent), |nodes|), stack, Null) == Before(next, RenderAll(rest), post, grown, At(parent), stack, Null)
      && After(next, CutRenderAll(rest), post, BuildAll(grown, At(parent), rest, |next|), At(parent), stack, Null)
         == After(pre, CutRenderAll(kids), post, BuildAll(nodes, At(parent), kids, |pre|), At(parent), stack, Null)
  {
    hide Render, CutRender, RenderAll, CutRenderAll, Build, BuildAll, Cat, Join, Linked;
    KidStrings(pre, kids, post);
    BuildAllUnfolds(nodes, At(parent), kids, |pre|);
  }

  lemma BuildAllUnfolds(nodes: seq<Node>, parent: Ptr, kids: seq<Tree>, off: nat)
    requires Linked(nodes) && InArena(nodes, parent) && kids != []
    ensures BuildAll(nodes, parent, kids, off)
         == BuildAll(Build(nodes, parent, kids[0], off), parent, kids[1..], off + |Render(kids[0])|)
  {
    hide Build, Render, Linked;
  }

  lemma KidStrings(pre: seq<char>, kids: seq<Tree>, post: seq<char>)
    requires kids != []
    ensures var kid, rest := kids[0], kids[1..]; var next := Join(pre, CutRender(kid));
      && Cat(pre, RenderAll(kids), post) == Cat(pre, Render(kid), Join(RenderAll(rest), post))
      && Cat(pre, CutRender(kid), Join(RenderAll(rest), post)) == Cat(next, RenderAll(rest), post)
      && Cat(pre, CutRenderAll(kids), post) == Cat(next, CutRenderAll(rest), post)
      && |next| == |pre| + |CutRender(kid)| == |pre| + |Render(kid)|
      && |pre| + |CutRenderAll(kids)| == |next| + |CutRenderAll(rest)|
  {
    hide Render, CutRender, Cat, Join;
    Splice(pre, Render(kids[0]), RenderAll(kids[1..]), CutRender(kids[0]), CutRenderAll(kids[1..]), post);
  }

  lemma Splice(pre: seq<char>, a: seq<char>, b: seq<char>, c: seq<char>, d: seq<char>, post: seq<char>)
    ensures Cat(pre, a + b, post) == Cat(pre, a, Join(b, post))
    ensures Cat(pre, c, Join(b, post)) == Cat(Join(pre, c), b, post)
    ensures Cat(pre, c + d, post) == Cat(Join(pre, c), d, post)
    ensures |Join(pre, c)| == |pre| + |c|
  {}

  // ---------------------------------------------------------------- too many nodes

  lemma OpenRejects(p: Parser)
    requires WellFormed(p) && p.index < |p.src| && |p.nodes| >= MAX_NODES
    requires p.src[p.index] == '<' && Ch(p.src, p.index + 1) != '/' && Ch(p.src, p.index + 1) != '?'
    ensures Run(p) == Reject
  {
    hide Linked, LinkKid, CStr;
  }

  lemma TagInFront(pre: seq<char>, t: Tree, post: seq<char>, nodes: seq<Node>, parent: Ptr, stack: seq<nat>, content: Ptr)
    requires PlainTag(t.tag) && Linked(nodes) && InArena(nodes, parent)
    ensures var p := Before(pre, Render(t), post, nodes, parent, stack, content);
      p.nodes == nodes && WellFormed(p) && p.index < |p.src| && p.src[p.index] == '<' && Ch(p.src, p.index + 1) == t.tag[0]
  {
    hide Linked, RenderAll;
    assert |Render(t)| >= 2 && Render(t)[0] == '<' && Render(t)[1] == t.tag[0];
    var p := Before(pre, Render(t), post, nodes, parent, stack, content);
    assert p.src[|pre|] == Render(t)[0] && p.src[|pre| + 1] == Render(t)[1];
  }

  lemma TreeRejected(pre: seq<char>, t: Tree, post: seq<char>, nodes: seq<Node>, parent: Ptr, stack: seq<nat>, content: Ptr)
    requires Plain(t) && Linked(nodes) && InArena(nodes, parent)
    requires |nodes| + Size(t) > MAX_NODES && |stack| + Depth(t) <= MAX_DEPTH
    ensures Run(Before(pre, Render(t), post, nodes, parent, stack, content)) == Reject
    decreases t, 0
  {
    hide Step, Run, Before, Linked, WellFormed, LinkKid, Render, RenderAll, Cat, StartCut, EndText, AddNode;
    PlainNames(t);
    if |nodes| >= MAX_NODES {
      TagInFront(pre, t, post, nodes, parent, stack, content);
      OpenRejects(Before(pre, Render(t), post, nodes, parent, stack, content));
    } else {
      var open, grown := StartCut(pre, t.Head(), []), AddNode(nodes, parent, |pre| + 1);
      BranchStart(pre, t, post, nodes, parent, stack, content);
      KidsRejected(open, t.kids, EndText([], t.Foot(), post), grown, |nodes|, Push(stack, |pre| + 1), At(|open|));
    }
  }

  lemma KidsRejected(pre: seq<char>, kids: seq<Tree>, post: seq<char>, nodes: seq<Node>, parent: nat, stack: seq<nat>, content: Ptr)
    requires forall k :: 0 <= k < |kids| ==> Plain(kids[k])
    requires Linked(nodes) && parent < |nodes| <= MAX_NODES
    requires |nodes| + SizeAll(kids) > MAX_NODES && |stack| + DepthAll(kids) <= MAX_DEPTH
    ensures Run(Before(pre, RenderAll(kids), post, nodes, At(parent), stack, content)) == Reject
    decreases kids, 1
  {
    hide Step, Run, Before, After, Linked, WellFormed, LinkKid, AddNode, Cat, Join, Render, CutRender, RenderAll, CutRenderAll, Build, BuildAll, Plain;
    var kid, rest := kids[0], kids[1..];
    KidsAround(pre, kids, post, nodes, parent, stack, content);
    if |nodes| + Size(kid) > MAX_NODES {
      TreeRejected(pre, kid, Join(RenderAll(rest), post), nodes, At(parent), stack, content);
    } else {
      ParseTree(pre, kid, Join(RenderAll(rest), post), nodes, At(parent), stack, content);
      KidsRejected(Join(pre, CutRender(kid)), rest, post, Build(nodes, At(parent), kid, |pre|), parent, stack, Null);
    }
  }

  // ---------------------------------------------------------------- too many open elements

  lemma StartFaults(pre: seq<char>, head: seq<char>, tag: seq<char>, rest: seq<char>, nodes: seq<Node>, parent: Ptr, stack: seq<nat>, content: Ptr)
    requires Opens(head, tag) && Linked(nodes) && InArena(nodes, parent)
    requires |nodes| < MAX_NODES && |stack| >= MAX_DEPTH
    ensures var p := Parser(StartText(pre, head, rest), |pre|, nodes, parent, stack, content);
      WellFormed(p) && Run(p) == Fault
  {
    hide Cut, CStr, LinkKid, StartText, StartCut;
    StartTagStrings(pre, head, tag, rest);
  }

  /** What follows the start tag of an element that is not self-closing. */
  lemma OpenText(pre: seq<char>, t: Tree, post: seq<char>) returns (rest: seq<char>)
    requires !t.Empty? && (t.Leaf? ==> PlainText(t.text))
    ensures Cat(pre, Render(t), post) == StartText(pre, t.Head(), rest)
  {
    hide Render, CutRender, RenderAll, CutRenderAll, Cat, StartText, StartCut, EndText, EndCut;
    if t.Leaf? {
      LeafStrings(pre, t, post);
      rest := EndText(t.text, t.Foot(), post);
    } else {
      BranchStrings(pre, t, post);
      rest := EndText(RenderAll(t.kids), t.Foot(), post);
    }
  }

  lemma TreeFaults(pre: seq<char>, t: Tree, post: seq<char>, nodes: seq<Node>, parent: Ptr, stack: seq<nat>, content: Ptr)
    requires Plain(t) && Linked(nodes) && InArena(nodes, parent) && |stack| <= MAX_DEPTH
    requires |nodes| + Size(t) <= MAX_NODES && |stack| + Depth(t) > MAX_DEPTH
    ensures Run(Before(pre, Render(t), post, nodes, parent, stack, content)) == Fault
    decreases t, 0
  {
    hide Step, Run, Linked, WellFormed, LinkKid, Render, RenderAll, Cat, StartText, StartCut, EndText, AddNode;
    PlainNames(t);
    if |stack| == MAX_DEPTH {
      var rest := OpenText(pre, t, post);
      StartFaults(pre, t.Head(), t.tag, rest, nodes, parent, stack, content);
    } else {
      var open, grown := StartCut(pre, t.Head(), []), AddNode(nodes, parent, |pre| + 1);
      BranchStart(pre, t, post, nodes, parent, stack, content);
      KidsFault(open, t.kids, EndText([], t.Foot(), post), grown, |nodes|, Push(stack, |pre| + 1), At(|open|));
    }
  }

  lemma KidsFault(pre: seq<char>, kids: seq<Tree>, post: seq<char>, nodes: seq<Node>, parent: nat, stack: seq<nat>, content: Ptr)
    requires forall k :: 0 <= k < |kids| ==> Plain(kids[k])
    requires Linked(nodes) && parent < |nodes| && |stack| <= MAX_DEPTH
    requires |nodes| + SizeAll(kids) <= MAX_NODES && |stack| + DepthAll(kids) > MAX_DEPTH
    ensures Run(Before(pre, RenderAll(kids), post, nodes, At(parent), stack, content)) == Fault
    decreases kids, 1
  {
    hide Step, Run, Before, After, Linked, WellFormed, LinkKid, AddNode, Cat, Join, Render, CutRender, RenderAll, CutRenderAll, Build, BuildAll, Plain;
    var kid, rest := kids[0], kids[1..];
    KidsAround(pre, kids, post, nodes, parent, stack, content);
    if |stack| + Depth(kid) > MAX_DEPTH {
      TreeFaults(pre, kid, Join(RenderAll(rest), post), nodes, At(parent), stack, content);
    } else {
      ParseTree(pre, kid, Join(RenderAll(rest), post), nodes, At(parent), stack, content);
      KidsFault(Join(pre, CutRender(kid)), rest, post, Build(nodes, At(parent), kid, |pre|), parent, stack, Null);
    }
  }

  // ---------------------------------------------------------------- whole files

  /** Text around the tree: newlines, or `<?xml ... ?>` in front. */
  predicate Outside(s: seq<char>) { forall k :: 0 <= k < |s| && s[k] == '<' ==> k + 1 < |s| && s[k + 1] == '?' }

  /** The state that xml_heap_init and the head of parse_xml set up. */
  function Start(src: seq<char>): (p: Parser)
    ensures WellFormed(p)
  {
    Parser(src, 0, [], Null, [], Null)
  }

  /** Reading back a rendered tree: the parse succeeds exactly when the nodes fit, and then the arena holds
      the tree's nodes and the source the tree's strings. */
  lemma ReadBack(pre: seq<char>, t: Tree, post: seq<char>)
    requires Plain(t) && Depth(t) <= 128 && Outside(pre) && Outside(post)
    ensures Run(Start(Cat(pre, Render(t), post)))
         == if Size(t) <= 131072
            then Go(Parser(Cat(pre, CutRender(t), post), |pre| + |Render(t)| + |post|, Build([], Null, t, |pre|), At(0), [], Null))
            else Reject
  {
    hide Step, Run, Render, CutRender, Build, Plain;
    var p := Start(Cat(pre, Render(t), post));
    SkipTo(p, |pre|);
    assert p.(index := |pre|) == Before(pre, Render(t), post, [], Null, [], Null);
    if Size(t) <= MAX_NODES {
      ParseTree(pre, t, post, [], Null, [], Null);
      SkipRest(pre, t, post, Build([], Null, t, |pre|));
    } else {
      TreeRejected(pre, t, post, [], Null, [], Null);
    }
  }

  /** The depth bound is exact: with the nodes fitting, a deeper tree makes the parser leave its stack. */
  lemma TooDeep(pre: seq<char>, t: Tree, post: seq<char>)
    requires Plain(t) && Size(t) <= 131072 && Outside(pre) && Outside(post)
    ensures Run(Start(Cat(pre, Render(t), post))) == Fault <==> Depth(t) > 128
  {
    hide Step, Run, Render, CutRender, Build, Plain;
    if Depth(t) > MAX_DEPTH {
      var p := Start(Cat(pre, Render(t), post));
      SkipTo(p, |pre|);
      assert p.(index := |pre|) == Before(pre, Render(t), post, [], Null, [], Null);
      TreeFaults(pre, t, post, [], Null, [], Null);
    } else {
      ReadBack(pre, t, post);
    }
  }

  lemma SkipRest(pre: seq<char>, t: Tree, post: seq<char>, nodes: seq<Node>)
    requires Outside(post) && Linked(nodes) && nodes != []
    ensures Run(After(pre, CutRender(t), post, nodes, At(0), [], Null))
         == Go(Parser(Cat(pre, CutRender(t), post), |pre| + |Render(t)| + |post|, nodes, At(0), [], Null))
  {
    hide Step, Render, CutRender, Linked;
    var r := After(pre, CutRender(t), post, nodes, At(0), [], Null);
    var done := Join(pre, CutRender(t));
    assert r.src == done + post && |done| == r.index;
    forall k | r.index <= k < |r.src|
      ensures r.src[k] != '<' || Ch(r.src, k + 1) == '?'
    {
      assert r.src[k] == post[k - |done|];
      if k + 1 < |r.src| { assert r.src[k + 1] == post[k + 1 - |done|]; }
    }
    SkipTo(r, |r.src|);
  }
}
