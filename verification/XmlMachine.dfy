/** The parser as the code runs it: it writes into the source buffer and the node arena, and pushes on a
    fixed stack.  Every method is proved against XmlParser's Step and Run. */
module XmlMachine {
  import opened Words
  import opened XmlParser

  /** void_ptr_stack: 128 slots.  A push onto a full stack writes behind the array, so it is not allowed. */
  class VoidPtrStack {
    const items: array<nat>
    var stackPtr: nat

    ghost predicate Valid()
      reads this
    {
      items.Length == MAX_DEPTH && stackPtr <= MAX_DEPTH
    }

    ghost function Contents(): seq<nat>
      reads this, items
      requires Valid()
    {
      items[..stackPtr]
    }

    constructor ()
      ensures Valid() && fresh(items) && Contents() == []
    {
      items := new nat[MAX_DEPTH];
      stackPtr := 0;
    }

    method Push(item: nat)
      requires Valid() && stackPtr < MAX_DEPTH
      modifies `stackPtr, items
      ensures Valid() && Contents() == old(Contents()) + [item]
    {
      items[stackPtr] := item;
      stackPtr := stackPtr + 1;
    }

    method Pop() returns (item: Ptr)
      requires Valid()
      modifies `stackPtr
      ensures Valid()
      ensures old(Contents()) == [] ==> item == Null && Contents() == []
      ensures old(Contents()) != [] ==> item == At(old(Contents()[stackPtr - 1])) && Contents() == old(Contents()[..stackPtr - 1])
    {
      if stackPtr > 0 {
        item := At(items[stackPtr - 1]);
        stackPtr := stackPtr - 1;
      } else {
        item := Null;
      }
    }
  }

  lemma SameHeads(src: seq<char>, a: nat, b: nat)
    requires Ch(src, a) == Ch(src, b) != NUL
    ensures (CStr(src, a) == CStr(src, b)) == (CStr(src, a + 1) == CStr(src, b + 1))
  {
    assert CStr(src, a)[1..] == CStr(src, a + 1) && CStr(src, b)[1..] == CStr(src, b + 1);
  }

  lemma DifferentHeads(src: seq<char>, a: nat, b: nat)
    requires Ch(src, a) == NUL || Ch(src, a) != Ch(src, b)
    ensures (CStr(src, a) == CStr(src, b)) == (Ch(src, a) == Ch(src, b))
  {
    if CStr(src, a) != [] { assert CStr(src, a)[0] == Ch(src, a); }
    if CStr(src, b) != [] { assert CStr(src, b)[0] == Ch(src, b); }
  }

  lemma TagHead(src: seq<char>, at: nat, tag: seq<char>)
    requires NUL !in tag
    ensures tag == [] ==> (CStr(src, at) == tag) == (Ch(src, at) == NUL)
    ensures tag != [] && Ch(src, at) != tag[0] ==> CStr(src, at) != tag
    ensures tag != [] && Ch(src, at) == tag[0] ==> at < |src| && (CStr(src, at) == tag) == (CStr(src, at + 1) == tag[1..])
  {
    var s := CStr(src, at);
    if tag != [] && Ch(src, at) == tag[0] {
      assert tag[0] in tag;
      assert s[1..] == CStr(src, at + 1) && tag == [tag[0]] + tag[1..];
    } else if s != [] {
      assert s[0] == Ch(src, at);
    }
  }

  /** What an end tag stores before it is cut: the text's end, the text, and the element above. */
  ghost function CloseMark(p: Parser): Parser
    requires WellFormed(p) && p.index < |p.src| && (p.content.At? ==> p.parent.At?)
  {
    var nodes := if p.content.At? then p.nodes[p.parent.i := p.nodes[p.parent.i].(content := p.content)] else p.nodes;
    p.(src := if p.content.At? then p.src[p.index := NUL] else p.src, nodes := nodes,
       parent := if p.parent.At? && nodes[p.parent.i].parent.At? then nodes[p.parent.i].parent else p.parent)
  }

  /** The parser once the text is ended and stored and the end tag is cut. */
  ghost function CloseCut(p: Parser): Parser
    requires WellFormed(p) && p.index + 2 <= |p.src| && (p.content.At? ==> p.parent.At?)
  {
    var marked := CloseMark(p);
    var (cut, end) := Cut(marked.src, p.index + 2);
    marked.(src := cut, index := end)
  }

  lemma CloseParts(p: Parser)
    requires WellFormed(p) && p.index + 2 <= |p.src| && !Close(p).Fault?
    ensures p.stack != [] && (p.content.At? ==> p.parent.At?)
    ensures var q, top := CloseCut(p), |p.stack| - 1;
      Close(p) == if CStr(q.src, p.index + 2) == CStr(q.src, p.stack[top])
                  then Go(q.(index := q.index + 1, stack := p.stack[..top], content := Null))
                  else Reject
  {
    hide Cut, CStr, LinkKid;
  }

  /** What a start tag makes of the cut source: whether it closes itself, and the source without its slash. */
  ghost function Slashed(cut: seq<char>, tag: nat, end: nat): (bool, seq<char>)
    requires 0 < tag <= end
  {
    var last := tag - 1 + |CStr(cut, tag)|;
    (Ch(cut, last) == '/' || Ch(cut, end - 1) == '/', if Ch(cut, last) == '/' && last < |cut| then cut[last := NUL] else cut)
  }

  lemma OpenParts(p: Parser)
    requires WellFormed(p) && p.index < |p.src| && !Open(p).Fault?
    ensures Linked(p.nodes) && InArena(p.nodes, p.parent)
    ensures var (cut, end), n, tag := Cut(p.src, p.index + 1), |p.nodes|, p.index + 1; var (closed, src) := Slashed(cut, tag, end);
      && (n < MAX_NODES && !closed ==> |p.stack| < MAX_DEPTH)
      && Open(p) == if n >= MAX_NODES then Reject else
           var nodes := LinkKid(p.nodes, p.parent, n) + [Node(tag, p.parent, Null, Null, Null, Null)];
           if closed then Go(Parser(src, end + 1, nodes, if p.parent.At? then p.parent else At(n), p.stack, Null))
           else Go(Parser(src, end + 1, nodes, At(n), p.stack + [tag], At(end + 1)))
  {
    hide Cut, CStr, LinkKid, Linked;
  }

  lemma StepCases(p: Parser)
    requires WellFormed(p) && p.index < |p.src|
    ensures Step(p) == if p.src[p.index] == '<' && Ch(p.src, p.index + 1) == '/' then Close(p)
                       else if p.src[p.index] == '<' && Ch(p.src, p.index + 1) != '?' then Open(p)
                       else Go(p.(index := p.index + 1))
    ensures p.src[p.index] == '<' && Ch(p.src, p.index + 1) == '/' ==> p.index + 2 <= |p.src|
  {
    hide Close, Open, Linked;
  }

  /** Every saved tag starts inside the source or at its closing NUL. */
  predicate Saved(stack: seq<nat>, limit: nat) { forall k :: 0 <= k < |stack| ==> stack[k] <= limit }

  lemma NoneSaved(n: nat)
    ensures Saved([], n)
  {}

  lemma SavedTop(stack: seq<nat>, limit: nat)
    requires Saved(stack, limit) && stack != []
    ensures stack[|stack| - 1] <= limit && Saved(stack[..|stack| - 1], limit)
  {}

  class XmlHeap {
    /** The source with its closing NUL. */
    const source: array<char>
    const xmlNodes: array<Node>
    var index: nat
    var currentNode: nat
    var currentContent: Ptr

    ghost predicate Valid()
      reads this, source
    {
      && source.Length > 0 && source[source.Length - 1] == NUL
      && xmlNodes.Length == MAX_NODES && currentNode <= MAX_NODES
    }

    ghost function Src(): (s: seq<char>)
      reads source
      requires source.Length > 0
      ensures |s| == source.Length - 1
    {
      source[..source.Length - 1]
    }

    ghost function Nodes(): seq<Node>
      reads this, xmlNodes
      requires currentNode <= xmlNodes.Length
    {
      xmlNodes[..currentNode]
    }

    /** The data of a parse in progress. */
    ghost function View(parent: Ptr, stack: seq<nat>): Parser
      reads this, source, xmlNodes
      requires Valid()
    {
      Parser(Src(), index, Nodes(), parent, stack, currentContent)
    }

    /** xml_heap_init */
    constructor (text: seq<char>)
      requires NUL !in text
      ensures Valid() && fresh(source) && fresh(xmlNodes)
      ensures View(Null, []) == Parser(text, 0, [], Null, [], Null)
    {
      source := new char[|text| + 1](i requires 0 <= i => if i < |text| then text[i] else NUL);
      xmlNodes := new Node[MAX_NODES](i => Node(0, Null, Null, Null, Null, Null));
      index, currentNode, currentContent := 0, 0, Null;
    }

    method StrLen(at: nat) returns (n: nat)
      requires Valid() && at < source.Length
      ensures n == |CStr(Src(), at)| && at + n < source.Length
    {
      n := 0;
      while source[at + n] != NUL
        invariant at + n < source.Length
        invariant |CStr(Src(), at)| == n + |CStr(Src(), at + n)|
        decreases source.Length - (at + n)
      {
        n := n + 1;
      }
    }

    /** strcmp == 0 */
    method StrEqual(a: nat, b: nat) returns (same: bool)
      requires Valid() && a < source.Length && b < source.Length
      ensures same == (CStr(Src(), a) == CStr(Src(), b))
    {
      hide CStr;
      var k := 0;
      CharsAt(a, b);
      while source[a + k] != NUL && source[a + k] == source[b + k]
        invariant 0 <= k && a + k < source.Length && b + k < source.Length
        invariant source[a + k] == Ch(Src(), a + k) && source[b + k] == Ch(Src(), b + k)
        invariant (CStr(Src(), a) == CStr(Src(), b)) == (CStr(Src(), a + k) == CStr(Src(), b + k))
        decreases source.Length - (a + k)
      {
        SameHeads(Src(), a + k, b + k);
        k := k + 1;
        CharsAt(a + k, b + k);
      }
      DifferentHeads(Src(), a + k, b + k);
      same := source[a + k] == source[b + k];
    }

    lemma CharsAt(a: nat, b: nat)
      requires Valid() && a < source.Length && b < source.Length
      ensures source[a] == Ch(Src(), a) && source[b] == Ch(Src(), b)
    {}

    /** strcmp of a string in the source with a given one. */
    method TagIs(at: nat, tag: seq<char>) returns (yes: bool)
      requires Valid() && at < source.Length && NUL !in tag
      ensures yes == (CStr(Src(), at) == tag)
    {
      hide CStr;
      var k := 0;
      CharsAt(at, at);
      while k < |tag| && source[at + k] == tag[k]
        invariant 0 <= k <= |tag| && at + k < source.Length && source[at + k] == Ch(Src(), at + k)
        invariant (CStr(Src(), at) == tag) == (CStr(Src(), at + k) == tag[k..])
        decreases |tag| - k
      {
        TagHead(Src(), at + k, tag[k..]);
        assert tag[k..][1..] == tag[k + 1..];
        k := k + 1;
        CharsAt(at + k, at + k);
      }
      TagHead(Src(), at + k, tag[k..]);
      yes := k == |tag| && source[at + k] == NUL;
    }

    /** parse_open_tag and parse_close_tag after they stepped over '<' or '</'. */
    method CutTag() returns (start: nat)
      requires Valid() && index < source.Length
      modifies `index, source
      ensures Valid() && start == old(index) && (Src(), index) == Cut(old(Src()), start)
    {
      start := index;
      ghost var before := Src();
      while index < source.Length - 1
        invariant Valid() && start <= index < source.Length
        invariant Cut(Src(), index) == Cut(before, start)
        decreases source.Length - index
      {
        ghost var s, i := Src(), index;
        assert s[i] == source[i];
        if source[index] == ' ' {
          source[index] := NUL;
          assert Src() == s[i := NUL];
        } else if source[index] == '>' {
          source[index] := NUL;
          assert Src() == s[i := NUL];
          return;
        }
        index := index + 1;
      }
    }

    /** getNewXMLNode */
    method GetNewXMLNode() returns (n: Ptr)
      requires Valid()
      modifies `currentNode, xmlNodes
      ensures Valid()
      ensures old(currentNode) >= MAX_NODES ==> n == Null && Nodes() == old(Nodes())
      ensures old(currentNode) < MAX_NODES ==> n == At(old(currentNode)) && Nodes() == old(Nodes()) + [Node(0, Null, Null, Null, Null, Null)]
    {
      if currentNode >= MAX_NODES {
        return Null;
      }
      xmlNodes[currentNode] := Node(0, Null, Null, Null, Null, Null);
      n := At(currentNode);
      currentNode := currentNode + 1;
    }

    /** Hangs the new node below the parent, as its last child. */
    method LinkNode(parent: Ptr, n: nat, tag: nat)
      requires Valid() && n + 1 == currentNode
      requires Linked(Nodes()[..n]) && InArena(Nodes()[..n], parent)
      requires xmlNodes[n] == Node(0, Null, Null, Null, Null, Null)
      modifies xmlNodes
      ensures Valid() && Nodes() == LinkKid(old(Nodes()[..n]), parent, n) + [Node(tag, parent, Null, Null, Null, Null)]
    {
      ghost var before := Nodes()[..n];
      xmlNodes[n] := xmlNodes[n].(tag := tag);
      if parent.At? {
        var above := xmlNodes[parent.i];
        assert above == before[parent.i];
        if above.childStart.Null? {
          xmlNodes[parent.i] := above.(childStart := At(n), childEnd := At(n));
        } else {
          var last := above.childEnd.i;
          xmlNodes[last] := xmlNodes[last].(right := At(n));
          xmlNodes[parent.i] := xmlNodes[parent.i].(childEnd := At(n));
        }
        xmlNodes[n] := xmlNodes[n].(parent := parent);
      }
      assert Nodes() == LinkKid(before, parent, n) + [Node(tag, parent, Null, Null, Null, Null)];
    }

    /** At an end tag: ends the text, stores it in the open element, and steps to the element above. */
    method StoreText(parent: Ptr, ghost stack: seq<nat>) returns (up: Ptr)
      requires Valid() && WellFormed(View(parent, stack)) && index + 1 < source.Length
      requires currentContent.At? ==> parent.At?
      modifies source, xmlNodes
      ensures Valid() && View(up, stack) == CloseMark(old(View(parent, stack)))
    {
      ghost var p := View(parent, stack);
      if currentContent.At? {
        source[index] := NUL;
        xmlNodes[parent.i] := xmlNodes[parent.i].(content := currentContent);
        assert Src() == p.src[p.index := NUL];
        assert Nodes() == p.nodes[parent.i := p.nodes[parent.i].(content := p.content)];
      }
      up := parent;
      if up.At? && xmlNodes[up.i].parent.At? {
        up := xmlNodes[up.i].parent;
      }
    }

    /** At an end tag: StoreText, then parse_close_tag. */
    method CloseAndCut(parent: Ptr, ghost stack: seq<nat>) returns (up: Ptr, tag: nat)
      requires Valid() && WellFormed(View(parent, stack)) && index + 2 < source.Length
      requires currentContent.At? ==> parent.At?
      modifies `index, source, xmlNodes
      ensures Valid() && tag == old(index) + 2
      ensures View(up, stack) == CloseCut(old(View(parent, stack)))
    {
      hide Cut, CloseMark, WellFormed;
      up := StoreText(parent, stack);
      index := index + 2;
      tag := CutTag();
    }

    /** The branch of parse_xml for an end tag. */
    method EndTag(parent: Ptr, stack: VoidPtrStack) returns (ok: bool, up: Ptr)
      requires Valid() && stack.Valid() && stack.items as object != xmlNodes
      requires WellFormed(View(parent, stack.Contents())) && index + 2 < source.Length
      requires !Close(View(parent, stack.Contents())).Fault? && Saved(stack.Contents(), |Src()|)
      modifies `index, `currentContent, source, xmlNodes, stack`stackPtr
      ensures Valid() && stack.Valid() && Saved(stack.Contents(), |Src()|)
      ensures var r := old(Close(View(parent, stack.Contents())));
        if ok then r == Go(View(up, stack.Contents()).(index := index + 1)) else r == Reject
    {
      hide CStr, Linked, Close, CloseCut, WellFormed, Saved;
      ghost var p := View(parent, stack.Contents());
      CloseParts(p);
      SavedTop(p.stack, |Src()|);
      var tag;
      up, tag := CloseAndCut(parent, p.stack);
      var start := stack.Pop();
      ok := StrEqual(tag, start.i);
      if ok {
        currentContent := Null;
      }
    }

    /** The node of a start tag, or Null when the arena is full. */
    method NewChild(parent: Ptr, tag: nat) returns (n: Ptr)
      requires Valid() && Linked(Nodes()) && InArena(Nodes(), parent)
      modifies `currentNode, xmlNodes
      ensures Valid() && n == if old(currentNode) < MAX_NODES then At(old(currentNode)) else Null
      ensures Nodes() == if n.At? then LinkKid(old(Nodes()), parent, n.i) + [Node(tag, parent, Null, Null, Null, Null)] else old(Nodes())
    {
      ghost var before := Nodes();
      n := GetNewXMLNode();
      if n.At? {
        assert Nodes()[..n.i] == before;
        LinkNode(parent, n.i, tag);
      }
    }

    /** Whether the tag just cut ends in '/'; the slash of the tag itself becomes a NUL. */
    method SelfClosing(tag: nat) returns (yes: bool)
      requires Valid() && 0 < tag <= index < source.Length
      modifies source
      ensures Valid()
      ensures (yes, Src()) == Slashed(old(Src()), tag, index)
    {
      hide CStr;
      ghost var cut := Src();
      var length := StrLen(tag);
      var last := tag - 1 + length;
      yes := source[last] == '/' || source[index - 1] == '/';
      if source[last] == '/' {
        source[last] := NUL;
        assert Src() == cut[last := NUL];
      }
    }

    /** The branch of parse_xml for a start tag. */
    method StartTag(parent: Ptr, stack: VoidPtrStack) returns (ok: bool, up: Ptr)
      requires Valid() && stack.Valid() && stack.items as object != xmlNodes
      requires WellFormed(View(parent, stack.Contents())) && index + 1 < source.Length
      requires !Open(View(parent, stack.Contents())).Fault? && Saved(stack.Contents(), |Src()|)
      modifies `index, `currentContent, `currentNode, source, xmlNodes, stack`stackPtr, stack.items
      ensures Valid() && stack.Valid() && Saved(stack.Contents(), |Src()|)
      ensures var r := old(Open(View(parent, stack.Contents())));
        if ok then r == Go(View(up, stack.Contents()).(index := index + 1)) else r == Reject
    {
      hide Cut, CStr, Linked, LinkKid, Open, WellFormed, Slashed;
      ghost var p := View(parent, stack.Contents());
      OpenParts(p);
      index := index + 1;
      var tag := CutTag();
      var n := NewChild(parent, tag);
      if n.Null? {
        return false, parent;
      }
      ok := true;
      var closed := SelfClosing(tag);
      assert stack.Contents() == p.stack;
      if closed {
        currentContent := Null;
        up := if parent.At? then parent else n;
      } else {
        stack.Push(tag);
        currentContent := At(index + 1);
        up := n;
      }
    }

    /** parse_xml.  The precondition rules out only what C leaves undefined: a push onto a full stack, and
        following a null pointer at an end tag without a start tag. */
    method ParseXml() returns (ok: bool)
      requires Valid() && WellFormed(View(Null, [])) && !Run(View(Null, [])).Fault?
      modifies `index, `currentContent, `currentNode, source, xmlNodes
      ensures Valid()
      ensures var r := old(Run(View(Null, [])));
        && ok == r.Go? && (ok ==> Src() == r.p.src && Nodes() == r.p.nodes)
    {
      hide Step, Open, Close, Linked, LinkKid, WellFormed, Saved;
      var stack := new VoidPtrStack();
      var parent: Ptr := Null;
      ghost var result := Run(View(Null, []));
      NoneSaved(|Src()|);
      while index < source.Length - 1
        invariant Valid() && stack.Valid() && fresh(stack) && fresh(stack.items) && Saved(stack.Contents(), |Src()|)
        invariant WellFormed(View(parent, stack.Contents())) && Run(View(parent, stack.Contents())) == result
        decreases source.Length - index
      {
        ghost var p := View(parent, stack.Contents());
        StepCases(p);
        if source[index] == '<' && source[index + 1] == '/' {
          ok, parent := EndTag(parent, stack);
          if !ok {
            return;
          }
        } else if source[index] == '<' && source[index + 1] != '?' {
          ok, parent := StartTag(parent, stack);
          if !ok {
            return;
          }
        }
        index := index + 1;
      }
      ok := true;
    }
  }
}
