/** The in-place parser of XMLParser.c.  The source text is cut into C strings by writing NULs into it;
    nodes live in an arena and refer to each other by index.

    Step and Run say what one turn of the parse loop, and the whole loop, do to the parser's data. */
module XmlParser {
  import opened Words

  const MAX_NODES := 0x2_0000
  const MAX_DEPTH := 128

  datatype Ptr = Null | At(i: nat)

  /** Tag and content are positions in the source. */
  datatype Node = Node(tag: nat, parent: Ptr, right: Ptr, childStart: Ptr, childEnd: Ptr, content: Ptr)

  datatype Parser = Parser(src: seq<char>, index: nat, nodes: seq<Node>, parent: Ptr, stack: seq<nat>, content: Ptr)

  /** The source ends with a NUL. */
  function Ch(src: seq<char>, i: nat): char { if i < |src| then src[i] else NUL }

  /** The C string at position i. */
  function CStr(src: seq<char>, i: nat): (s: seq<char>)
    ensures i + |s| <= |src| || s == []
    ensures NUL !in s && Ch(src, i + |s|) == NUL
    decreases if i < |src| then |src| - i else 0
  {
    if i >= |src| || src[i] == NUL then [] else [src[i]] + CStr(src, i + 1)
  }

  /** The scan shared by parse_open_tag and parse_close_tag: blanks become NULs up to the closing '>',
      which becomes a NUL too; the second result is where the scan stopped. */
  function Cut(src: seq<char>, i: nat): (r: (seq<char>, nat))
    requires i <= |src|
    ensures |r.0| == |src| && i <= r.1 <= |src|
    ensures forall k :: 0 <= k < i ==> r.0[k] == src[k]
    decreases |src| - i
  {
    if i == |src| then (src, i)
    else if src[i] == ' ' then Cut(src[i := NUL], i + 1)
    else if src[i] == '>' then (src[i := NUL], i)
    else Cut(src, i + 1)
  }

  predicate InArena(nodes: seq<Node>, p: Ptr) { p.At? ==> p.i < |nodes| }

  /** Every link stays inside the arena, and a node with a first child has a last one. */
  predicate Linked(nodes: seq<Node>) {
    forall k :: 0 <= k < |nodes| ==>
      InArena(nodes, nodes[k].parent) && InArena(nodes, nodes[k].childEnd)
      && (nodes[k].childStart.At? ==> nodes[k].childEnd.At?)
  }

  predicate WellFormed(p: Parser) {
    p.index <= |p.src| + 1 && InArena(p.nodes, p.parent) && Linked(p.nodes)
  }

  /** Fault: the code leaves its arrays (129 open elements) or follows a null pointer. */
  datatype Next = Go(p: Parser) | Reject | Fault

  /** Hangs node n below the parent, behind its last child. */
  function LinkKid(nodes: seq<Node>, parent: Ptr, n: nat): (r: seq<Node>)
    requires InArena(nodes, parent) && Linked(nodes)
    ensures |r| == |nodes|
  {
    if parent.Null? then nodes
    else if nodes[parent.i].childStart.Null? then
      nodes[parent.i := nodes[parent.i].(childStart := At(n), childEnd := At(n))]
    else
      var linked := nodes[nodes[parent.i].childEnd.i := nodes[nodes[parent.i].childEnd.i].(right := At(n))];
      linked[parent.i := linked[parent.i].(childEnd := At(n))]
  }

  function Close(p: Parser): (r: Next)
    requires WellFormed(p) && p.index + 2 <= |p.src|
    ensures r.Go? ==> WellFormed(r.p) && |r.p.src| == |p.src| && r.p.index > p.index
  {
    if p.content.At? && p.parent.Null? then Fault
    else
      var src := if p.content.At? then p.src[p.index := NUL] else p.src;
      var nodes := if p.content.At? then p.nodes[p.parent.i := p.nodes[p.parent.i].(content := p.content)] else p.nodes;
      var parent := if p.parent.At? && nodes[p.parent.i].parent.At? then nodes[p.parent.i].parent else p.parent;
      var (cut, end) := Cut(src, p.index + 2);
      if p.stack == [] then Fault
      else if CStr(cut, p.index + 2) != CStr(cut, p.stack[|p.stack| - 1]) then Reject
      else Go(Parser(cut, end + 1, nodes, parent, p.stack[..|p.stack| - 1], Null))
  }

  function Open(p: Parser): (r: Next)
    requires WellFormed(p) && p.index < |p.src|
    ensures r.Go? ==> WellFormed(r.p) && |r.p.src| == |p.src| && r.p.index > p.index
  {
    var (cut, end) := Cut(p.src, p.index + 1);
    var n := |p.nodes|;
    if n >= MAX_NODES then Reject
    else
      var nodes := LinkKid(p.nodes, p.parent, n) + [Node(p.index + 1, p.parent, Null, Null, Null, Null)];
      var last := p.index + |CStr(cut, p.index + 1)|;
      if Ch(cut, last) == '/' || Ch(cut, end - 1) == '/' then
        Go(Parser(if Ch(cut, last) == '/' && last < |cut| then cut[last := NUL] else cut,
                  end + 1, nodes, if p.parent.At? then p.parent else At(n), p.stack, Null))
      else if |p.stack| >= MAX_DEPTH then Fault
      else Go(Parser(cut, end + 1, nodes, At(n), p.stack + [p.index + 1], At(end + 1)))
  }

  /** One turn of the loop in parse_xml. */
  function Step(p: Parser): (r: Next)
    requires WellFormed(p) && p.index < |p.src|
    ensures r.Go? ==> WellFormed(r.p) && |r.p.src| == |p.src| && r.p.index > p.index
  {
    if p.src[p.index] == '<' && Ch(p.src, p.index + 1) == '/' then Close(p)
    else if p.src[p.index] == '<' && Ch(p.src, p.index + 1) != '?' then Open(p)
    else Go(p.(index := p.index + 1))
  }

  /** The whole loop: Go is the `return 1`, Reject the `return 0`. */
  function Run(p: Parser): (r: Next)
    requires WellFormed(p)
    ensures r.Go? ==> WellFormed(r.p) && |r.p.src| == |p.src|
    decreases if p.index < |p.src| then |p.src| - p.index else 0
  {
    if p.index >= |p.src| then Go(p)
    else
      var s := Step(p);
      if s.Go? then Run(s.p) else s
  }
}
