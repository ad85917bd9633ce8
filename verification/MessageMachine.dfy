/** The receiving machine: ParseXMLString, getValueFromTagMessage and the decoding of the value. */
module MessageMachine {
  import opened Words
  import opened XmlParser
  import opened XmlTree
  import opened XmlArena
  import opened XmlElements
  import opened XmlMachine
  import opened XmlQuery
  import opened XmlQueryMachine
  import opened Message
  import B = Base64

  /** A heap that parse_xml filled, and a path that fits the query's buffers. */
  ghost predicate Ready(heap: XmlHeap, path: seq<char>)
    reads heap, heap.source, heap.xmlNodes
  {
    && heap.Valid() && Rising(heap.Nodes()) && TagsInside(heap.Nodes(), |heap.Src()|) && heap.Nodes() != []
    && |path| < 1024 && NUL !in path && 0 < |Items(path)| <= 32 && TagsFit(Items(path))
  }

  /** The string at a position of the source. */
  method CopyString(heap: XmlHeap, at: nat, value: array<char>)
    requires heap.Valid() && at <= |heap.Src()| && |CStr(heap.Src(), at)| < value.Length && value != heap.source
    modifies value
    ensures var s := CStr(heap.Src(), at); value[..|s|] == s && value[|s|] == NUL
  {
    ghost var s := CStr(heap.Src(), at);
    ghost var src := heap.Src();
    var n := heap.StrLen(at);
    var k := 0;
    while k < n
      invariant 0 <= k <= n && value[..k] == s[..k] && heap.Src() == src && heap.Valid()
    {
      StringChar(src, at, k);
      assert heap.source[at + k] == src[at + k];
      value[k] := heap.source[at + k];
      assert s[..k + 1] == s[..k] + [s[k]];
      k := k + 1;
    }
    value[n] := NUL;
    assert s[..n] == s;
  }

  lemma {:induction false} StringChar(src: seq<char>, at: nat, k: nat)
    requires k < |CStr(src, at)|
    ensures at + k < |src| && src[at + k] == CStr(src, at)[k]
    decreases k
  {
    if k > 0 { StringChar(src, at + 1, k - 1); }
  }

  /** The node a path names has a content, and the value field can hold it. */
  ghost predicate Readable(heap: XmlHeap, path: seq<char>)
    reads heap, heap.source, heap.xmlNodes
    requires Ready(heap, path)
  {
    && (var node := Follow(heap.Src(), heap.Nodes(), At(0), Items(path));
        node.At? ==> heap.Nodes()[node.i].content.At? && heap.Nodes()[node.i].content.i <= |heap.Src()|)
    && (var v := Found(heap.View(Null, []), path); v.Some? ==> |v.value| < VALUE_SIZE)
  }

  /** Executes a query and copies the content of the node found. */
  method ReadValue(heap: XmlHeap, path: seq<char>, value: array<char>)
    requires Ready(heap, path) && Readable(heap, path) && value.Length == VALUE_SIZE && value != heap.source
    modifies value
    ensures var v := old(Found(heap.View(Null, []), path));
      match v case Some(s) => value[..|s|] == s && value[|s|] == NUL case None => value[..] == old(value[..])
  {
    hide Follow, Items, Rising, CStr, TagsInside, TagsFit;
    var node := ExecXQuery(heap, path);
    if node.At? {
      assert heap.Nodes()[node.i] == heap.xmlNodes[node.i];
      CopyString(heap, heap.xmlNodes[node.i].content.i, value);
    }
  }

  /** getValueFromTagMessage: the value field holds the content of params/tag afterwards. */
  method GetValueFromTagMessage(heap: XmlHeap, tag: seq<char>, value: array<char>)
    requires Ready(heap, "params/" + tag) && Readable(heap, "params/" + tag) && value.Length == VALUE_SIZE && value != heap.source
    modifies value
    ensures var v := old(Found(heap.View(Null, []), "params/" + tag));
      match v case Some(s) => value[..|s|] == s && value[|s|] == NUL case None => value[..] == old(value[..])
  {
    hide Found, Ready, Readable;
    ReadValue(heap, "params/" + tag, value);
  }

  /** getValueFromTag: the same for a configuration value, whose path starts with a slash. */
  method GetValueFromTag(heap: XmlHeap, tag: seq<char>, value: array<char>)
    requires Ready(heap, "/SystemConfig/" + tag) && Readable(heap, "/SystemConfig/" + tag)
    requires value.Length == VALUE_SIZE && value != heap.source
    modifies value
    ensures var v := old(Found(heap.View(Null, []), "/SystemConfig/" + tag));
      match v case Some(s) => value[..|s|] == s && value[|s|] == NUL case None => value[..] == old(value[..])
  {
    hide Found, Ready, Readable;
    ReadValue(heap, "/SystemConfig/" + tag, value);
  }

  /** Everything the receiving methods need holds for a message. */
  lemma MessageIsReady(tag: seq<char>, data: seq<Byte>)
    requires MessageTag(tag) && |tag| < 128 && 0 < |data| <= 189
    ensures var text := Head(tag) + B.Encode(data) + Tail(tag); var r := Run(Start(text)); var path := "params/" + tag;
      && NUL !in text && r.Go? && Rising(r.p.nodes) && TagsInside(r.p.nodes, |r.p.src|) && r.p.nodes != []
      && |path| < QUERY_SIZE && NUL !in path && 0 < |Items(path)| <= MAX_PATHS && TagsFit(Items(path))
      && Found(r.p, path) == Some(Padded(data)) && Padded(data) != [] && |Padded(data)| < VALUE_SIZE
      && B.Decode(Padded(data)) == Some(data)
  {
    hide Run, Rising, TagsInside, Items, Found, B.Encode, B.Decode, Start;
    MessageRoundTrip(tag, data);
    ValueFits(data);
    PathItems(tag);
    NoNulInMessage(tag, data);
    StartTags(Head(tag) + B.Encode(data) + Tail(tag));
    RunTags(Start(Head(tag) + B.Encode(data) + Tail(tag)));
  }

  lemma StartTags(src: seq<char>)
    ensures var p := Start(src); p.src == src && TagsInside(p.nodes, |p.src|)
  {}

  lemma NoNulInMessage(tag: seq<char>, data: seq<Byte>)
    requires NUL !in tag
    ensures NUL !in Head(tag) + B.Encode(data) + Tail(tag) && NUL !in "params/" + tag
  {
    hide B.Encode;
    B.EncodeIsKept(data);
    SymbolsAreText(B.Encode(data));
  }

  lemma SymbolsAreBytes(data: seq<Byte>)
    ensures var s := Padded(data); NUL !in s && forall k :: 0 <= k < |s| ==> s[k] as int < 256
  {
    hide B.Encode;
    var s, enc := Padded(data), B.Encode(data);
    B.EncodeIsKept(data);
    forall k | 0 <= k < |s|
      ensures s[k] != NUL && s[k] as int < 256
    {
      if 0 < k <= |enc| {
        assert s[k] == enc[k - 1];
        assert B.SymbolValue(enc[k - 1]) != B.NONE;
      }
    }
  }

  /** At the node found, the content lies inside the source. */
  lemma FoundInside(p: Parser, path: seq<char>)
    requires Rising(p.nodes) && p.nodes != [] && Items(path) != [] && Found(p, path).Some? && Found(p, path).value != []
    ensures var node := Follow(p.src, p.nodes, At(0), Items(path));
      node.At? && p.nodes[node.i].content.At? && p.nodes[node.i].content.i < |p.src|
  {
    hide Follow, Items, Rising;
  }

  /** The two machines together: the bytes handed to ConvertTagToXML on one are the bytes read on the other. */
  method PassParameter(tag: seq<char>, data: seq<Byte>) returns (out: array?<Byte>, outLen: nat)
    requires MessageTag(tag) && |tag| < 128 && 0 < |data| <= 189
    ensures out != null && outLen <= out.Length && out[..outLen] == data
  {
    hide Run, Rising, TagsInside, TagsFit, Items, Follow, Found, Padded, B.Encode, B.Decode, MessageTag, WellFormed, CStr;
    var buffer, end := ConvertTagToXML(tag, data, true);
    ghost var path := "params/" + tag;
    MessageIsReady(tag, data);
    var heap := new XmlHeap(buffer);
    assert heap.View(Null, []) == Start(buffer);
    var ok := heap.ParseXml();
    ghost var p := Run(Start(buffer)).p;
    SamePlace(heap.View(Null, []), p, path);
    FoundInside(p, path);
    var value := new char[VALUE_SIZE];
    GetValueFromTagMessage(heap, tag, value);
    SymbolsAreBytes(data);
    var n := StrLen(value, 0, Padded(data));
    assert value[..n] == Padded(data);
    out, outLen := B.Base64Decode(value[..n], true);
  }

  /** What a query finds depends on the source and the nodes alone. */
  lemma SamePlace(p: Parser, q: Parser, path: seq<char>)
    requires p.src == q.src && p.nodes == q.nodes && Rising(p.nodes) && p.nodes != [] && Items(path) != []
    ensures Found(p, path) == Found(q, path)
  {}
}
