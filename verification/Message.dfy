/** Passing one parameter between machines: ConvertTagToXML on one side; parse, query and decode on the other. */
module Message {
  import opened Words
  import opened XmlParser
  import opened XmlTree
  import opened XmlArena
  import opened XmlElements
  import opened XmlQuery
  import B = Base64

  const VALUE_SIZE := 256

  /** What ConvertTagToXML writes in front of and behind the encoded bytes. */
  function Head(tag: seq<char>): (s: seq<char>)
    ensures |s| == |tag| + 11
  {
    "<params><" + tag + "> "
  }

  function Tail(tag: seq<char>): (s: seq<char>)
    ensures |s| == |tag| + 14
  {
    " </" + tag + "></params>\n"
  }

  /** ConvertTagToXML for one parameter; end is where the closing NUL goes.  When memory for the encoding
      is refused, or its size overflows, the element stays empty. */
  method ConvertTagToXML(tag: seq<char>, value: seq<Byte>, granted: bool) returns (buffer: seq<char>, end: nat)
    requires |value| < WORD_LIMIT
    ensures end == |buffer|
    ensures buffer == Head(tag) + (if granted && |value| * 4 < WORD_LIMIT then B.Encode(value) else []) + Tail(tag)
  {
    hide B.Encode, Head, Tail;
    buffer, end := [], 0;
    var encoded, encodedLength := B.Base64Encode(value, granted);
    buffer := buffer + Head(tag);
    end := end + (|tag| + 11);
    if encoded != null {
      buffer := buffer + encoded[..encodedLength];
      end := end + encodedLength;
    }
    buffer := buffer + Tail(tag);
    end := end + (|tag| + 14);
  }

  /** The text of the element: the encoding between blanks. */
  function Padded(data: seq<Byte>): seq<char> { [' '] + B.Encode(data) + [' '] }

  /** The tree of a message. */
  function MessageTree(tag: seq<char>, text: seq<char>): Tree { Branch("params", [], [Leaf(tag, [], text, [])], []) }

  /** A tag that survives both the parser and the path of the query. */
  predicate MessageTag(tag: seq<char>) { PlainTag(tag) && PlainStep(tag) }

  lemma MessageIsRendering(tag: seq<char>, enc: seq<char>)
    ensures Head(tag) + enc + Tail(tag) == Cat([], Render(MessageTree(tag, [' '] + enc + [' '])), ['\n'])
  {
    hide RenderAll, Head, Tail, Cat;
    assert "params" + [] == "params";
    OneLeaf(tag, [' '] + enc + [' ']);
    MessageText(tag, enc);
  }

  lemma OneLeaf(tag: seq<char>, text: seq<char>)
    ensures RenderAll([Leaf(tag, [], text, [])]) == ['<'] + tag + ['>'] + text + ['<', '/'] + tag + ['>']
  {
    var leaf := Leaf(tag, [], text, []);
    assert [leaf][1..] == [] && Render(leaf) + [] == Render(leaf);
  }

  lemma MessageText(tag: seq<char>, enc: seq<char>)
    ensures var leaf := ['<'] + tag + ['>'] + ([' '] + enc + [' ']) + ['<', '/'] + tag + ['>'];
      Head(tag) + enc + Tail(tag) == Cat([], ['<'] + "params" + ['>'] + leaf + ['<', '/'] + "params" + ['>'], ['\n'])
  {}

  lemma SymbolsAreText(k: seq<char>)
    requires B.AllKept(k)
    ensures PlainText(k)
  {
    forall i | 0 <= i < |k|
      ensures k[i] != NUL && k[i] != '<'
    {
      assert B.SymbolValue(k[i]) != B.NONE;
    }
  }

  lemma PaddedDecodes(data: seq<Byte>)
    requires data != []
    ensures PlainText(Padded(data)) && B.Decode(Padded(data)) == Some(data)
  {
    hide B.Encode, B.Kept, B.Decode, B.AllKept, B.SymbolValue;
    var enc := B.Encode(data);
    BlankIsIgnored();
    B.EncodeIsKept(data);
    SymbolsAreText(enc);
    B.KeptOfAppend([' '] + enc, [' ']);
    B.KeptOfAppend([' '], enc);
    B.KeptIsAll(enc);
    assert B.Kept(Padded(data)) == enc;
    B.RoundTrip(data, Padded(data));
  }

  lemma BlankIsIgnored()
    ensures B.Kept([' ']) == []
  {
    B.KeptIsNone([' ']);
  }

  lemma MessageTreeIsPlain(tag: seq<char>, text: seq<char>)
    requires PlainTag(tag) && PlainText(text)
    ensures var t := MessageTree(tag, text); Plain(t) && Depth(t) == 2 && Size(t) == 2 && Outside([]) && Outside(['\n'])
  {
    hide PlainTag, PlainText, DepthAll, SizeAll;
    ParamsTag();
    Single(0, Leaf(tag, [], text, []));
  }

  lemma ParamsTag()
    ensures PlainTag("params") && PlainStep("params")
  {}

  lemma Single(i: nat, t: Tree)
    ensures SizeAll([t]) == Size(t) && DepthAll([t]) == Depth(t) && Numbered(i, [t]) == [Element(i, t.tag, TextOf(t), if t.Branch? then Numbered(i + 1, t.kids) else [])]
  {
    hide Size, Depth;
    assert [t][1..] == [];
    assert SizeAll([]) == 0 && DepthAll([]) == 0;
  }

  /** params/tag is the message's only element below its root. */
  lemma MessageLookup(tag: seq<char>, text: seq<char>)
    requires PlainStep(tag)
    ensures var items := Items("params/" + tag);
      && |items| == 2
      && Lookup(Numbered(0, [MessageTree(tag, text)]), items) == Some(Element(1, tag, Some(text), []))
  {
    hide Items, SameTag, PlainStep, Numbered;
    PathItems(tag);
    Single(0, MessageTree(tag, text));
    Single(1, Leaf(tag, [], text, []));
    var leaf := Element(1, tag, Some(text), []);
    OnlyElement(leaf);
    OnlyElement(Element(0, "params", None, [leaf]));
    assert [Item("params", 0), Item(tag, 0)][1..] == [Item(tag, 0)];
  }

  lemma OnlyElement(e: Element)
    ensures SameTag([e], e.tag) == [e]
  {
    assert [e][1..] == [];
  }

  lemma PathItems(tag: seq<char>)
    requires PlainStep(tag)
    ensures Items("params/" + tag) == [Item("params", 0), Item(tag, 0)]
  {
    hide Items, ItemOf;
    var steps := ["params", tag];
    assert steps[1..] == [tag] && [tag][1..] == [];
    ItemsOfPath(steps);
    ParamsTag();
    PlainStepItem("params");
    PlainStepItem(tag);
    assert ItemsOf([tag]) == [ItemOf(tag)];
    assert PathOf(steps) == "params" + ['/'] + tag == "params/" + tag;
  }

  /** The value found by the query on a parsed message, if any. */
  function Found(p: Parser, path: seq<char>): Option<seq<char>>
    requires Rising(p.nodes) && p.nodes != [] && Items(path) != []
  {
    var node := Follow(p.src, p.nodes, At(0), Items(path));
    if node.At? && p.nodes[node.i].content.At? then Some(CStr(p.src, p.nodes[node.i].content.i)) else None
  }

  /** The whole way: parsing the message, querying params/tag and decoding the value gives the bytes back. */
  lemma MessageRoundTrip(tag: seq<char>, data: seq<Byte>)
    requires MessageTag(tag) && data != []
    ensures var r := Run(Start(Head(tag) + B.Encode(data) + Tail(tag))); var path := "params/" + tag;
      && r.Go? && Rising(r.p.nodes) && r.p.nodes != [] && Items(path) != []
      && Found(r.p, path) == Some(Padded(data)) && B.Decode(Padded(data)) == Some(data)
  {
    hide Run, Rising, Plain, PlainTag, PlainText, PlainStep, Render, Shows, Follow, Lookup, Items, B.Encode, B.Decode, CStr, Start, Outside;
    hide Elements, Numbered, ElementAt, Head, Tail;
    var text := Padded(data);
    var t, source := MessageTree(tag, text), Head(tag) + B.Encode(data) + Tail(tag);
    PaddedDecodes(data);
    MessageIsRendering(tag, B.Encode(data));
    MessageTreeIsPlain(tag, text);
    ReadBackShows([], t, ['\n']);
    var r := Run(Start(source)).p;
    AcceptedTreeIsWhole(source, 0);
    OneTree(r.src, r.nodes, t);
    ShowsAreElements(r.src, r.nodes, 0, [t], Null);
    MessageLookup(tag, text);
    FollowIsLookup(r.src, r.nodes, At(0), Items("params/" + tag));
    ElementText(r.src, r.nodes, Element(1, tag, Some(text), []));
  }

  lemma OneTree(src: seq<char>, nodes: seq<Node>, t: Tree)
    requires Shows(src, nodes, 0, t, Null) && nodes[0].right == Null
    ensures ShowsKids(src, nodes, 0, [t], Null) && FirstOf(0, [t]) == At(0)
  {
    hide Shows;
    assert [t][1..] == [];
  }

  lemma ElementText(src: seq<char>, nodes: seq<Node>, e: Element)
    requires Rising(nodes) && IsElement(src, nodes, e) && e.text.Some?
    ensures nodes[e.index].content.At? && CStr(src, nodes[e.index].content.i) == e.text.value
  {
    hide CStr;
    ElementsStep(src, nodes, e.index);
  }

  /** The value fits its 256 bytes exactly up to 189 bytes of data. */
  lemma ValueFits(data: seq<Byte>)
    ensures |Padded(data)| < VALUE_SIZE <==> |data| <= 189
  {
    hide B.Encode;
    B.EncodeLength(data);
  }
}
