/** exec_xquery as the code runs it: it cuts a copy of the path in place, fills the list of steps, and walks
    the arena. */
module XmlQueryMachine {
  import opened Words
  import opened XmlParser
  import opened XmlArena
  import opened XmlElements
  import opened XmlMachine
  import opened XmlQuery
  import Decimal

  /** The C string s at position `at` of a buffer. */
  ghost predicate Stored(a: array<char>, at: nat, s: seq<char>)
    reads a
  {
    at + |s| < a.Length && a[at + |s|] == NUL && forall k :: 0 <= k < |s| ==> a[at + k] == s[k] != NUL
  }

  method StrLen(a: array<char>, at: nat, ghost s: seq<char>) returns (n: nat)
    requires Stored(a, at, s)
    ensures n == |s| && a[at..at + n] == s && NUL !in s
  {
    n := 0;
    while a[at + n] != NUL
      invariant n <= |s| && (n < |s| ==> a[at + n] == s[n])
      decreases |s| - n
    {
      n := n + 1;
    }
  }

  /** scanc: the first position of c within len characters. */
  method ScanC(a: array<char>, at: nat, c: char, len: nat) returns (k: Ptr)
    requires at + len <= a.Length
    ensures var f := Find(a[at..at + len], c); k == if f < len then At(at + f) else Null
  {
    var i := 0;
    while i < len
      invariant 0 <= i <= len && c !in a[at..at + i]
    {
      if a[at + i] == c {
        assert a[at..at + len][..i] == a[at..at + i];
        FindIs(a[at..at + len], c, i);
        return At(at + i);
      }
      assert a[at..at + i + 1] == a[at..at + i] + [a[at + i]];
      i := i + 1;
    }
    assert a[at..at + len][..len] == a[at..at + len];
    FindIs(a[at..at + len], c, len);
    k := Null;
  }

  class XQuery {
    const items: array<Item>
    var itemsCount: nat

    ghost predicate Valid()
      reads this
    {
      items.Length == MAX_PATHS && itemsCount <= MAX_PATHS
    }

    ghost function Contents(): seq<Item>
      requires Valid()
      reads this, items
    {
      items[..itemsCount]
    }

    constructor ()
      ensures Valid() && fresh(items) && Contents() == []
    {
      items := new Item[MAX_PATHS](i => Item([], 0));
      itemsCount := 0;
    }

    method Add(item: Item)
      requires Valid() && itemsCount < MAX_PATHS
      modifies `itemsCount, items
      ensures Valid() && Contents() == old(Contents()) + [item]
    {
      items[itemsCount] := item;
      itemsCount := itemsCount + 1;
    }

    /** The step with an index: both brackets become NULs, the tag ends at the first, the number at the second. */
    method CutItem(q: array<char>, at: nat, open: nat, close: nat, ghost s: seq<char>) returns (item: Item)
      requires Stored(q, at, s) && |s| < QUERY_SIZE && at <= open && open + 1 < close < at + |s|
      modifies q
      ensures item == Item(s[..open - at], Decimal.AtoiValue(s[open + 1 - at..close - at]) % 0x1_0000)
      ensures q[..at] == old(q[..at]) && q[at + |s|..] == old(q[at + |s|..])
    {
      hide Decimal.AtoiValue;
      q[open] := NUL;
      q[close] := NUL;
      var tagLen := StrLen(q, at, s[..open - at]);
      ghost var inside := s[open + 1 - at..close - at];
      var numberLen := StrLen(q, open + 1, inside);
      var index := Decimal.Atoi(q[open + 1..open + 1 + numberLen]);
      item := Item(q[at..at + tagLen], index % 0x1_0000);
    }

    /** parse_xquery_item on the C string at position `at`. */
    method ParseXQueryItem(q: array<char>, at: nat, ghost s: seq<char>)
      requires Valid() && itemsCount < MAX_PATHS && Stored(q, at, s) && |s| < QUERY_SIZE && |ItemOf(s).tag| < MAX_TAG
      requires q as object != items
      modifies q, `itemsCount, items
      ensures Valid() && Contents() == old(Contents()) + [ItemOf(s)]
      ensures q[..at] == old(q[..at]) && q[at + |s|..] == old(q[at + |s|..])
    {
      hide Decimal.AtoiValue, Find;
      var len := StrLen(q, at, s);
      var open := ScanC(q, at, '[', len);
      var close := ScanC(q, at, ']', len);
      var item: Item;
      if open.At? && close.At? && open.i + 1 < close.i {
        item := CutItem(q, at, open.i, close.i, s);
      } else {
        item := Item(q[at..at + len], 0);
      }
      Add(item);
    }
  }

  /** getXMLNode: walks right until the index-th node with the tag. */
  method GetXMLNode(heap: XmlHeap, node: Ptr, item: Item) returns (r: Ptr)
    requires heap.Valid() && Rising(heap.Nodes()) && TagsInside(heap.Nodes(), |heap.Src()|)
    requires InArena(heap.Nodes(), node) && NUL !in item.tag
    ensures r == Pick(heap.Src(), heap.Nodes(), node, item)
  {
    hide Rising, CStr, Siblings, Tagged;
    ghost var src, nodes := heap.Src(), heap.Nodes();
    ghost var found := Tagged(src, nodes, Siblings(nodes, node), item.tag);
    var ptr, i := node, 0;
    while ptr.At?
      invariant InArena(nodes, ptr) && 0 <= i <= item.index && i <= |found|
      invariant found[i..] == Tagged(src, nodes, Siblings(nodes, ptr), item.tag)
      decreases if ptr.At? then |nodes| - ptr.i else 0
    {
      NextSibling(src, nodes, ptr.i, item.tag);
      assert nodes[ptr.i] == heap.xmlNodes[ptr.i];
      var same := heap.TagIs(heap.xmlNodes[ptr.i].tag, item.tag);
      if same {
        if i == item.index {
          assert found[i] == found[i..][0];
          return ptr;
        }
        assert found[i + 1..] == found[i..][1..];
        i := i + 1;
      }
      ptr := heap.xmlNodes[ptr.i].right;
    }
    assert Tagged(src, nodes, Siblings(nodes, Null), item.tag) == [] by { NoSibling(src, nodes, item.tag); }
    r := Null;
  }

  lemma NextSibling(src: seq<char>, nodes: seq<Node>, k: nat, tag: seq<char>)
    requires Rising(nodes) && k < |nodes|
    ensures var right := nodes[k].right;
      && InArena(nodes, right) && (right.At? ==> right.i > k)
      && Tagged(src, nodes, Siblings(nodes, At(k)), tag)
         == (if CStr(src, nodes[k].tag) == tag then [k] else []) + Tagged(src, nodes, Siblings(nodes, right), tag)
  {
    hide CStr;
    assert Forward(nodes, k, nodes[k].right);
    var ids := Siblings(nodes, At(k));
    assert ids[0] == k && ids[1..] == Siblings(nodes, nodes[k].right);
  }

  lemma NoSibling(src: seq<char>, nodes: seq<Node>, tag: seq<char>)
    requires Rising(nodes)
    ensures Tagged(src, nodes, Siblings(nodes, Null), tag) == []
  {}

  /** The rest of a path, once node q was picked. */
  function Descend(src: seq<char>, nodes: seq<Node>, q: Ptr, items: seq<Item>): Ptr
    requires Rising(nodes) && InArena(nodes, q)
  {
    if q.Null? || items == [] then q
    else
      assert Forward(nodes, q.i, nodes[q.i].childStart);
      Follow(src, nodes, nodes[q.i].childStart, items)
  }

  lemma FollowDescends(src: seq<char>, nodes: seq<Node>, p: Ptr, items: seq<Item>)
    requires Rising(nodes) && InArena(nodes, p) && items != []
    ensures Follow(src, nodes, p, items) == Descend(src, nodes, Pick(src, nodes, p, items[0]), items[1..])
  {
    hide Rising, Pick;
  }

  lemma DescendFollows(src: seq<char>, nodes: seq<Node>, k: nat, items: seq<Item>)
    requires Rising(nodes) && k < |nodes| && items != []
    ensures InArena(nodes, nodes[k].childStart) && Descend(src, nodes, At(k), items) == Follow(src, nodes, nodes[k].childStart, items)
  {
    hide Follow;
    assert Forward(nodes, k, nodes[k].childStart);
  }

  lemma DescendEnds(src: seq<char>, nodes: seq<Node>, q: Ptr, items: seq<Item>)
    requires Rising(nodes) && InArena(nodes, q) && (q.Null? || items == [])
    ensures Descend(src, nodes, q, items) == q
  {}

  lemma PieceSplit(path: seq<char>, start: nat, i: nat)
    requires start <= i < |path| && '/' !in path[start..i] && path[i] == '/'
    ensures Items(path[start..]) == One(path[start..i]) + Items(path[i + 1..])
  {
    hide ItemOf;
    var rest := path[start..];
    assert rest[..i - start] == path[start..i] && rest[i - start + 1..] == path[i + 1..];
    FindIs(rest, '/', i - start);
  }

  lemma PieceLast(path: seq<char>, start: nat)
    requires start <= |path| && '/' !in path[start..]
    ensures Items(path[start..]) == One(path[start..])
  {
    hide ItemOf;
    var rest := path[start..];
    assert rest[..|rest|] == rest;
    FindIs(rest, '/', |rest|);
  }

  lemma {:induction false} ItemsHaveNoNul(path: seq<char>)
    requires NUL !in path
    ensures forall k :: 0 <= k < |Items(path)| ==> NUL !in Items(path)[k].tag
    decreases |path|
  {
    hide Decimal.AtoiValue;
    var k := Find(path, '/');
    if k < |path| { ItemsHaveNoNul(path[k + 1..]); }
  }

  predicate TagsFit(items: seq<Item>) { forall k :: 0 <= k < |items| ==> |items[k].tag| < 128 }

  lemma TagsFitPart(a: seq<Item>, b: seq<Item>, c: seq<Item>)
    requires TagsFit(a + (b + c))
    ensures TagsFit(b)
  {
    assert forall k :: 0 <= k < |b| ==> b[k] == (a + (b + c))[|a| + k];
  }

  /** Position `from` of a buffer on holds the rest of the path, closed by NULs. */
  ghost predicate HoldsRest(q: array<char>, path: seq<char>, from: nat)
    reads q
  {
    q.Length == QUERY_SIZE && |path| < QUERY_SIZE
    && forall k :: from <= k < QUERY_SIZE ==> q[k] == if k < |path| then path[k] else NUL
  }

  /** The same, with the piece that starts at `from` ended by a NUL. */
  ghost predicate PieceCut(q: array<char>, path: seq<char>, from: nat, end: nat)
    reads q
  {
    q.Length == QUERY_SIZE && |path| < QUERY_SIZE && end < QUERY_SIZE && q[end] == NUL
    && forall k :: from <= k < QUERY_SIZE && k != end ==> q[k] == if k < |path| then path[k] else NUL
  }

  /** memset and strcpy into the buffer */
  method CopyPath(path: seq<char>) returns (q: array<char>)
    requires |path| < QUERY_SIZE
    ensures fresh(q) && HoldsRest(q, path, 0)
  {
    q := new char[QUERY_SIZE](k requires 0 <= k => if k < |path| then path[k] else NUL);
  }

  method CutPiece(q: array<char>, path: seq<char>, from: nat, end: nat)
    requires HoldsRest(q, path, from) && from <= end < |path|
    modifies q
    ensures PieceCut(q, path, from, end)
  {
    q[end] := NUL;
  }

  lemma RestChar(q: array<char>, path: seq<char>, from: nat, k: nat)
    requires HoldsRest(q, path, from) && from <= k <= |path|
    ensures q.Length == QUERY_SIZE && q[k] == if k < |path| then path[k] else NUL
    ensures PieceCut(q, path, from, |path|)
  {}

  /** The first half of exec_xquery: the path, cut at its slashes, as a list of steps. */
  method SplitPath(path: seq<char>) returns (xquery: XQuery)
    requires |path| < 1024 && NUL !in path && |Items(path)| <= 32
    requires TagsFit(Items(path))
    ensures fresh(xquery) && fresh(xquery.items) && xquery.Valid() && xquery.Contents() == Items(path)
  {
    hide Items, ItemOf, One, TagsFit, HoldsRest, PieceCut;
    var q := CopyPath(path);
    xquery := new XQuery();
    var start := 0;
    assert path[0..] == path;
    for i := 0 to |path|
      invariant start <= i && '/' !in path[start..i] && HoldsRest(q, path, start)
      invariant xquery.Valid() && fresh(xquery) && fresh(xquery.items) && xquery.items as object != q
      invariant Items(path) == xquery.Contents() + Items(path[start..])
    {
      RestChar(q, path, start, i);
      if q[i] == '/' {
        PieceSplit(path, start, i);
        TagsFitPart(xquery.Contents(), One(path[start..i]), Items(path[i + 1..]));
        CutPiece(q, path, start, i);
        ParsePiece(xquery, q, path, start, i);
        start := i + 1;
      } else {
        assert path[start..i + 1] == path[start..i] + [path[i]];
      }
    }
    assert path[start..|path|] == path[start..];
    RestChar(q, path, start, |path|);
    PieceLast(path, start);
    assert One(path[start..]) + [] == One(path[start..]);
    TagsFitPart(xquery.Contents(), One(path[start..]), []);
    ParsePiece(xquery, q, path, start, |path|);
  }

  /** Parses the piece between start and end unless it is empty. */
  method ParsePiece(xquery: XQuery, q: array<char>, path: seq<char>, start: nat, end: nat)
    requires xquery.Valid() && xquery.items as object != q && NUL !in path && start <= end <= |path|
    requires PieceCut(q, path, start, end)
    requires |xquery.Contents()| + |One(path[start..end])| <= MAX_PATHS
    requires TagsFit(One(path[start..end]))
    modifies q, xquery`itemsCount, xquery.items
    ensures xquery.Valid() && xquery.Contents() == old(xquery.Contents()) + One(path[start..end])
    ensures HoldsRest(q, path, end + 1)
  {
    hide ItemOf;
    ghost var s := path[start..end];
    assert s != [] ==> path[start] in path && q[start] == path[start];
    if q[start] != NUL {
      assert Stored(q, start, s);
      assert One(s)[0] == ItemOf(s);
      ghost var rest := q[end..];
      xquery.ParseXQueryItem(q, start, s);
      assert q[end..] == rest;
      assert forall k :: end <= k < QUERY_SIZE ==> q[k] == rest[k - end];
    }
  }

  /** exec_xquery.  The path fits its buffer and has between one and 32 steps whose tags fit theirs. */
  method ExecXQuery(heap: XmlHeap, path: seq<char>) returns (node: Ptr)
    requires heap.Valid() && Rising(heap.Nodes()) && TagsInside(heap.Nodes(), |heap.Src()|) && heap.Nodes() != []
    requires |path| < 1024 && NUL !in path && 0 < |Items(path)| <= 32
    requires TagsFit(Items(path))
    ensures node == Follow(heap.Src(), heap.Nodes(), At(0), Items(path))
  {
    hide Rising, CStr, Pick, ItemOf, Follow, Descend;
    var xquery := SplitPath(path);
    ghost var src, nodes, items := heap.Src(), heap.Nodes(), Items(path);
    ItemsHaveNoNul(path);
    assert xquery.items[0] == items[0];
    FollowDescends(src, nodes, At(0), items);
    node := GetXMLNode(heap, At(0), xquery.items[0]);
    var i := 1;
    while node.At? && i < xquery.itemsCount
      invariant xquery.Valid() && xquery.Contents() == items
      invariant 1 <= i <= |items| && InArena(nodes, node)
      invariant Follow(src, nodes, At(0), items) == Descend(src, nodes, node, items[i..])
    {
      DescendFollows(src, nodes, node.i, items[i..]);
      FollowDescends(src, nodes, nodes[node.i].childStart, items[i..]);
      assert nodes[node.i].childStart == heap.xmlNodes[node.i].childStart && xquery.items[i] == items[i];
      assert items[i..][1..] == items[i + 1..];
      node := GetXMLNode(heap, heap.xmlNodes[node.i].childStart, xquery.items[i]);
      i := i + 1;
    }
    DescendEnds(src, nodes, node, items[i..]);
  }
}
