/** Path queries over the arena: splitting a path, walking siblings, and the lookup they amount to. */
module XmlQuery {
  import opened Words
  import opened XmlParser
  import opened XmlTree
  import opened XmlArena
  import opened XmlElements
  import opened XmlMachine
  import Decimal

  const MAX_PATHS := 32
  const MAX_TAG := 128
  const QUERY_SIZE := 1024

  /** One step of a path: the index-th child (counted from 0) with this tag. */
  datatype Item = Item(tag: seq<char>, index: nat)

  // ---------------------------------------------------------------- siblings in the arena

  /** Those of the given nodes whose tag is `tag`, in order. */
  function Tagged(src: seq<char>, nodes: seq<Node>, ids: seq<nat>, tag: seq<char>): (r: seq<nat>)
    requires forall k :: 0 <= k < |ids| ==> ids[k] < |nodes|
    ensures forall k :: 0 <= k < |r| ==> r[k] < |nodes|
  {
    if ids == [] then []
    else (if CStr(src, nodes[ids[0]].tag) == tag then [ids[0]] else []) + Tagged(src, nodes, ids[1..], tag)
  }

  /** The index-th sibling with the tag, or Null. */
  function Pick(src: seq<char>, nodes: seq<Node>, p: Ptr, item: Item): (r: Ptr)
    requires Rising(nodes) && InArena(nodes, p)
    ensures InArena(nodes, r)
  {
    var found := Tagged(src, nodes, Siblings(nodes, p), item.tag);
    if item.index < |found| then At(found[item.index]) else Null
  }

  /** Following a path: pick among the siblings of p, then among the children of the node picked. */
  function Follow(src: seq<char>, nodes: seq<Node>, p: Ptr, items: seq<Item>): (r: Ptr)
    requires Rising(nodes) && InArena(nodes, p) && items != []
    ensures InArena(nodes, r)
    decreases |items|
  {
    var q := Pick(src, nodes, p, items[0]);
    if q.Null? || |items| == 1 then q
    else
      assert Forward(nodes, q.i, nodes[q.i].childStart);
      Follow(src, nodes, nodes[q.i].childStart, items[1..])
  }

  // ---------------------------------------------------------------- the same lookup on trees

  /** The elements with the tag, in order. */
  function SameTag(f: seq<Element>, tag: seq<char>): (r: seq<Element>)
    ensures forall k :: 0 <= k < |r| ==> r[k] in f && r[k].tag == tag
  {
    if f == [] then [] else (if f[0].tag == tag then [f[0]] else []) + SameTag(f[1..], tag)
  }

  /** The lookup on element trees: at each step the index-th child with the tag. */
  function Lookup(f: seq<Element>, items: seq<Item>): Option<Element>
    requires items != []
    decreases |items|
  {
    var found := SameTag(f, items[0].tag);
    if items[0].index >= |found| then None
    else
      var hit := found[items[0].index];
      if |items| == 1 then Some(hit) else Lookup(hit.kids, items[1..])
  }

  /** e is the element of a node of the arena. */
  predicate IsElement(src: seq<char>, nodes: seq<Node>, e: Element)
    requires Rising(nodes)
  {
    e.index < |nodes| && e == ElementAt(src, nodes, e.index)
  }

  /** The tagged siblings in the arena are the tagged elements. */
  lemma {:induction false} TaggedIsSameTag(src: seq<char>, nodes: seq<Node>, p: Ptr, tag: seq<char>)
    requires Rising(nodes) && InArena(nodes, p)
    ensures var ids := Tagged(src, nodes, Siblings(nodes, p), tag); var found := SameTag(Elements(src, nodes, p), tag);
      |ids| == |found| && forall k :: 0 <= k < |found| ==> ids[k] == found[k].index && IsElement(src, nodes, found[k])
    decreases if p.At? then |nodes| - p.i else 0
  {
    hide CStr, Rising, Siblings, Elements, ElementAt;
    if p.At? {
      var right := nodes[p.i].right;
      ElementsStep(src, nodes, p.i);
      SiblingsStep(nodes, p.i);
      var e := ElementAt(src, nodes, p.i);
      assert Elements(src, nodes, p)[0] == e && Siblings(nodes, p)[0] == p.i && Siblings(nodes, p)[1..] == Siblings(nodes, right);
      TaggedIsSameTag(src, nodes, right, tag);
    } else {
      NoSiblings(src, nodes);
    }
  }

  lemma NoSiblings(src: seq<char>, nodes: seq<Node>)
    requires Rising(nodes)
    ensures Siblings(nodes, Null) == [] && Elements(src, nodes, Null) == []
  {}

  /** In every arena whose links lead forward, following a path from a node finds the node of the element that
      the lookup among the elements from there on finds, and nothing exactly when the lookup fails. */
  lemma {:induction false} FollowIsLookup(src: seq<char>, nodes: seq<Node>, p: Ptr, items: seq<Item>)
    requires Rising(nodes) && InArena(nodes, p) && items != []
    ensures var r, hit := Follow(src, nodes, p, items), Lookup(Elements(src, nodes, p), items);
      && r == (if hit.Some? then At(hit.value.index) else Null)
      && (hit.Some? ==> IsElement(src, nodes, hit.value))
    decreases |items|
  {
    hide CStr, Rising, Tagged, Siblings, Elements, SameTag, ElementAt;
    TaggedIsSameTag(src, nodes, p, items[0].tag);
    var found := SameTag(Elements(src, nodes, p), items[0].tag);
    if items[0].index < |found| {
      var hit := found[items[0].index];
      assert IsElement(src, nodes, hit);
      if |items| > 1 { FollowIsLookup(src, nodes, nodes[hit.index].childStart, items[1..]); }
    }
  }

  /** On every text the parser accepts, a query is the lookup in the text's element tree. */
  lemma QueryIsLookup(src: seq<char>, items: seq<Item>)
    requires Run(Start(src)).Go? && Run(Start(src)).p.nodes != [] && items != []
    ensures var r := Run(Start(src)).p;
      && Rising(r.nodes)
      && Follow(r.src, r.nodes, At(0), items)
         == match Lookup(Elements(r.src, r.nodes, At(0)), items)
            case Some(e) => At(e.index)
            case None => Null
  {
    hide Run, Rising, Follow, Lookup, Elements, Start;
    AcceptedTreeIsWhole(src, 0);
    var r := Run(Start(src)).p;
    FollowIsLookup(r.src, r.nodes, At(0), items);
  }

  // ---------------------------------------------------------------- paths as text

  /** First position of c, or the length when it does not occur. */
  function Find(s: seq<char>, c: char): (k: nat)
    ensures k <= |s| && c !in s[..k] && (k < |s| ==> s[k] == c)
  {
    if s == [] || s[0] == c then 0
    else
      var k := Find(s[1..], c);
      assert s[..1 + k] == [s[0]] + s[1..][..k];
      1 + k
  }

  lemma {:induction false} FindIs(s: seq<char>, c: char, k: nat)
    requires k <= |s| && c !in s[..k] && (k < |s| ==> s[k] == c)
    ensures Find(s, c) == k
  {
    if k > 0 {
      assert s[0] == s[..k][0] && s[1..][..k - 1] == s[..k][1..];
      FindIs(s[1..], c, k - 1);
    }
  }

  /** parse_xquery_item on the C string s: a tag with an index in brackets, or the whole as a tag. */
  function ItemOf(s: seq<char>): Item {
    var open, close := Find(s, '['), Find(s, ']');
    if open < |s| && close < |s| && open + 1 < close
    then Item(s[..open], Decimal.AtoiValue(s[open + 1..close]) % 0x1_0000)
    else Item(s, 0)
  }

  function One(s: seq<char>): seq<Item> { if s == [] then [] else [ItemOf(s)] }

  /** The steps of a path: its non-empty pieces between slashes. */
  function Items(path: seq<char>): seq<Item>
    decreases |path|
  {
    var k := Find(path, '/');
    if k == |path| then One(path) else One(path[..k]) + Items(path[k + 1..])
  }

  predicate PlainStep(tag: seq<char>) { tag != [] && '[' !in tag && ']' !in tag && '/' !in tag }

  /** An index is read when a blank follows its digits; what stands behind the bracket is dropped ... */
  lemma IndexedStep(tag: seq<char>, digits: seq<char>, rest: seq<char>, n: nat)
    requires PlainStep(tag) && n < 0x1_0000 && Decimal.IsDecimal(digits, n)
    ensures ItemOf(tag + ['['] + digits + [' ', ']'] + rest) == Item(tag, n)
  {
    hide ItemOf, Decimal.AtoiValue, Decimal.Value;
    Decimal.AtoiReadsBlankEnd(digits, n);
    Bracketed(tag, digits + [' '], rest);
    assert tag + ['['] + digits + [' ', ']'] + rest == tag + ['['] + (digits + [' ']) + [']'] + rest;
  }

  /** ... and is 0 when none does, whatever the digits say. */
  lemma IndexNeedsBlank(tag: seq<char>, digits: seq<char>, rest: seq<char>)
    requires PlainStep(tag) && digits != [] && Decimal.AllDigits(digits)
    ensures ItemOf(tag + ['['] + digits + [']'] + rest) == Item(tag, 0)
  {
    Bracketed(tag, digits, rest);
    Decimal.AtoiNeedsBlank(digits);
  }

  /** A piece without both brackets, with nothing between them, or with the closing one in front, is a tag as it stands. */
  lemma UnbracketedStep(tag: seq<char>, rest: seq<char>)
    requires '[' !in tag && ']' !in tag
    ensures '[' !in rest || ']' !in rest ==> ItemOf(rest) == Item(rest, 0)
    ensures var empty, turned := tag + ['[', ']'] + rest, tag + [']'] + rest;
      ItemOf(empty) == Item(empty, 0) && ItemOf(turned) == Item(turned, 0)
  {
    var empty, turned := tag + ['[', ']'] + rest, tag + [']'] + rest;
    assert empty[..|tag|] == tag && turned[..|tag|] == tag && empty[..|tag| + 1] == tag + ['['];
    FindIs(empty, '[', |tag|);
    FindIs(empty, ']', |tag| + 1);
    FindIs(turned, ']', |tag|);
    BeforeTag(turned, tag, Find(turned, '['));
  }

  lemma BeforeTag(s: seq<char>, tag: seq<char>, k: nat)
    requires tag <= s && '[' !in tag && k <= |s| && (k < |s| ==> s[k] == '[')
    ensures |tag| <= k
  {
    assert forall i :: 0 <= i < |tag| ==> s[i] == tag[i] && tag[i] in tag;
  }

  lemma PlainStepItem(tag: seq<char>)
    requires PlainStep(tag)
    ensures ItemOf(tag) == Item(tag, 0)
  {}

  lemma Bracketed(tag: seq<char>, inside: seq<char>, rest: seq<char>)
    requires '[' !in tag && ']' !in tag && ']' !in inside && inside != []
    ensures ItemOf(tag + ['['] + inside + [']'] + rest) == Item(tag, Decimal.AtoiValue(inside) % 0x1_0000)
  {
    var s := tag + ['['] + inside + [']'] + rest;
    assert s[..|tag|] == tag;
    FindIs(s, '[', |tag|);
    var close := |tag| + 1 + |inside|;
    assert s[..close] == tag + ['['] + inside;
    FindIs(s, ']', close);
    assert s[|tag| + 1..close] == inside;
  }

  function PathOf(steps: seq<seq<char>>): seq<char>
    requires steps != []
  {
    if |steps| == 1 then steps[0] else steps[0] + ['/'] + PathOf(steps[1..])
  }

  function ItemsOf(steps: seq<seq<char>>): (r: seq<Item>)
    ensures |r| == |steps|
  {
    if steps == [] then [] else [ItemOf(steps[0])] + ItemsOf(steps[1..])
  }

  /** Splitting undoes joining with slashes. */
  lemma {:induction false} ItemsOfPath(steps: seq<seq<char>>)
    requires steps != [] && forall k :: 0 <= k < |steps| ==> steps[k] != [] && '/' !in steps[k]
    ensures Items(PathOf(steps)) == ItemsOf(steps)
  {
    hide ItemOf;
    var path, first := PathOf(steps), steps[0];
    assert path[..|first|] == first;
    FindIs(path, '/', |first|);
    if |steps| > 1 {
      ItemsOfPath(steps[1..]);
      assert path[|first| + 1..] == PathOf(steps[1..]);
    }
  }

  // ---------------------------------------------------------------- empty pieces

  function Slashes(n: nat): (s: seq<char>)
    ensures |s| == n
  {
    seq(n, _ => '/')
  }

  /** The steps with gaps[k] slashes in front of the k-th one and the last gap behind them all. */
  function Gapped(gaps: seq<nat>, steps: seq<seq<char>>): seq<char>
    requires |gaps| == |steps| + 1
    decreases |steps|
  {
    if steps == [] then Slashes(gaps[0]) else Slashes(gaps[0]) + steps[0] + Gapped(gaps[1..], steps[1..])
  }

  /** Steps are not empty and hold no slash; at least one slash stands between two of them. */
  ghost predicate Separated(gaps: seq<nat>, steps: seq<seq<char>>) {
    && |gaps| == |steps| + 1
    && (forall k :: 0 <= k < |steps| ==> steps[k] != [] && '/' !in steps[k])
    && (forall k :: 0 < k < |steps| ==> gaps[k] > 0)
  }

  lemma DropSlash(gaps: seq<nat>, steps: seq<seq<char>>)
    requires |gaps| == |steps| + 1 && gaps[0] > 0
    ensures Gapped(gaps, steps) == ['/'] + Gapped(gaps[0 := gaps[0] - 1], steps)
  {
    hide Slashes, Gapped;
    var fewer := gaps[0 := gaps[0] - 1];
    GappedUnfolds(gaps, steps);
    GappedUnfolds(fewer, steps);
    OneMoreSlash(gaps[0] - 1);
    if steps != [] {
      assert fewer[1..] == gaps[1..];
      InFront(Slashes(gaps[0] - 1), steps[0], Gapped(gaps[1..], steps[1..]));
    }
  }

  lemma InFront(a: seq<char>, b: seq<char>, c: seq<char>)
    ensures (['/'] + a) + b + c == ['/'] + (a + b + c)
  {}

  lemma SlashInFront(path: seq<char>)
    ensures Items(['/'] + path) == Items(path)
  {
    hide ItemOf;
    var slashed := ['/'] + path;
    assert slashed[0] == '/' && slashed[..0] == [] && slashed[1..] == path;
  }

  lemma StepInFront(step: seq<char>, rest: seq<char>)
    requires step != [] && '/' !in step
    ensures Items(step + ['/'] + rest) == [ItemOf(step)] + Items(rest) && Items(step) == [ItemOf(step)]
  {
    hide ItemOf;
    var path := step + ['/'] + rest;
    assert path[..|step|] == step && path[|step|] == '/' && path[|step| + 1..] == rest;
    FindIs(path, '/', |step|);
    assert step[..|step|] == step;
    FindIs(step, '/', |step|);
  }

  /** Empty pieces are dropped: with any number of slashes in front, between and behind, the items are those of
      the steps; a path of slashes has none. */
  lemma {:induction false} ItemsOfGapped(gaps: seq<nat>, steps: seq<seq<char>>)
    requires Separated(gaps, steps)
    ensures Items(Gapped(gaps, steps)) == ItemsOf(steps)
    decreases |steps|, gaps[0], 1
  {
    hide ItemOf, Items;
    if gaps[0] > 0 {
      DropSlash(gaps, steps);
      SlashInFront(Gapped(gaps[0 := gaps[0] - 1], steps));
      ItemsOfGapped(gaps[0 := gaps[0] - 1], steps);
    } else if steps == [] {
      NoItems();
    } else {
      FirstStep(gaps, steps);
    }
  }

  lemma NoItems()
    ensures Items([]) == [] && Slashes(0) == []
  {}

  lemma FirstStep(gaps: seq<nat>, steps: seq<seq<char>>)
    requires Separated(gaps, steps) && gaps[0] == 0 && steps != []
    ensures Items(Gapped(gaps, steps)) == ItemsOf(steps)
    decreases |steps|, gaps[0], 0
  {
    hide ItemOf, Items;
    var more, others := gaps[1..], steps[1..];
    assert Gapped(gaps, steps) == steps[0] + Gapped(more, others) by { assert Slashes(0) == []; }
    if more[0] == 0 {
      assert others == [] && Gapped(more, others) == [] && ItemsOf(others) == [];
      assert steps[0] + [] == steps[0];
      StepInFront(steps[0], []);
    } else {
      var less := more[0 := more[0] - 1];
      DropSlash(more, others);
      StepInFront(steps[0], Gapped(less, others));
      assert steps[0] + (['/'] + Gapped(less, others)) == steps[0] + ['/'] + Gapped(less, others);
      ItemsOfGapped(less, others);
    }
  }

  /** Every path is of that form. */
  lemma {:induction false} EveryPathIsGapped(path: seq<char>) returns (gaps: seq<nat>, steps: seq<seq<char>>)
    ensures Separated(gaps, steps) && Gapped(gaps, steps) == path
    ensures path != [] && path[0] == '/' ==> gaps[0] > 0
    ensures path == [] ==> steps == []
    decreases |path|
  {
    var k := Find(path, '/');
    if path == [] {
      gaps, steps := [0], [];
    } else if k == 0 {
      gaps, steps := EveryPathIsGapped(path[1..]);
      gaps := gaps[0 := gaps[0] + 1];
      DropSlash(gaps, steps);
      assert gaps[0 := gaps[0] - 1][0 := gaps[0]] == gaps;
    } else {
      var more, others := EveryPathIsGapped(path[k..]);
      gaps, steps := [0] + more, [path[..k]] + others;
      assert gaps[1..] == more && steps[1..] == others && Slashes(0) == [];
      assert path == path[..k] + path[k..];
    }
  }

  /** A slash in front of a path, or behind it, changes no query. */
  lemma SlashesAround(path: seq<char>)
    ensures Items(['/'] + path) == Items(path) == Items(path + ['/'])
  {
    hide Items, ItemsOf;
    SlashInFront(path);
    var gaps, steps := EveryPathIsGapped(path);
    var more := gaps[|steps| := gaps[|steps|] + 1];
    SlashBehind(gaps, steps);
    ItemsOfGapped(gaps, steps);
    ItemsOfGapped(more, steps);
  }

  lemma {:induction false} SlashBehind(gaps: seq<nat>, steps: seq<seq<char>>)
    requires |gaps| == |steps| + 1
    ensures Gapped(gaps[|steps| := gaps[|steps|] + 1], steps) == Gapped(gaps, steps) + ['/']
    decreases |steps|
  {
    hide Slashes, Gapped;
    var more := gaps[|steps| := gaps[|steps|] + 1];
    GappedUnfolds(gaps, steps);
    GappedUnfolds(more, steps);
    if steps != [] {
      assert more[1..] == gaps[1..][|steps| - 1 := gaps[|steps|] + 1];
      SlashBehind(gaps[1..], steps[1..]);
      Behind(Slashes(gaps[0]) + steps[0], Gapped(gaps[1..], steps[1..]));
    } else {
      OneMoreSlash(gaps[0]);
    }
  }

  lemma GappedUnfolds(gaps: seq<nat>, steps: seq<seq<char>>)
    requires |gaps| == |steps| + 1
    ensures Gapped(gaps, steps)
         == if steps == [] then Slashes(gaps[0]) else Slashes(gaps[0]) + steps[0] + Gapped(gaps[1..], steps[1..])
  {}

  lemma Behind(front: seq<char>, rest: seq<char>)
    ensures front + (rest + ['/']) == (front + rest) + ['/']
  {}

  lemma OneMoreSlash(n: nat)
    ensures Slashes(n + 1) == Slashes(n) + ['/'] == ['/'] + Slashes(n)
  {}

  /** The path that a configuration value is asked for by. */
  lemma ConfigurationPath(tag: seq<char>)
    requires tag != [] && '/' !in tag
    ensures Items("/SystemConfig/" + tag) == [Item("SystemConfig", 0), ItemOf(tag)]
  {
    hide ItemOf, Items;
    StepInFront(tag, []);
    StepInFront("SystemConfig", tag);
    SlashInFront("SystemConfig" + ['/'] + tag);
    PlainStepItem("SystemConfig");
    assert "/SystemConfig/" + tag == ['/'] + ("SystemConfig" + ['/'] + tag);
  }
}
