/** Base64Encoding.c.  Bytes are numbers below 256; where the code joins disjoint bit fields with `|`, shifts
    and masks are written as products, quotients and remainders by powers of two. */
module Base64 {
  import opened Words

  const CAPITALS := "ABCDEFGHIJKLMNOPQRSTUVWXYZ"
  const TABLE := CAPITALS + "abcdefghijklmnopqrstuvwxyz0123456789+/"
  const NONE: Byte := 0x80

  // ---------------------------------------------------------------- the alphabet

  /** The symbol of a 6-bit value. */
  function Symbol(v: nat): (c: char)
    requires v < 64
    ensures c != '=' && c as int < 256
  {
    if v < 26 then ('A' as int + v) as char
    else if v < 52 then ('a' as int + v - 26) as char
    else if v < 62 then ('0' as int + v - 52) as char
    else if v == 62 then '+' else '/'
  }

  lemma TableIsSymbol(v: nat)
    requires v < 64
    ensures |TABLE| == 64 && TABLE[v] == Symbol(v)
  {
    if v < 26 {
      assert TABLE[v] == CAPITALS[v];
    }
  }

  /** base64_table[v] */
  function TableAt(v: nat): (c: char)
    requires v < 64
    ensures c == Symbol(v)
  {
    TableIsSymbol(v);
    TABLE[v]
  }

  /** The decoding table: the value of a symbol, 0 for '=', and 0x80 for every other byte. */
  function SymbolValue(c: char): (v: Byte)
    ensures v == NONE || v < 64
  {
    if 'A' <= c <= 'Z' then c as int - 'A' as int
    else if 'a' <= c <= 'z' then c as int - 'a' as int + 26
    else if '0' <= c <= '9' then c as int - '0' as int + 52
    else if c == '+' then 62
    else if c == '/' then 63
    else if c == '=' then 0
    else NONE
  }

  lemma SymbolRoundTrip(v: nat)
    requires v < 64
    ensures SymbolValue(Symbol(v)) == v
  {}

  // ---------------------------------------------------------------- encoding

  function Quad(a: Byte, b: Byte, c: Byte): (q: seq<char>)
    ensures |q| == 4
  {
    [Symbol(a / 4), Symbol(a % 4 * 16 + b / 16), Symbol(b % 16 * 4 + c / 64), Symbol(c % 64)]
  }

  function Encode(data: seq<Byte>): (text: seq<char>)
    decreases |data|
  {
    if data == [] then []
    else if |data| == 1 then [Symbol(data[0] / 4), Symbol(data[0] % 4 * 16), '=', '=']
    else if |data| == 2 then [Symbol(data[0] / 4), Symbol(data[0] % 4 * 16 + data[1] / 16), Symbol(data[1] % 16 * 4), '=']
    else Quad(data[0], data[1], data[2]) + Encode(data[3..])
  }

  lemma {:induction false} EncodeLength(data: seq<Byte>)
    ensures |Encode(data)| == 4 * ((|data| + 2) / 3)
    decreases |data|
  {
    hide Quad, Symbol;
    if |data| >= 3 { EncodeLength(data[3..]); }
  }

  /** The four symbols are the digits, to the base 64, of the 24 bits of three bytes; one or two bytes are filled up
      with zero bits and padded. */
  lemma SymbolsAreDigits(a: Byte, b: Byte, c: Byte)
    ensures var q := Encode([a, b, c]);
      |q| == 4 && 65536 * a + 256 * b + c
      == 262144 * SymbolValue(q[0]) + 4096 * SymbolValue(q[1]) + 64 * SymbolValue(q[2]) + SymbolValue(q[3])
    ensures var q := Encode([a, b]);
      |q| == 4 && q[3] == '=' && 4 * (256 * a + b) == 4096 * SymbolValue(q[0]) + 64 * SymbolValue(q[1]) + SymbolValue(q[2])
    ensures var q := Encode([a]);
      |q| == 4 && q[2] == q[3] == '=' && 16 * a == 64 * SymbolValue(q[0]) + SymbolValue(q[1])
  {
    hide Symbol, SymbolValue;
    assert [a, b, c][3..] == [] && Encode([]) == [];
    SymbolRoundTrip(a / 4);
    SymbolRoundTrip(a % 4 * 16 + b / 16);
    SymbolRoundTrip(b % 16 * 4 + c / 64);
    SymbolRoundTrip(c % 64);
    SymbolRoundTrip(a % 4 * 16);
    SymbolRoundTrip(b % 16 * 4);
  }

  /** Every three bytes are encoded on their own. */
  lemma {:induction false} EncodeOfAppend(data: seq<Byte>, more: seq<Byte>)
    requires |data| % 3 == 0
    ensures Encode(data + more) == Encode(data) + Encode(more)
    decreases |data|
  {
    hide Quad, Symbol;
    if data == [] {
      assert [] + more == more;
    } else {
      EncodeOfAppend(data[3..], more);
      assert (data + more)[3..] == data[3..] + more;
    }
  }

  /** The buffer size base64_encode asks for, in 64-bit arithmetic. */
  function EncodeSize(len: nat): nat { (len * 4) % WORD_LIMIT / 3 + 4 }

  /** Its overflow test fires exactly when len * 4 does not fit a word. */
  lemma OverflowTest(len: nat)
    requires len < WORD_LIMIT
    ensures EncodeSize(len) < len <==> len * 4 >= WORD_LIMIT
    ensures len * 4 < WORD_LIMIT ==> EncodeSize(len) == len * 4 / 3 + 4
  {
    var k := len / 0x4000_0000_0000_0000;
    var x := len % 0x4000_0000_0000_0000;
    DivUnique(len * 4, WORD_LIMIT, k, 4 * x);
  }

  method PutQuad(out: array<char>, pos: nat, a: Byte, b: Byte, c: Byte)
    requires pos + 4 <= out.Length
    modifies out
    ensures out[..pos + 4] == old(out[..pos]) + Quad(a, b, c)
  {
    hide Symbol, TableAt;
    out[pos] := TableAt(a / 4);
    out[pos + 1] := TableAt(a % 4 * 16 + b / 16);
    out[pos + 2] := TableAt(b % 16 * 4 + c / 64);
    out[pos + 3] := TableAt(c % 64);
  }

  /** The one or two bytes left over, padded to a quad. */
  method PutLast(out: array<char>, at: nat, rest: seq<Byte>)
    requires at + 4 <= out.Length && 1 <= |rest| <= 2
    modifies out
    ensures out[..at + 4] == old(out[..at]) + Encode(rest)
  {
    hide Symbol, TableAt;
    var pos := at;
    out[pos] := TableAt(rest[0] / 4);
    pos := pos + 1;
    if |rest| == 1 {
      out[pos] := TableAt(rest[0] % 4 * 16);
      pos := pos + 1;
      out[pos] := '=';
      pos := pos + 1;
    } else {
      out[pos] := TableAt(rest[0] % 4 * 16 + rest[1] / 16);
      pos := pos + 1;
      out[pos] := TableAt(rest[1] % 16 * 4);
      pos := pos + 1;
    }
    out[pos] := '=';
  }

  lemma EncodeFront(src: seq<Byte>, i: nat)
    requires i + 3 <= |src|
    ensures Encode(src[i..]) == Quad(src[i], src[i + 1], src[i + 2]) + Encode(src[i + 3..])
  {
    hide Quad, Symbol;
    assert src[i..][3..] == src[i + 3..];
  }

  lemma NoData()
    ensures Encode([]) == []
  {}

  /** base64_encode; the allocator grants the buffer or not. */
  method Base64Encode(src: seq<Byte>, granted: bool) returns (out: array?<char>, outLen: nat)
    requires |src| < WORD_LIMIT
    ensures out == null <==> |src| * 4 >= WORD_LIMIT || !granted
    ensures out != null ==> fresh(out) && outLen <= out.Length == |src| * 4 / 3 + 4 && out[..outLen] == Encode(src)
  {
    hide Encode, Quad, EncodeSize;
    OverflowTest(|src|);
    var olen := EncodeSize(|src|);
    if olen < |src| || !granted {
      return null, 0;
    }
    out := new char[olen];
    var pos, i := 0, 0;
    assert out[..pos] + Encode(src[i..]) == Encode(src) by { assert src[0..] == src; }
    while |src| - i >= 3
      invariant 0 <= i <= |src| && 3 * pos == 4 * i && 0 <= pos <= olen && out[..pos] + Encode(src[i..]) == Encode(src)
    {
      EncodeFront(src, i);
      PutQuad(out, pos, src[i], src[i + 1], src[i + 2]);
      pos := pos + 4;
      i := i + 3;
    }
    if |src| - i > 0 {
      PutLast(out, pos, src[i..]);
      pos := pos + 4;
    } else {
      assert src[i..] == [];
      NoData();
    }
    assert out[..pos] == Encode(src);
    outLen := pos;
  }

  // ---------------------------------------------------------------- decoding

  predicate AllKept(k: seq<char>) { forall i :: 0 <= i < |k| ==> SymbolValue(k[i]) != NONE }

  /** The characters of the alphabet (and '='), in order. */
  function Kept(text: seq<char>): (k: seq<char>)
    ensures AllKept(k) && |k| <= |text|
  {
    if text == [] then []
    else if SymbolValue(text[|text| - 1]) == NONE then Kept(text[..|text| - 1])
    else Kept(text[..|text| - 1]) + [text[|text| - 1]]
  }

  function Pads(q: seq<char>): (n: nat)
    ensures n <= |q|
  {
    if q == [] then 0 else (if q[0] == '=' then 1 else 0) + Pads(q[1..])
  }

  /** Three bytes from four 6-bit values. */
  function Join(a: Byte, b: Byte, c: Byte, d: Byte): (t: seq<Byte>)
    requires a < 64 && b < 64 && c < 64 && d < 64
    ensures |t| == 3
  {
    TripleFits(b, c);
    [a * 4 + b / 16, b * 16 % 256 + c / 4, c * 64 % 256 + d]
  }

  /** The three bytes of four symbols. */
  function Triple(q: seq<char>): (t: seq<Byte>)
    requires |q| == 4 && AllKept(q)
    ensures |t| == 3
  {
    Join(SymbolValue(q[0]), SymbolValue(q[1]), SymbolValue(q[2]), SymbolValue(q[3]))
  }

  lemma TripleFits(b: Byte, c: Byte)
    ensures b * 16 % 256 <= 240 && c * 64 % 256 <= 192
  {
    DivUnique(b * 16, 256, b / 16, b % 16 * 16);
    DivUnique(c * 64, 256, c / 4, c % 4 * 64);
  }

  /** What whole quads decode to: the first padded one is the last one read. */
  function DecodeQuads(k: seq<char>): (r: Option<seq<Byte>>)
    requires |k| % 4 == 0 && AllKept(k)
    decreases |k|
  {
    if k == [] then Some([])
    else
      var pad := Pads(k[..4]);
      if pad == 0 then
        var rest := DecodeQuads(k[4..]);
        if rest.None? then None else Some(Triple(k[..4]) + rest.value)
      else if pad <= 2 then Some(Triple(k[..4])[..3 - pad])
      else None
  }

  function Decode(text: seq<char>): (r: Option<seq<Byte>>) {
    var k := Kept(text);
    if k == [] || |k| % 4 != 0 then None else DecodeQuads(k)
  }

  function IsPad(c: char): nat { if c == '=' then 1 else 0 }

  lemma PadsOf(a: char, b: char, c: char, d: char)
    ensures Pads([a, b, c, d]) == IsPad(a) + IsPad(b) + IsPad(c) + IsPad(d)
  {
    assert [a, b, c, d][1..] == [b, c, d] && [b, c, d][1..] == [c, d] && [c, d][1..] == [d] && [d][1..] == [];
    assert Pads([d]) == IsPad(d);
    assert Pads([c, d]) == IsPad(c) + IsPad(d);
    assert Pads([b, c, d]) == IsPad(b) + IsPad(c) + IsPad(d);
  }

  lemma BitsBack(a: Byte, b: Byte, c: Byte)
    ensures a / 4 * 4 + (a % 4 * 16 + b / 16) / 16 == a
    ensures (a % 4 * 16 + b / 16) * 16 % 256 + (b % 16 * 4 + c / 64) / 4 == b
    ensures (b % 16 * 4 + c / 64) * 64 % 256 + c % 64 == c
  {
    DivUnique((a % 4 * 16 + b / 16) * 16, 256, a % 4, b / 16 * 16);
    DivUnique((b % 16 * 4 + c / 64) * 64, 256, b % 16, c / 64 * 64);
  }

  /** Bits come back: decoding a quad undoes encoding three bytes, or one or two with padding. */
  lemma TripleOfQuad(a: Byte, b: Byte, c: Byte)
    ensures var q := Quad(a, b, c);
      && AllKept(q) && Pads(q) == 0 && Triple(q) == [a, b, c]
  {
    hide Symbol, SymbolValue, Pads;
    var q := Quad(a, b, c);
    SymbolRoundTrip(a / 4);
    SymbolRoundTrip(a % 4 * 16 + b / 16);
    SymbolRoundTrip(b % 16 * 4 + c / 64);
    SymbolRoundTrip(c % 64);
    PadsOf(q[0], q[1], q[2], q[3]);
    BitsBack(a, b, c);
  }

  lemma TripleOfTail(a: Byte, b: Byte)
    ensures var q := [Symbol(a / 4), Symbol(a % 4 * 16), '=', '='];
      AllKept(q) && Pads(q) == 2 && Triple(q)[..1] == [a]
    ensures var q := [Symbol(a / 4), Symbol(a % 4 * 16 + b / 16), Symbol(b % 16 * 4), '='];
      AllKept(q) && Pads(q) == 1 && Triple(q)[..2] == [a, b]
  {
    hide Symbol, SymbolValue, Pads;
    SymbolRoundTrip(a / 4);
    SymbolRoundTrip(a % 4 * 16);
    SymbolRoundTrip(a % 4 * 16 + b / 16);
    SymbolRoundTrip(b % 16 * 4);
    PadValue();
    PadsOf(Symbol(a / 4), Symbol(a % 4 * 16), '=', '=');
    PadsOf(Symbol(a / 4), Symbol(a % 4 * 16 + b / 16), Symbol(b % 16 * 4), '=');
    BitsBack(a, 0, 0);
    BitsBack(a, b, 0);
  }

  lemma PadValue()
    ensures SymbolValue('=') == 0
  {}

  lemma {:induction false} EncodeIsKept(data: seq<Byte>)
    ensures AllKept(Encode(data)) && |Encode(data)| % 4 == 0 && (data != [] ==> Encode(data) != [])
    decreases |data|
  {
    hide SymbolValue, Symbol, Pads, Triple;
    if |data| == 1 {
      TripleOfTail(data[0], 0);
    } else if |data| == 2 {
      TripleOfTail(data[0], data[1]);
    } else if |data| >= 3 {
      TripleOfQuad(data[0], data[1], data[2]);
      EncodeIsKept(data[3..]);
    }
  }

  lemma {:induction false} DecodeQuadsEncode(data: seq<Byte>)
    ensures AllKept(Encode(data)) && |Encode(data)| % 4 == 0 && DecodeQuads(Encode(data)) == Some(data)
    decreases |data|
  {
    hide SymbolValue, Symbol, Pads, Triple, AllKept, Quad;
    EncodeIsKept(data);
    var k := Encode(data);
    if |data| == 1 {
      TripleOfTail(data[0], 0);
      assert k[..4] == k && data == [data[0]];
    } else if |data| == 2 {
      TripleOfTail(data[0], data[1]);
      assert k[..4] == k && data == [data[0], data[1]];
    } else if |data| >= 3 {
      TripleOfQuad(data[0], data[1], data[2]);
      DecodeQuadsEncode(data[3..]);
      assert k[..4] == Quad(data[0], data[1], data[2]) && k[4..] == Encode(data[3..]);
      assert data == [data[0], data[1], data[2]] + data[3..];
    }
  }

  /** Decoding gives the bytes back from every text whose alphabet characters are their encoding, whatever
      other bytes lie between them: exactly for non-empty data. */
  lemma RoundTrip(data: seq<Byte>, text: seq<char>)
    requires Kept(text) == Encode(data)
    ensures Decode(text) == if data == [] then None else Some(data)
  {
    hide Kept, Encode, DecodeQuads;
    if data == [] {
      NoData();
    } else {
      EncodeIsKept(data);
      DecodeQuadsEncode(data);
    }
  }

  lemma {:induction false} KeptOfAppend(a: seq<char>, b: seq<char>)
    ensures Kept(a + b) == Kept(a) + Kept(b)
    decreases |b|
  {
    hide SymbolValue;
    if b == [] {
      assert a + b == a;
    } else {
      assert (a + b)[..|a + b| - 1] == a + b[..|b| - 1];
      KeptOfAppend(a, b[..|b| - 1]);
    }
  }

  lemma {:induction false} KeptIsAll(s: seq<char>)
    requires AllKept(s)
    ensures Kept(s) == s
    decreases |s|
  {
    hide SymbolValue;
    if s != [] { KeptIsAll(s[..|s| - 1]); }
  }

  lemma {:induction false} KeptIsNone(s: seq<char>)
    requires forall k :: 0 <= k < |s| ==> SymbolValue(s[k]) == NONE
    ensures Kept(s) == []
    decreases |s|
  {
    hide SymbolValue;
    if s != [] { KeptIsNone(s[..|s| - 1]); }
  }

  /** Neither a symbol nor the pad. */
  predicate IsNoise(c: char) {
    !('A' <= c <= 'Z') && !('a' <= c <= 'z') && !('0' <= c <= '9') && c != '+' && c != '/' && c != '='
  }

  /** Bytes outside the alphabet may be put anywhere without changing what a text decodes to. */
  lemma OutsideIsIgnored(a: seq<char>, noise: seq<char>, b: seq<char>)
    requires forall k :: 0 <= k < |noise| ==> IsNoise(noise[k])
    ensures Decode(a + noise + b) == Decode(a + b)
  {
    hide Kept, DecodeQuads;
    KeptOfAppend(a + noise, b);
    KeptOfAppend(a, noise);
    KeptOfAppend(a, b);
    KeptIsNone(noise);
    assert Kept(a + noise + b) == Kept(a + b);
  }

  /** The i-th group of four symbols. */
  function QuadAt(k: seq<char>, i: nat): (q: seq<char>)
    requires 4 * i + 4 <= |k|
    ensures |q| == 4
  {
    k[4 * i..4 * i + 4]
  }

  /** A quad of more than two pads comes before any padded one that ends the text. */
  ghost predicate BadQuad(k: seq<char>, i: nat) {
    4 * i + 4 <= |k| && Pads(QuadAt(k, i)) > 2 && forall j :: 0 <= j < i ==> Pads(QuadAt(k, j)) == 0
  }

  /** Decoding fails exactly when nothing is kept, when the kept symbols are no whole quads, or when the first padded
      quad has three or four pads. */
  lemma DecodeFailsIff(text: seq<char>)
    ensures var k := Kept(text); Decode(text).None? <==> k == [] || |k| % 4 != 0 || exists i: nat :: BadQuad(k, i)
  {
    hide Kept, DecodeQuads, AllKept, BadQuad;
    var k := Kept(text);
    if |k| % 4 == 0 { QuadsFailIff(k); }
  }

  lemma {:induction false} QuadsFailIff(k: seq<char>)
    requires |k| % 4 == 0 && AllKept(k)
    ensures DecodeQuads(k).None? <==> exists i: nat :: BadQuad(k, i)
    decreases |k|
  {
    hide Pads, Triple, SymbolValue, AllKept, DecodeQuads;
    if k == [] {
      assert DecodeQuads(k) == Some([]) by { NothingYetFails(); }
    } else {
      AllKeptParts(k, 4);
      DecodeQuadsFront(k);
      assert QuadAt(k, 0) == k[..4];
      if Pads(k[..4]) == 0 {
        QuadsFailIff(k[4..]);
        forall i: nat
          ensures BadQuad(k[4..], i) <==> BadQuad(k, i + 1)
        {
          LaterQuads(k, i);
        }
        forall i: nat | BadQuad(k, i)
          ensures BadQuad(k[4..], i - 1)
        {
          assert i > 0;
          LaterQuads(k, i - 1);
        }
      } else {
        assert Pads(k[..4]) > 2 ==> BadQuad(k, 0);
      }
    }
  }

  lemma NothingYetFails()
    ensures DecodeQuads([]) == Some([])
  {}

  lemma LaterQuads(k: seq<char>, i: nat)
    requires |k| >= 4 && Pads(QuadAt(k, 0)) == 0
    ensures BadQuad(k[4..], i) <==> BadQuad(k, i + 1)
  {
    hide Pads;
    forall j: nat | 4 * j + 8 <= |k|
      ensures QuadAt(k[4..], j) == QuadAt(k, j + 1)
    {}
    if BadQuad(k[4..], i) {
      forall j | 0 <= j < i + 1
        ensures Pads(QuadAt(k, j)) == 0
      {
        if j > 0 { assert QuadAt(k[4..], j - 1) == QuadAt(k, j); }
      }
    }
    if BadQuad(k, i + 1) {
      forall j | 0 <= j < i
        ensures Pads(QuadAt(k[4..], j)) == 0
      {
        assert QuadAt(k[4..], j) == QuadAt(k, j + 1);
      }
    }
  }

  // ---------------------------------------------------------------- decoding in place

  /** What is written so far in front of what the rest decodes to. */
  function Prepend(done: seq<Byte>, rest: Option<seq<Byte>>): Option<seq<Byte>> {
    if rest.None? then None else Some(done + rest.value)
  }

  lemma AllKeptParts(k: seq<char>, i: nat)
    requires AllKept(k) && i <= |k|
    ensures AllKept(k[..i]) && AllKept(k[i..])
  {
    hide SymbolValue;
  }

  lemma DecodeQuadsFront(rest: seq<char>)
    requires |rest| % 4 == 0 && |rest| >= 4 && AllKept(rest) && AllKept(rest[..4]) && AllKept(rest[4..])
    ensures var q := rest[..4];
      DecodeQuads(rest) ==
        if Pads(q) == 0 then Prepend(Triple(q), DecodeQuads(rest[4..]))
        else if Pads(q) <= 2 then Some(Triple(q)[..3 - Pads(q)])
        else None
  {
    hide Pads, Triple, SymbolValue, AllKept;
  }

  lemma DecodeNext(rest: seq<char>, done: seq<Byte>)
    requires AllKept(rest) && |rest| % 4 == 0 && |rest| >= 4
    ensures AllKept(rest[..4]) && AllKept(rest[4..])
    ensures var q := rest[..4];
      Prepend(done, DecodeQuads(rest)) ==
         if Pads(q) == 0 then Prepend(done + Triple(q), DecodeQuads(rest[4..]))
         else if Pads(q) <= 2 then Some(done + Triple(q)[..3 - Pads(q)])
         else None
  {
    hide Pads, Triple, SymbolValue, AllKept, DecodeQuads;
    AllKeptParts(rest, 4);
    DecodeQuadsFront(rest);
    if Pads(rest[..4]) == 0 && DecodeQuads(rest[4..]).Some? {
      var tail := DecodeQuads(rest[4..]).value;
      assert done + (Triple(rest[..4]) + tail) == done + Triple(rest[..4]) + tail;
    }
  }

  lemma {:induction false} PadsSnoc(q: seq<char>, c: char)
    ensures Pads(q + [c]) == Pads(q) + IsPad(c)
  {
    if q == [] {
      assert [c][1..] == [] && q + [c] == [c];
    } else {
      assert (q + [c])[1..] == q[1..] + [c];
      PadsSnoc(q[1..], c);
    }
  }

  ghost predicate IsTable(t: seq<Byte>, n: nat) {
    |t| == 256 && forall c: char :: c as int < 256 ==> t[c as int] == ValueBelow(c, n)
  }

  ghost predicate IsDecodingTable(t: seq<Byte>) {
    |t| == 256 && forall c: char :: c as int < 256 ==> t[c as int] == SymbolValue(c)
  }

  /** dtable: 0x80 everywhere, then the alphabet, then '='. */
  method BuildTable() returns (dtable: array<Byte>)
    ensures fresh(dtable) && IsDecodingTable(dtable[..])
  {
    hide SymbolValue, Symbol, TableAt;
    dtable := new Byte[256](_ => NONE);
    for i := 0 to 64
      invariant IsTable(dtable[..], i)
    {
      OneSymbol(dtable[..], i);
      ghost var before := dtable[..];
      dtable[TableAt(i) as int] := i;
      assert dtable[..] == before[Symbol(i) as int := i];
    }
    AllSymbols();
    dtable['=' as int] := 0;
  }

  /** The decoding table when the first n symbols of the alphabet are in it. */
  function ValueBelow(c: char, n: nat): Byte { if c != '=' && SymbolValue(c) < n then SymbolValue(c) else NONE }

  lemma OneSymbol(t: seq<Byte>, v: nat)
    requires v < 64 && IsTable(t, v)
    ensures IsTable(t[Symbol(v) as int := v], v + 1)
  {
    var w := v + 1;
    forall c: char | c as int < 256
      ensures t[Symbol(v) as int := v][c as int] == ValueBelow(c, w)
    {
      assert t[c as int] == ValueBelow(c, v);
    }
  }

  lemma AllSymbols()
    ensures forall c: char :: SymbolValue(c) == if c == '=' then 0 else ValueBelow(c, 64)
  {}

  /** The first pass of base64_decode. */
  method CountKept(dtable: array<Byte>, src: seq<char>) returns (count: nat)
    requires IsDecodingTable(dtable[..])
    requires forall k :: 0 <= k < |src| ==> src[k] as int < 256
    ensures count == |Kept(src)|
  {
    hide SymbolValue;
    count := 0;
    for i := 0 to |src|
      invariant count == |Kept(src[..i])|
    {
      assert src[..i + 1][..i] == src[..i];
      if dtable[src[i] as int] != NONE {
        count := count + 1;
      }
    }
    assert src[..|src|] == src;
  }

  lemma KeptFront(text: seq<char>, i: nat)
    requires i < |text|
    ensures Kept(text[i..]) == (if SymbolValue(text[i]) == NONE then [] else [text[i]]) + Kept(text[i + 1..])
  {
    hide SymbolValue;
    assert text[i..] == [text[i]] + text[i + 1..];
    KeptOfAppend([text[i]], text[i + 1..]);
    assert [text[i]][..0] == [];
  }

  lemma NothingYet(k: seq<char>)
    requires AllKept(k) && |k| % 4 == 0
    ensures DecodeQuads(k) == Prepend([], DecodeQuads(k)) && Pads(k[..0]) == 0 && k[0..] == k
  {
    hide DecodeQuads;
    if DecodeQuads(k).Some? { assert [] + DecodeQuads(k).value == DecodeQuads(k).value; }
  }

  /** At the end of the text all kept characters were taken, in whole quads. */
  lemma NothingLeft(text: seq<char>, k: seq<char>, count: nat, done: seq<Byte>)
    requires AllKept(k) && |k| % 4 == 0 && count < 4 && count <= |k|
    requires Kept(text[|text|..]) == k[count..]
    ensures Prepend(done, DecodeQuads(k)) == Some(done)
  {
    hide SymbolValue, Pads, Triple;
    assert |k[count..]| == 0;
    assert done + [] == done;
  }

  method PutTriple(out: array<Byte>, at: nat, block: array<Byte>)
    requires at + 3 <= out.Length && block.Length == 4 && out != block
    requires block[0] < 64 && block[1] < 64 && block[2] < 64 && block[3] < 64
    modifies out
    ensures out[..at + 3] == old(out[..at]) + Join(block[0], block[1], block[2], block[3])
  {
    var a: nat, b: nat, c: nat, d: nat := block[0], block[1], block[2], block[3];
    TripleFits(b, c);
    var pos := at;
    out[pos] := a * 4 + b / 16;
    pos := pos + 1;
    out[pos] := b * 16 % 256 + c / 4;
    pos := pos + 1;
    out[pos] := c * 64 % 256 + d;
  }

  /** The block holds the values of the symbols read since the last full quad. */
  ghost predicate Collected(block: seq<Byte>, q: seq<char>) {
    |block| == 4 && |q| <= 4 && forall j :: 0 <= j < |q| ==> block[j] == SymbolValue(q[j])
  }

  lemma CollectOne(block: seq<Byte>, q: seq<char>, c: char)
    requires Collected(block, q) && |q| < 4
    ensures Collected(block[|q| := SymbolValue(c)], q + [c])
  {
    hide SymbolValue;
  }

  lemma QuadRead(q: seq<char>, block: seq<Byte>)
    requires AllKept(q) && |q| == 4 && Collected(block, q)
    ensures (forall j :: 0 <= j < 4 ==> block[j] < 64) && Triple(q) == Join(block[0], block[1], block[2], block[3])
  {
    hide SymbolValue, Join;
  }

  /** Writes the three bytes of a full block and takes back as many as there was padding; padding ends the
      decoding, and more than two pad characters make it fail. */
  method TakeQuad(out: array<Byte>, at: nat, block: array<Byte>, pad: nat, ghost rest: seq<char>)
    returns (pos: nat, stop: bool, ok: bool)
    requires out != block && block.Length == 4 && at + 3 <= out.Length && AllKept(rest) && |rest| % 4 == 0 && |rest| >= 4
    requires pad == Pads(rest[..4]) && Collected(block[..], rest[..4])
    modifies out
    ensures pos <= out.Length && stop == (pad > 0) && ok == (pad <= 2) && AllKept(rest[4..])
    ensures var whole := old(Prepend(out[..at], DecodeQuads(rest)));
      && (!ok ==> whole == None)
      && (ok && stop ==> whole == Some(out[..pos]))
      && (!stop ==> pos == at + 3 && whole == Prepend(out[..pos], DecodeQuads(rest[4..])))
  {
    hide SymbolValue, Pads, DecodeQuads, Join, Triple, Prepend, Collected;
    DecodeNext(rest, out[..at]);
    QuadRead(rest[..4], block[..]);
    PutTriple(out, at, block);
    ghost var done := out[..at + 3];
    pos := at + 3;
    stop, ok := pad > 0, true;
    if pad > 0 {
      if pad == 1 {
        pos := pos - 1;
      } else if pad == 2 {
        pos := pos - 2;
      } else {
        ok := false;
      }
      if ok {
        assert out[..pos] == done[..pos];
        TakeBack(done[..at], Triple(rest[..4]), pad);
      }
    }
  }

  lemma TakeBack(done: seq<Byte>, t: seq<Byte>, pad: nat)
    requires |t| == 3 && pad <= 3
    ensures (done + t)[..|done| + 3 - pad] == done + t[..3 - pad] && (done + t)[..|done|] == done
  {}

  lemma TableEntry(t: seq<Byte>, c: char)
    requires IsDecodingTable(t) && c as int < 256
    ensures |t| == 256 && t[c as int] == SymbolValue(c)
  {}

  lemma NoPads(k: seq<char>)
    ensures Pads(k[..0]) == 0
  {}

  lemma SymbolTaken(rest: seq<char>, n: nat, c: char, tail: seq<char>)
    requires n <= |rest| && rest[n..] == [c] + tail
    ensures n < |rest| && rest[..n + 1] == rest[..n] + [c] && rest[n + 1..] == tail
  {
    assert rest[n] == rest[n..][0] && rest[n + 1..] == rest[n..][1..];
  }

  /** One symbol goes into the block, and is counted when it is a pad. */
  method TakeSymbol(block: array<Byte>, count: nat, pad: nat, c: char, tmp: Byte, ghost rest: seq<char>, ghost tail: seq<char>)
    returns (taken: nat, pads: nat)
    requires block.Length == 4 && count < 4 && count <= |rest| && rest[count..] == [c] + tail
    requires tmp == SymbolValue(c) != NONE && pad == Pads(rest[..count]) && Collected(block[..], rest[..count])
    modifies block
    ensures taken == count + 1 <= |rest| && rest[taken..] == tail
    ensures pads == Pads(rest[..taken]) && Collected(block[..], rest[..taken])
  {
    hide SymbolValue, Pads, Collected;
    SymbolTaken(rest, count, c, tail);
    PadsSnoc(rest[..count], c);
    CollectOne(block[..], rest[..count], c);
    pads := pad;
    if c == '=' {
      pads := pads + 1;
    }
    block[count] := tmp;
    taken := count + 1;
  }

  /** base64_decode */
  method Base64Decode(src: seq<char>, granted: bool) returns (out: array?<Byte>, outLen: nat)
    requires forall k :: 0 <= k < |src| ==> src[k] as int < 256
    ensures out == null <==> Decode(src).None? || !granted
    ensures out != null ==> fresh(out) && outLen <= out.Length == |Kept(src)| / 4 * 3 && out[..outLen] == Decode(src).value
  {
    hide SymbolValue, Kept, Pads, DecodeQuads, Join, Triple, Prepend, IsDecodingTable, AllKept, Collected;
    var dtable := BuildTable();
    var count := CountKept(dtable, src);
    if count == 0 || count % 4 != 0 || !granted {
      return null, 0;
    }
    out := new Byte[count / 4 * 3];
    var block := new Byte[4];
    ghost var rest := Kept(src);
    var pos, pad := 0, 0;
    count := 0;
    NothingYet(rest);
    NoneCollected(block[..], rest);
    assert src[0..] == src && out[..0] == [];
    var i := 0;
    while i < |src|
      invariant IsDecodingTable(dtable[..]) && 0 <= i <= |src|
      invariant AllKept(rest) && |rest| % 4 == 0 && 0 <= count < 4 && count <= |rest|
      invariant Kept(src[i..]) == rest[count..] && 0 <= pos && 4 * pos + 3 * |rest| == 4 * out.Length
      invariant pad == Pads(rest[..count]) && Collected(block[..], rest[..count])
      invariant DecodeQuads(Kept(src)) == Prepend(out[..pos], DecodeQuads(rest))
    {
      KeptFront(src, i);
      TableEntry(dtable[..], src[i]);
      var tmp := dtable[src[i] as int];
      if tmp != NONE {
        count, pad := TakeSymbol(block, count, pad, src[i], tmp, rest, Kept(src[i + 1..]));
        if count == 4 {
          var stop, ok;
          pos, stop, ok := TakeQuad(out, pos, block, pad, rest);
          if !ok {
            return null, 0;
          }
          if stop {
            return out, pos;
          }
          count := 0;
          rest := rest[4..];
          NoPads(rest);
          NoneCollected(block[..], rest);
        }
      }
      i := i + 1;
    }
    NothingLeft(src, rest, count, out[..pos]);
    outLen := pos;
  }

  lemma NoneCollected(block: seq<Byte>, k: seq<char>)
    requires |block| == 4
    ensures Collected(block, k[..0])
  {}
}
