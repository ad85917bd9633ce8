/** 64-bit words and bytes as numbers, with the bit operations that the page tables use on them. */
module Words {
  const WORD_LIMIT := 0x1_0000_0000_0000_0000
  type Word = w: nat | w < WORD_LIMIT
  type Byte = b: nat | b < 256

  /** The character that ends a C string. */
  const NUL: char := '\0'

  datatype Option<T> = None | Some(value: T)

  const FRAME_SIZE := 0x1000
  const COLLECTION_SIZE := 0x20_0000
  /** What `return -1` gives in a uint64_t, and the "no table yet" marker of a slot. */
  const NO_ADDRESS: Word := 0xFFFF_FFFF_FFFF_FFFF
  /** What a freed 2 MiB slot holds. */
  const FREED_SLOT: Word := 0xFFFF_FFFF_FFFF_FFF0

  /** w | PRESENT | RW | USER: OR with 7 replaces the three lowest bits by ones. */
  function TableFlags(w: nat): nat {
    w - w % 8 + 7
  }

  /** w | PRESENT | RW | USER | 2MIB: also sets the bit of weight 0x80. */
  function PageFlags(w: nat): nat {
    if (w / 0x80) % 2 == 1 then TableFlags(w) else TableFlags(w) + 0x80
  }

  function Min(a: nat, b: nat): nat { if a < b then a else b }

  lemma MulGrows(x: int, d: int)
    requires d > 0
    ensures x >= 1 ==> x * d >= d
    ensures x <= -1 ==> x * d <= -d
  {}

  lemma DivUnique(w: nat, d: nat, q: nat, r: nat)
    requires d > 0 && r < d && w == q * d + r
    ensures w / d == q && w % d == r
  {
    var x := q - w / d;
    assert w == (w / d) * d + w % d;
    assert x * d == q * d - (w / d) * d;
    MulGrows(x, d);
  }

  /** The flags stay inside the low byte: the frame number survives and the present bit is set. */
  lemma FlagsKeepFrame(w: nat)
    ensures PageFlags(w) / FRAME_SIZE == w / FRAME_SIZE && TableFlags(w) / FRAME_SIZE == w / FRAME_SIZE
    ensures PageFlags(w) % 2 == 1 && TableFlags(w) % 2 == 1
    ensures w < WORD_LIMIT ==> PageFlags(w) < WORD_LIMIT && TableFlags(w) < WORD_LIMIT
    ensures w % FRAME_SIZE == 0 ==> PageFlags(w) == w + 0x87 && TableFlags(w) == w + 7
  {
    var q, rest := w / FRAME_SIZE, w % FRAME_SIZE;
    var c, low := rest / 0x80, rest % 0x80;
    var a, b := low / 8, low % 8;
    FlagsOf(q, c, a, b);
  }

  lemma FlagsOf(q: nat, c: nat, a: nat, b: nat)
    requires c < 32 && a < 16 && b < 8
    ensures var w := FRAME_SIZE * q + 0x80 * c + 8 * a + b;
      && TableFlags(w) == FRAME_SIZE * q + 0x80 * c + 8 * a + 7
      && PageFlags(w) == TableFlags(w) + (if c % 2 == 1 then 0 else 0x80)
      && w / FRAME_SIZE == TableFlags(w) / FRAME_SIZE == PageFlags(w) / FRAME_SIZE == q
      && TableFlags(w) % 2 == PageFlags(w) % 2 == 1
      && (w < WORD_LIMIT ==> TableFlags(w) < WORD_LIMIT && PageFlags(w) < WORD_LIMIT)
      && (w % FRAME_SIZE == 0 ==> c == a == b == 0)
  {
    hide TableFlags, PageFlags;
    var w := FRAME_SIZE * q + 0x80 * c + 8 * a + b;
    FlagsAre(q, c, a, b);
    DivUnique(w, FRAME_SIZE, q, 0x80 * c + 8 * a + b);
    SplitLow(q, 0x80 * c + 8 * a + 7);
    SplitLow(q, PageFlags(w) - FRAME_SIZE * q);
    if w < WORD_LIMIT { BelowLimit(q, 0x80 * c + 8 * a + b, PageFlags(w) - FRAME_SIZE * q); }
  }

  lemma FlagsAre(q: nat, c: nat, a: nat, b: nat)
    requires c < 32 && a < 16 && b < 8
    ensures var w := FRAME_SIZE * q + 0x80 * c + 8 * a + b;
      && TableFlags(w) == FRAME_SIZE * q + 0x80 * c + 8 * a + 7
      && PageFlags(w) == TableFlags(w) + (if c % 2 == 1 then 0 else 0x80)
  {
    var w := FRAME_SIZE * q + 0x80 * c + 8 * a + b;
    DivUnique(w, 8, 512 * q + 16 * c + a, b);
    DivUnique(w, 0x80, 32 * q + c, 8 * a + b);
    DivUnique(32 * q + c, 2, 16 * q + c / 2, c % 2);
  }

  /** The limit is a page multiple. */
  lemma BelowLimit(q: nat, low: nat, other: nat)
    requires low < FRAME_SIZE && other < FRAME_SIZE && FRAME_SIZE * q + low < WORD_LIMIT
    ensures FRAME_SIZE * q + other < WORD_LIMIT
  {}

  lemma SplitLow(q: nat, low: nat)
    requires low < FRAME_SIZE && low % 2 == 1
    ensures (FRAME_SIZE * q + low) / FRAME_SIZE == q && (FRAME_SIZE * q + low) % 2 == 1
  {
    DivUnique(FRAME_SIZE * q + low, FRAME_SIZE, q, low);
    DivUnique(FRAME_SIZE * q + low, 2, 2048 * q + low / 2, 1);
  }
}
