/** Decimal printing (the %d branch of sprintf_raw) and parsing (is_integer, atoi). */
module Decimal {
  import opened Words

  predicate IsDigit(c: char) { '0' <= c <= '9' }

  function DigitValue(c: char): nat
    requires IsDigit(c)
  {
    c as int - '0' as int
  }

  predicate AllDigits(s: seq<char>) { forall k :: 0 <= k < |s| ==> IsDigit(s[k]) }

  /** The number a digit string stands for. */
  function Value(s: seq<char>): nat
    requires AllDigits(s)
  {
    if s == [] then 0 else Value(s[..|s| - 1]) * 10 + DigitValue(s[|s| - 1])
  }

  /** s is the decimal notation of n: digits, no leading zero, value n. */
  predicate IsDecimal(s: seq<char>, n: nat) {
    s != [] && AllDigits(s) && (|s| > 1 ==> s[0] != '0') && Value(s) == n
  }

  lemma {:induction false} PositiveValue(s: seq<char>)
    requires AllDigits(s) && s != [] && s[0] != '0'
    ensures Value(s) > 0
  {
    if |s| == 1 {
      assert s[..0] == [];
    } else {
      PositiveValue(s[..|s| - 1]);
    }
  }

  /** There is only one notation of n. */
  lemma {:induction false} DecimalIsUnique(s: seq<char>, t: seq<char>, n: nat)
    requires IsDecimal(s, n) && IsDecimal(t, n)
    ensures s == t
    decreases |s|
  {
    var a, b := s[..|s| - 1], t[..|t| - 1];
    assert s == a + [s[|s| - 1]] && t == b + [t[|t| - 1]];
    assert Value(a) == n / 10 == Value(b) && s[|s| - 1] == t[|t| - 1];
    if a != [] { PositiveValue(a); }
    if b != [] { PositiveValue(b); }
    if a != [] {
      assert b != [];
      DecimalIsUnique(a, b, n / 10);
    }
  }

  // ---------------------------------------------------------------- printing

  function Pow10(k: nat): (p: nat)
    ensures p > 0
  {
    if k == 0 then 1 else 10 * Pow10(k - 1)
  }

  lemma Pow10Is19()
    ensures Pow10(19) == 0x8AC7_2304_89E8_0000 && Pow10(20) > WORD_LIMIT
  {
    assert Pow10(5) == 100_000;
    assert Pow10(10) == 10_000_000_000;
    assert Pow10(15) == 1_000_000_000_000_000;
    assert Pow10(19) == 10_000_000_000_000_000_000;
  }

  /** The number whose leading digits have value v and whose last k digits are those of rest. */
  function Rebuilt(v: nat, k: nat, rest: nat): nat { v * Pow10(k) + rest }

  /** One more digit: the value read so far grows by it, the rest shrinks to the remainder. */
  lemma NextDigit(v: nat, k: nat, p: nat, rest: nat)
    requires p == Pow10(k) && rest < Pow10(k + 1)
    ensures rest / p <= 9 && rest % p < p && Rebuilt(v, k + 1, rest) == Rebuilt(v * 10 + rest / p, k, rest % p)
  {
    assert rest == (rest / p) * p + rest % p;
    MulGrows(rest / p - 9, p);
    assert (v * 10 + rest / p) * p == v * (10 * p) + (rest / p) * p;
  }

  lemma PowersStart(n: nat)
    requires n < WORD_LIMIT
    ensures 0x8AC7_2304_89E8_0000 == Pow10(19) && n < Pow10(20) && Rebuilt(0, 20, n) == n
  {
    Pow10Is19();
  }

  lemma PowersStep(k: nat)
    ensures Pow10(k) / 10 == if k == 0 then 0 else Pow10(k - 1)
  {}

  lemma PushDigit(out: seq<char>, d: nat)
    requires AllDigits(out) && d <= 9
    ensures var c := ('0' as int + d) as char;
      IsDigit(c) && AllDigits(out + [c]) && Value(out + [c]) == Value(out) * 10 + d && (c == '0' <==> d == 0)
  {
    var all := out + [('0' as int + d) as char];
    assert all[..|all| - 1] == out;
  }

  /** sprintf_raw, %d: writes n behind position at, returns the position behind it. */
  method PrintDecimal(str: array<char>, at: nat, n: nat) returns (x: nat)
    requires n < WORD_LIMIT && at + 20 <= str.Length
    modifies str
    ensures at < x <= at + 20 && IsDecimal(str[at..x], n)
    ensures str[..at] == old(str[..at]) && str[x..] == old(str[x..])
  {
    hide Value, Pow10, Rebuilt;
    x := at;
    assert str[at..x] == [];
    EmptyValue();
    if n == 0 {
      PushDigit([], 0);
      str[x] := '0';
      x := x + 1;
      assert str[at..x] == [] + ['0'];
      return;
    }
    var decimal, addZero := n, false;
    var divisor := 0x8AC7_2304_89E8_0000;
    ghost var k: nat := 20;
    PowersStart(n);
    while divisor > 0
      invariant at <= x <= at + 20 - k && k <= 20 && addZero == (x > at)
      invariant divisor == (if k == 0 then 0 else Pow10(k - 1)) && 0 <= decimal < Pow10(k)
      invariant AllDigits(str[at..x]) && (addZero ==> str[at] != '0')
      invariant n == Rebuilt(Value(str[at..x]), k, decimal)
      invariant forall i :: 0 <= i < at || x <= i < str.Length ==> str[i] == old(str[i])
      decreases k
    {
      ghost var out := str[at..x];
      k := k - 1;
      NextDigit(Value(out), k, divisor, decimal);
      var v := decimal / divisor;
      PushDigit(out, v);
      if v > 0 || addZero {
        str[x] := ('0' as int + v) as char;
        x := x + 1;
        addZero := true;
        assert str[at..x] == out + [('0' as int + v) as char];
      }
      decimal := decimal % divisor;
      PowersStep(k);
      divisor := divisor / 10;
    }
    PowersEnd(Value(str[at..x]), decimal);
  }

  lemma NoDigits()
    ensures AllDigits([])
  {}

  lemma EmptyValue()
    ensures Value([]) == 0
  {}

  lemma PowersEnd(v: nat, rest: nat)
    requires rest < Pow10(0)
    ensures Rebuilt(v, 0, rest) == v
  {}

  // ---------------------------------------------------------------- parsing

  method IsInteger(number: seq<char>) returns (yes: bool)
    ensures yes == (number != [] && AllDigits(number))
  {
    if |number| == 0 {
      return false;
    }
    for i := 0 to |number|
      invariant AllDigits(number[..i])
    {
      if number[i] < '0' || number[i] > '9' {
        return false;
      }
      assert number[..i + 1] == number[..i] + [number[i]];
    }
    assert number[..|number|] == number;
    yes := true;
  }

  /** First position from i on that does not hold c. */
  function Behind(s: seq<char>, i: nat, c: char): (j: nat)
    requires i <= |s|
    ensures i <= j <= |s| && (j < |s| ==> s[j] != c) && forall k :: i <= k < j ==> s[k] == c
    decreases |s| - i
  {
    if i < |s| && s[i] == c then Behind(s, i + 1, c) else i
  }

  /** First position from i on that holds no digit. */
  function DigitsEnd(s: seq<char>, i: nat): (j: nat)
    requires i <= |s|
    ensures i <= j <= |s| && (j < |s| ==> !IsDigit(s[j])) && AllDigits(s[i..j])
    decreases |s| - i
  {
    if i < |s| && IsDigit(s[i]) then
      var j := DigitsEnd(s, i + 1);
      assert s[i..j] == [s[i]] + s[i + 1..j];
      j
    else i
  }

  lemma {:induction false} BehindIs(s: seq<char>, i: nat, c: char, j: nat)
    requires i <= j <= |s| && (forall k :: i <= k < j ==> s[k] == c) && (j < |s| ==> s[j] != c)
    ensures Behind(s, i, c) == j
    decreases j - i
  {
    if i < j { BehindIs(s, i + 1, c, j); }
  }

  lemma {:induction false} DigitsEndIs(s: seq<char>, i: nat, j: nat)
    requires i <= j <= |s| && (forall k :: i <= k < j ==> IsDigit(s[k])) && (j < |s| ==> !IsDigit(s[j]))
    ensures DigitsEnd(s, i) == j
    decreases j - i
  {
    if i < j { DigitsEndIs(s, i + 1, j); }
  }

  /** What atoi makes of a C string: the number between blanks, and 0 when no blank follows the digits. */
  function AtoiValue(s: seq<char>): nat {
    var i := Behind(s, 0, ' ');
    var j := DigitsEnd(s, i);
    if j < |s| && s[j] == ' ' then Value(s[i..j]) % WORD_LIMIT else 0
  }

  lemma WrapStep(v: nat, d: nat)
    ensures (v % WORD_LIMIT * 10 + d) % WORD_LIMIT == (v * 10 + d) % WORD_LIMIT
  {
    var q, r := v / WORD_LIMIT, v % WORD_LIMIT;
    var q', r' := (r * 10 + d) / WORD_LIMIT, (r * 10 + d) % WORD_LIMIT;
    DivUnique(v * 10 + d, WORD_LIMIT, q * 10 + q', r');
  }

  lemma ReadDigit(s: seq<char>, start: nat, i: nat)
    requires start <= i < |s| && AllDigits(s[start..i]) && IsDigit(s[i])
    ensures AllDigits(s[start..i + 1])
    ensures Value(s[start..i + 1]) % WORD_LIMIT == (Value(s[start..i]) % WORD_LIMIT * 10 + DigitValue(s[i])) % WORD_LIMIT
  {
    hide Value;
    var read := s[start..i];
    WrapStep(Value(read), DigitValue(s[i]));
    PushDigit(read, DigitValue(s[i]));
    assert s[start..i + 1] == read + [s[i]];
  }

  /** atoi on the C string s; its 16-bit index must reach the closing NUL. */
  method Atoi(s: seq<char>) returns (res: nat)
    requires NUL !in s && |s| < 0x1_0000
    ensures res == AtoiValue(s)
  {
    hide Value, AllDigits;
    res := 0;
    var i := 0;
    while i < |s| && s[i] == ' '
      invariant 0 <= i <= |s| && Behind(s, i, ' ') == Behind(s, 0, ' ')
    {
      i := i + 1;
    }
    ghost var start := i;
    assert s[start..i] == [];
    EmptyValue();
    NoDigits();
    while i == |s| || s[i] != ' '
      invariant start <= i <= |s| && AllDigits(s[start..i]) && DigitsEnd(s, i) == DigitsEnd(s, start)
      invariant res == Value(s[start..i]) % WORD_LIMIT
      decreases |s| - i
    {
      if i == |s| || s[i] < '0' || s[i] > '9' {
        return 0;
      }
      ReadDigit(s, start, i);
      res := (res * 10 + (s[i] as int - '0' as int)) % WORD_LIMIT;
      i := i + 1;
    }
  }

  /** Every C string is some blanks, some digits and a rest: atoi reads the digits, modulo 2^64, when a blank
      follows them, and gives 0 when anything else does, or nothing. */
  lemma AtoiExact(blanks: nat, digits: seq<char>, rest: seq<char>)
    requires AllDigits(digits) && (rest != [] ==> !IsDigit(rest[0]) && (digits == [] ==> rest[0] != ' '))
    ensures AtoiValue(seq(blanks, _ => ' ') + digits + rest)
         == if rest != [] && rest[0] == ' ' then Value(digits) % 0x1_0000_0000_0000_0000 else 0
  {
    hide Value;
    var front: seq<char> := seq(blanks, _ => ' ');
    var text := front + digits + rest;
    assert forall k :: blanks <= k < blanks + |digits| ==> text[k] == digits[k - blanks];
    assert rest != [] ==> text[blanks + |digits|] == rest[0];
    BehindIs(text, 0, ' ', blanks);
    DigitsEndIs(text, blanks, blanks + |digits|);
    assert text[blanks..blanks + |digits|] == digits;
  }

  /** Reading back: the digits of n between blanks are read as n, whatever follows. */
  lemma AtoiReadsDecimal(blanks: nat, s: seq<char>, n: nat, rest: seq<char>)
    requires IsDecimal(s, n) && n < WORD_LIMIT
    ensures AtoiValue(seq(blanks, _ => ' ') + s + [' '] + rest) == n
  {
    hide AtoiValue, Value;
    AtoiExact(blanks, s, [' '] + rest);
    assert seq(blanks, _ => ' ') + s + [' '] + rest == seq(blanks, _ => ' ') + s + ([' '] + rest);
  }

  lemma AtoiReadsBlankEnd(s: seq<char>, n: nat)
    requires IsDecimal(s, n) && n < WORD_LIMIT
    ensures AtoiValue(s + [' ']) == n
  {
    hide AtoiValue, Value;
    AtoiReadsDecimal(0, s, n, []);
    assert seq(0, _ => ' ') + s + [' '] + [] == s + [' '];
  }

  /** Without a blank behind the digits atoi gives 0, whatever the number. */
  lemma AtoiNeedsBlank(s: seq<char>)
    requires AllDigits(s)
    ensures AtoiValue(s) == 0
  {
    hide AtoiValue, Value;
    AtoiExact(0, s, []);
    assert seq(0, _ => ' ') + s + [] == s;
  }
}
