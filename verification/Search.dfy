/** strstr and scanmem: a search that compares from the right and skips.  The shift after a mismatch is measured
    from the needle's end instead of from the mismatch, so some needles lose occurrences; which ones is stated
    exactly.  rmemcmp and rscanc are taken from their header: the last difference, and the last occurrence among
    the first characters. */
module Search {
  import opened Words

  // ---------------------------------------------------------------- the plain meaning

  predicate Occurs(hay: seq<char>, needle: seq<char>, p: nat) {
    p + |needle| <= |hay| && hay[p..p + |needle|] == needle
  }

  /** The first occurrence at or behind a position. */
  function FirstFrom(hay: seq<char>, needle: seq<char>, from: nat): (r: Option<nat>)
    ensures r.Some? ==> from <= r.value && Occurs(hay, needle, r.value) && forall p :: from <= p < r.value ==> !Occurs(hay, needle, p)
    ensures r.None? ==> forall p :: from <= p ==> !Occurs(hay, needle, p)
    decreases |hay| - from
  {
    if from + |needle| > |hay| then None
    else if Occurs(hay, needle, from) then Some(from)
    else FirstFrom(hay, needle, from + 1)
  }

  // ---------------------------------------------------------------- the search

  /** rmemcmp: the last of the first n positions at which two sequences differ. */
  function LastDifference(a: seq<char>, b: seq<char>, n: nat): (r: Option<nat>)
    requires n <= |a| && n <= |b|
    ensures r.None? ==> forall k :: 0 <= k < n ==> a[k] == b[k]
    ensures r.Some? ==> r.value < n && a[r.value] != b[r.value] && forall k :: r.value < k < n ==> a[k] == b[k]
  {
    if n == 0 then None
    else if a[n - 1] != b[n - 1] then Some(n - 1)
    else LastDifference(a, b, n - 1)
  }

  /** rscanc: the last occurrence of c among the first n. */
  function LastOf(s: seq<char>, c: char, n: nat): (r: Option<nat>)
    requires n <= |s|
    ensures r.None? ==> forall k :: 0 <= k < n ==> s[k] != c
    ensures r.Some? ==> r.value < n && s[r.value] == c && forall k :: r.value < k < n ==> s[k] != c
  {
    if n == 0 then None
    else if s[n - 1] == c then Some(n - 1)
    else LastOf(s, c, n - 1)
  }

  /** How far to move after a difference at j, where the haystack holds c; `absent` is the move when c does not
      occur before j: the needle's length in strstr, 1 in scanmem. */
  function Shift(needle: seq<char>, j: nat, c: char, absent: nat): (s: nat)
    requires j < |needle| && absent > 0
    ensures s > 0
  {
    if j == 0 then 1
    else
      var r := LastOf(needle, c, j);
      if r.None? then absent else |needle| - r.value - 1
  }

  /** The move, written out: 1 after a difference at the front; otherwise the distance of the needle's end from the
      last c in front of the difference, or `absent` when there is none. */
  lemma ShiftIs(needle: seq<char>, j: nat, c: char, absent: nat, r: int)
    requires j < |needle| && absent > 0 && -1 <= r < j && (r >= 0 ==> needle[r] == c) && forall k :: r < k < j ==> needle[k] != c
    ensures Shift(needle, j, c, absent) == if j == 0 then 1 else if r < 0 then absent else |needle| - 1 - r
  {
    assert r >= 0 ==> needle[r] == c;
  }

  function SearchFrom(hay: seq<char>, needle: seq<char>, from: nat, absent: nat): (r: Option<nat>)
    requires absent > 0
    decreases |hay| - from
  {
    if from + |needle| > |hay| then None
    else
      var j := LastDifference(hay[from..from + |needle|], needle, |needle|);
      if j.None? then Some(from)
      else SearchFrom(hay, needle, from + Shift(needle, j.value, hay[from + j.value], absent), absent)
  }

  // ---------------------------------------------------------------- which needles lose occurrences

  /** After a difference at j against c, the search jumps over an occurrence that may start s behind: the part
      of the needle already compared agrees with the needle moved by s. */
  predicate Loses(needle: seq<char>, j: nat, c: char, s: nat, absent: nat)
    requires absent > 0
  {
    && 0 < j && j + 1 < |needle| && c != needle[j]
    && 0 < s < Shift(needle, j, c, absent) && s <= |needle|
    && (forall i :: j < i < |needle| && s <= i ==> needle[i] == needle[i - s])
    && (s <= j ==> needle[j - s] == c)
  }

  /** No haystack makes the search jump over an occurrence; strings hold no NUL, memory may. */
  ghost predicate Sound(needle: seq<char>, absent: nat, nul: bool)
    requires absent > 0
  {
    forall j: nat, c: char, s: nat :: (nul || c != NUL) ==> !Loses(needle, j, c, s, absent)
  }

  predicate Allowed(hay: seq<char>, nul: bool) { nul || NUL !in hay }

  /** What the search knows at a position: the last difference is at j. */
  predicate DiffersLast(hay: seq<char>, needle: seq<char>, from: nat, j: nat) {
    && from + |needle| <= |hay| && j < |needle| && hay[from + j] != needle[j]
    && forall i :: j < i < |needle| ==> hay[from + i] == needle[i]
  }

  lemma DifferenceHere(hay: seq<char>, needle: seq<char>, from: nat)
    requires from + |needle| <= |hay|
    ensures var j := LastDifference(hay[from..from + |needle|], needle, |needle|);
      if j.None? then Occurs(hay, needle, from) else DiffersLast(hay, needle, from, j.value) && !Occurs(hay, needle, from)
  {
    var window := hay[from..from + |needle|];
    var j := LastDifference(window, needle, |needle|);
    if j.Some? {
      assert window[j.value] == hay[from + j.value];
      forall i | j.value < i < |needle|
        ensures hay[from + i] == needle[i]
      {
        assert window[i] == hay[from + i];
      }
    }
  }

  lemma OccursPointwise(hay: seq<char>, needle: seq<char>, p: nat)
    requires Occurs(hay, needle, p)
    ensures p + |needle| <= |hay| && forall i :: 0 <= i < |needle| ==> needle[i] == hay[p + i]
  {
    var window := hay[p..p + |needle|];
    assert forall i :: 0 <= i < |needle| ==> window[i] == needle[i];
  }

  /** An occurrence inside the shift would show that the needle loses one. */
  lemma SkippedMeansLoses(hay: seq<char>, needle: seq<char>, from: nat, j: nat, s: nat, absent: nat)
    requires 0 < absent <= |needle| && DiffersLast(hay, needle, from, j)
    requires 0 < s < Shift(needle, j, hay[from + j], absent) && Occurs(hay, needle, from + s)
    ensures Loses(needle, j, hay[from + j], s, absent)
  {
    hide Occurs;
    OccursPointwise(hay, needle, from + s);
    var m, c := |needle|, hay[from + j];
    forall i | j < i < m && s <= i
      ensures needle[i] == needle[i - s]
    {
      assert needle[i - s] == hay[from + s + (i - s)];
    }
    if s <= j {
      assert needle[j - s] == hay[from + s + (j - s)];
    }
    if j + 1 == m {
      LastPositionShift(needle, c, s, absent);
      assert false;
    }
  }

  /** After a difference at the last position the shift is the right one. */
  lemma LastPositionShift(needle: seq<char>, c: char, s: nat, absent: nat)
    requires 0 < absent <= |needle| && 1 < |needle| && 0 < s < Shift(needle, |needle| - 1, c, absent)
    ensures needle[|needle| - 1 - s] != c
  {}

  // ---------------------------------------------------------------- when the search is right

  lemma {:induction false} FirstFromSkips(hay: seq<char>, needle: seq<char>, from: nat, upTo: nat)
    requires from <= upTo && forall p :: from <= p < upTo ==> !Occurs(hay, needle, p)
    ensures FirstFrom(hay, needle, from) == FirstFrom(hay, needle, upTo)
    decreases upTo - from
  {
    hide Occurs;
    if from < upTo && from + |needle| <= |hay| { FirstFromSkips(hay, needle, from + 1, upTo); }
  }

  lemma NothingSkipped(hay: seq<char>, needle: seq<char>, from: nat, j: nat, absent: nat, nul: bool)
    requires 0 < absent <= |needle| && Sound(needle, absent, nul) && Allowed(hay, nul)
    requires DiffersLast(hay, needle, from, j) && !Occurs(hay, needle, from)
    ensures forall p :: from <= p < from + Shift(needle, j, hay[from + j], absent) ==> !Occurs(hay, needle, p)
  {
    hide Occurs, Loses, Shift;
    forall p | from <= p < from + Shift(needle, j, hay[from + j], absent)
      ensures !Occurs(hay, needle, p)
    {
      if p > from && Occurs(hay, needle, p) {
        SkippedMeansLoses(hay, needle, from, j, p - from, absent);
      }
    }
  }

  lemma NoRoom(hay: seq<char>, needle: seq<char>, from: nat, absent: nat)
    requires absent > 0 && from + |needle| > |hay|
    ensures SearchFrom(hay, needle, from, absent) == None && FirstFrom(hay, needle, from) == None
  {}

  lemma FoundHere(hay: seq<char>, needle: seq<char>, from: nat)
    requires Occurs(hay, needle, from)
    ensures FirstFrom(hay, needle, from) == Some(from)
  {}

  lemma {:induction false} SoundFinds(hay: seq<char>, needle: seq<char>, from: nat, absent: nat, nul: bool)
    requires 0 < absent && (needle != [] ==> absent <= |needle|) && Sound(needle, absent, nul) && Allowed(hay, nul)
    ensures SearchFrom(hay, needle, from, absent) == FirstFrom(hay, needle, from)
    decreases |hay| - from
  {
    hide *;
    if from + |needle| > |hay| {
      NoRoom(hay, needle, from, absent);
    } else {
      DifferenceHere(hay, needle, from);
      SearchStep(hay, needle, from, absent);
      var d := LastDifference(hay[from..from + |needle|], needle, |needle|);
      if d.None? {
        FoundHere(hay, needle, from);
      } else {
        var shift := Shift(needle, d.value, hay[from + d.value], absent);
        NothingSkipped(hay, needle, from, d.value, absent, nul);
        FirstFromSkips(hay, needle, from, from + shift);
        SoundFinds(hay, needle, from + shift, absent, nul);
      }
    }
  }

  /** A haystack in which the needle starts at s, but the search leaves position 0 for one behind s. */
  function Trap(needle: seq<char>, j: nat, c: char, s: nat): (hay: seq<char>)
    requires s <= |needle|
    ensures |hay| == s + |needle|
  {
    seq(s, i requires 0 <= i < s => if i == j then c else needle[i]) + needle
  }

  lemma TrapWorks(needle: seq<char>, j: nat, c: char, s: nat, absent: nat)
    requires 0 < absent <= |needle| && Loses(needle, j, c, s, absent)
    ensures var hay := Trap(needle, j, c, s);
      && Occurs(hay, needle, s) && SearchFrom(hay, needle, 0, absent) == None
  {
    hide Loses, LastOf, Trap, Shift, SearchFrom, LastDifference, Occurs;
    LosesBounds(needle, j, c, s, absent);
    var hay := Trap(needle, j, c, s);
    TrapOccurs(needle, j, c, s);
    TrapFront(needle, j, c, s, absent);
    DifferenceHere(hay, needle, 0);
    SearchStep(hay, needle, 0, absent);
    NoRoom(hay, needle, Shift(needle, j, c, absent), absent);
  }

  lemma TrapOccurs(needle: seq<char>, j: nat, c: char, s: nat)
    requires s <= |needle|
    ensures Occurs(Trap(needle, j, c, s), needle, s)
  {
    assert Trap(needle, j, c, s)[s..] == needle;
  }

  lemma TrapFront(needle: seq<char>, j: nat, c: char, s: nat, absent: nat)
    requires 0 < absent <= |needle| && Loses(needle, j, c, s, absent)
    ensures DiffersLast(Trap(needle, j, c, s), needle, 0, j) && Trap(needle, j, c, s)[j] == c
    ensures s < Shift(needle, j, c, absent)
  {
    hide Shift;
    var m, hay := |needle|, Trap(needle, j, c, s);
    forall i | j < i < m
      ensures hay[0 + i] == needle[i]
    {
      if s <= i { assert hay[i] == needle[i - s]; }
    }
  }

  /** Exactly the sound needles are found in every haystack. */
  lemma FindsEverywhereIffSound(needle: seq<char>, absent: nat, nul: bool)
    requires 0 < absent && (needle != [] ==> absent <= |needle|) && Allowed(needle, nul)
    ensures (forall hay: seq<char> :: Allowed(hay, nul) ==> SearchFrom(hay, needle, 0, absent) == FirstFrom(hay, needle, 0))
        <==> Sound(needle, absent, nul)
  {
    hide Loses, Occurs, LastDifference, LastOf, Shift, SearchFrom, FirstFrom, Trap;
    if Sound(needle, absent, nul) {
      forall hay: seq<char> | Allowed(hay, nul)
        ensures SearchFrom(hay, needle, 0, absent) == FirstFrom(hay, needle, 0)
      {
        SoundFinds(hay, needle, 0, absent, nul);
      }
    } else {
      var j: nat, c: char, s: nat :| (nul || c != NUL) && Loses(needle, j, c, s, absent);
      LosesBounds(needle, j, c, s, absent);
      var hay := Trap(needle, j, c, s);
      TrapWorks(needle, j, c, s, absent);
      TrapAllowed(needle, j, c, s, nul);
      assert FirstFrom(hay, needle, 0) != None by { assert Occurs(hay, needle, s); }
    }
  }

  lemma LosesBounds(needle: seq<char>, j: nat, c: char, s: nat, absent: nat)
    requires absent > 0 && Loses(needle, j, c, s, absent)
    ensures needle != [] && s <= |needle|
  {}

  lemma TrapAllowed(needle: seq<char>, j: nat, c: char, s: nat, nul: bool)
    requires s <= |needle| && Allowed(needle, nul) && (nul || c != NUL)
    ensures Allowed(Trap(needle, j, c, s), nul)
  {}

  /** A last byte that occurs nowhere else in the needle makes it sound; so do one or two bytes. */
  lemma UniqueLastIsSound(needle: seq<char>, absent: nat, nul: bool)
    requires 0 < absent && (needle != [] ==> absent <= |needle|)
    requires |needle| > 2 ==> needle[|needle| - 1] !in needle[..|needle| - 1]
    ensures Sound(needle, absent, nul)
  {
    hide LastOf;
    forall j: nat, c: char, s: nat
      ensures !Loses(needle, j, c, s, absent)
    {
      if |needle| > 2 && 0 < s < |needle| {
        assert needle[..|needle| - 1][|needle| - 1 - s] == needle[|needle| - 1 - s];
        assert needle[|needle| - 1 - s] in needle[..|needle| - 1];
      }
      if s == |needle| && 0 < j < |needle| { ShiftBound(needle, j, c, absent); }
    }
  }

  lemma ShiftBound(needle: seq<char>, j: nat, c: char, absent: nat)
    requires 0 < absent <= |needle| && j < |needle|
    ensures Shift(needle, j, c, absent) <= |needle|
  {}

  /** "abcb" is lost in "ababcb", by both searches. */
  lemma LostNeedle()
    ensures Occurs("ababcb", "abcb", 2)
    ensures SearchFrom("ababcb", "abcb", 0, 4) == None && SearchFrom("ababcb", "abcb", 0, 1) == None
  {
    hide SearchFrom;
    var needle := "abcb";
    assert LastOf(needle, 'a', 2) == Some(0);
    assert Loses(needle, 2, 'a', 2, 4) && Loses(needle, 2, 'a', 2, 1);
    TrapWorks(needle, 2, 'a', 2, 4);
    TrapWorks(needle, 2, 'a', 2, 1);
    assert Trap(needle, 2, 'a', 2) == "ababcb";
  }

  // ---------------------------------------------------------------- the loops

  lemma SearchStep(hay: seq<char>, needle: seq<char>, at: nat, absent: nat)
    requires absent > 0 && at + |needle| <= |hay|
    ensures var j := LastDifference(hay[at..at + |needle|], needle, |needle|);
      if j.None? then SearchFrom(hay, needle, at, absent) == Some(at)
      else j.value < |needle| && SearchFrom(hay, needle, at, absent) == SearchFrom(hay, needle, at + Shift(needle, j.value, hay[at + j.value], absent), absent)
    ensures forall j, c :: 0 <= j < |needle| ==>
      Shift(needle, j, c, absent) == if j == 0 then 1 else if LastOf(needle, c, j).None? then absent else |needle| - LastOf(needle, c, j).value - 1
  {
    hide LastDifference, LastOf;
  }

  lemma SearchEnds(hay: seq<char>, needle: seq<char>, absent: nat)
    requires absent > 0
    ensures forall at: nat :: at + |needle| > |hay| ==> SearchFrom(hay, needle, at, absent) == None
  {}

  lemma SoundSearch(hay: seq<char>, needle: seq<char>, absent: nat, nul: bool)
    requires 0 < absent && (needle != [] ==> absent <= |needle|) && (nul || Allowed(hay, nul))
    ensures Sound(needle, absent, nul) ==> SearchFrom(hay, needle, 0, absent) == FirstFrom(hay, needle, 0)
  {
    hide Sound;
    if Sound(needle, absent, nul) { SoundFinds(hay, needle, 0, absent, nul); }
  }

  /** strstr on C strings. */
  method StrStr(haystack: seq<char>, needle: seq<char>) returns (r: Option<nat>)
    requires Allowed(haystack, false) && Allowed(needle, false)
    ensures r == SearchFrom(haystack, needle, 0, if needle == [] then 1 else |needle|)
    ensures Sound(needle, if needle == [] then 1 else |needle|, false) ==> r == FirstFrom(haystack, needle, 0)
  {
    hide *;
    ghost var whole: nat := if needle == [] then 1 else |needle|;
    SoundSearch(haystack, needle, whole, false);
    SearchEnds(haystack, needle, whole);
    if |haystack| < |needle| {
      return None;
    }
    var temp := 0;
    while temp + |needle| <= |haystack|
      invariant 0 <= temp && SearchFrom(haystack, needle, temp, whole) == SearchFrom(haystack, needle, 0, whole)
      decreases |haystack| - temp
    {
      SearchStep(haystack, needle, temp, whole);
      var ptr := LastDifference(haystack[temp..temp + |needle|], needle, |needle|);
      if ptr == None {
        return Some(temp);
      } else if ptr.value == 0 {
        temp := temp + 1;
      } else {
        var ptr1 := LastOf(needle, haystack[temp + ptr.value], ptr.value);
        if ptr1 == None {
          temp := temp + |needle|;
        } else {
          temp := temp + (|needle[ptr1.value..]| - 1);
        }
      }
    }
    r := None;
  }

  /** scanmem on memory blocks. */
  method ScanMem(haystack: seq<char>, needle: seq<char>) returns (r: Option<nat>)
    ensures r == SearchFrom(haystack, needle, 0, 1)
    ensures Sound(needle, 1, true) ==> r == FirstFrom(haystack, needle, 0)
  {
    hide *;
    SoundSearch(haystack, needle, 1, true);
    SearchEnds(haystack, needle, 1);
    if |haystack| < |needle| {
      return None;
    }
    var temp := 0;
    while temp + |needle| <= |haystack|
      invariant 0 <= temp && SearchFrom(haystack, needle, temp, 1) == SearchFrom(haystack, needle, 0, 1)
      decreases |haystack| - temp
    {
      SearchStep(haystack, needle, temp, 1);
      var ptr := LastDifference(haystack[temp..temp + |needle|], needle, |needle|);
      if ptr == None {
        return Some(temp);
      } else if ptr.value == 0 {
        temp := temp + 1;
      } else {
        var ptr1 := LastOf(needle, haystack[temp + ptr.value], ptr.value);
        if ptr1 == None {
          temp := temp + 1;
        } else {
          temp := temp + ((|needle| - ptr1.value) - 1);
        }
      }
    }
    r := None;
  }
}
