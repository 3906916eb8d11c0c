/** `funge_strstr`: substring search over zero-terminated strings of signed cells. */
module Strstr {
  import opened Words
  import opened TwoWay

  const CELL_MIN := -0x8000_0000_0000_0000
  const CELL_MAX := 0x7fff_ffff_ffff_ffff

  type Cell = c: int | CELL_MIN <= c <= CELL_MAX

  /** The cast to funge_unsigned_cell, modulo 2^64. */
  function Unsigned(c: Cell): int {
    if c < 0 then c + 0x1_0000_0000_0000_0000 else c
  }

  function UnsignedString(s: seq<Cell>): (u: seq<int>)
    ensures |u| == |s| && forall i | 0 <= i < |s| :: u[i] == Unsigned(s[i])
  {
    seq(|s|, i requires 0 <= i < |s| => Unsigned(s[i]))
  }

  /** The letters of `needle` before its terminator. */
  function Letters(needle: seq<Cell>): (w: seq<Cell>)
    requires 0 < |needle|
    ensures |w| == |needle| - 1
  {
    needle[..|needle| - 1]
  }

  /** Memory is only read up to the terminator, wherever the search starts. */
  method Strchr(s: seq<Cell>, from: nat, c: Cell)
    returns (r: Option<nat>, ghost cost: nat)
    requires Terminated(s) && from < |s| && c != 0
    ensures cost <= |s|
    ensures r.Some? ==> from <= r.value < |s| - 1 && s[r.value] == c && c !in s[from..r.value]
    ensures r.None? ==> c !in s[from..]
  {
    var i := from;
    cost := 0;
    while s[i] != 0
      invariant from <= i < |s| && c !in s[from..i] && cost == i - from
      decreases |s| - i
    {
      cost := cost + 1;
      if s[i] == c { return Some(i), cost; }
      i := i + 1;
    }
    return None, cost;
  }

  lemma UnsignedOccurs(h: seq<Cell>, needle: seq<Cell>, j: nat, q: nat)
    requires q < |h|
    ensures Occurs(UnsignedString(h[q..]), UnsignedString(needle), j) <==> Occurs(h, needle, q + j)
  {
    var hu, w := UnsignedString(h[q..]), UnsignedString(needle);
    if Occurs(hu, w, j) {
      forall a | q + j <= a < q + j + |needle|
        ensures h[a] == needle[a - (q + j)]
      {
        assert hu[a - q] == w[a - q - j];
      }
    }
    if Occurs(h, needle, q + j) {
      forall a | j <= a < j + |w|
        ensures hu[a] == w[a - j]
      {
        assert h[a + q] == needle[a + q - (q + j)];
      }
    }
  }

  /** Until the first letter is found no occurrence can start. */
  lemma FirstLetterOnly(h: seq<Cell>, w: seq<Cell>, q: Option<nat>)
    requires Terminated(h) && 1 < |h| && 0 < |w| && !Occurs(h, w, 0)
    requires q.Some? ==> 1 <= q.value < |h| - 1 && h[q.value] == w[0] && w[0] !in h[1..q.value]
    requires q.None? ==> w[0] !in h[1..]
    ensures q.Some? ==> NoneBefore(h, w, q.value) && (|w| == 1 ==> Occurs(h, w, q.value))
    ensures q.None? ==> IsFirstOccurrence(h, w, None)
  {
    var end := if q.Some? then q.value else |h|;
    forall i: nat | i < end
      ensures !Occurs(h, w, i)
    {
      if 0 < i {
        assert h[i] == h[1..end][i - 1];
        assert h[i] != w[i - i];
      }
    }
  }

  lemma FirstInTail(h: seq<Cell>, w: seq<Cell>, q: nat, t: Option<nat>)
    requires Terminated(h) && q < |h| && NoneBefore(h, w, q)
    requires IsFirstOccurrence(UnsignedString(h[q..]), UnsignedString(w), t)
    ensures IsFirstOccurrence(h, w, if t.Some? then Some(q + t.value) else None)
  {
    var hu, wu := UnsignedString(h[q..]), UnsignedString(w);
    forall i: nat | q <= i
      ensures Occurs(h, w, i) <==> Occurs(hu, wu, i - q)
    {
      UnsignedOccurs(h, w, i - q, q);
    }
    forall i: nat | t.Some? ==> i < q + t.value
      ensures !Occurs(h, w, i)
    {
      if q <= i { assert !Occurs(hu, wu, i - q); } else { assert !Occurs(h, w, i); }
    }
    if t.Some? { UnsignedOccurs(h, w, t.value, q); }
  }

  /** Walks both strings together until one ends. The needle's length is known if it ends
    * first, and then ok says whether it is a prefix of the haystack. */
  method ScanPrefix(haystack: seq<Cell>, needle: seq<Cell>)
    returns (n: nat, ok: bool, ghost cost: nat)
    requires Terminated(haystack) && Terminated(needle)
    ensures cost <= |needle|
    ensures n < |needle| && (needle[n] == 0 <==> n == |needle| - 1)
    ensures needle[n] == 0 ==> n < |haystack| && (ok <==> Occurs(haystack, Letters(needle), 0))
    ensures needle[n] != 0 ==> |haystack| < |needle|
  {
    n, ok, cost := 0, true, 0;
    while haystack[n] != 0 && needle[n] != 0
      invariant n < |haystack| && n < |needle| && cost == n
      invariant ok <==> forall a | 0 <= a < n :: haystack[a] == needle[a]
      decreases |needle| - n
    {
      cost := cost + 1;
      ok := ok && haystack[n] == needle[n];
      n := n + 1;
    }
    var w := Letters(needle);
    assert forall a | 0 <= a < n :: haystack[a] == needle[a] <==> haystack[a] == w[a - 0];
  }

  /** The first position at which the letters of `needle` stand in `haystack`, with a linear
    * number of comparisons. */
  method FungeStrstr(haystack: seq<Cell>, needle: seq<Cell>) returns (r: Option<nat>, ghost cost: nat)
    requires Terminated(haystack) && Terminated(needle)
    ensures IsFirstOccurrence(haystack, Letters(needle), r)
    ensures cost <= 4 * |haystack| + 6 * |needle|
  {
    var n, ok;
    n, ok, cost := ScanPrefix(haystack, needle);
    if needle[n] != 0 {
      return None, cost;
    }
    if ok {
      return Some(0), cost;
    }
    ghost var more;
    r, more := SearchFromFirstLetter(haystack, Letters(needle));
    cost := cost + more;
  }

  /** The part of `funge_strstr` behind the prefix check: skip to the needle's first letter,
    * then hand the rest of the haystack to the Two-Way search. */
  method SearchFromFirstLetter(h: seq<Cell>, w: seq<Cell>) returns (r: Option<nat>, ghost cost: nat)
    requires Terminated(h) && 0 < |w| < |h| && 0 !in w && !Occurs(h, w, 0)
    ensures IsFirstOccurrence(h, w, r)
    ensures cost <= 4 * |h| + 5 * |w|
  {
    hide IsFirstOccurrence, Occurs, NoneBefore;
    var n := |w|;
    var q;
    q, cost := Strchr(h, 1, w[0]);
    FirstLetterOnly(h, w, q);
    if q.None? || n == 1 {
      FirstLetterIsAll(h, w, q);
      return q, cost;
    }
    var known := if n < q.value then 1 else n - q.value;
    UnsignedLetters(h, w, q.value);
    var t, more := TwoWayShortNeedle(UnsignedString(h[q.value..]), known, UnsignedString(w));
    FirstInTail(h, w, q.value, t);
    cost := cost + more;
    return if t.Some? then Some(q.value + t.value) else None, cost;
  }

  lemma FirstLetterIsAll(h: seq<Cell>, w: seq<Cell>, q: Option<nat>)
    requires 0 < |h| && (q.Some? ==> NoneBefore(h, w, q.value) && Occurs(h, w, q.value))
    requires q.None? ==> IsFirstOccurrence(h, w, None)
    ensures IsFirstOccurrence(h, w, q)
  {
  }

  /** The casts of the rest of the haystack and of the needle are strings of letters. */
  lemma UnsignedLetters(h: seq<Cell>, w: seq<Cell>, q: nat)
    requires Terminated(h) && q < |h| && 0 !in w
    ensures Terminated(UnsignedString(h[q..])) && 0 !in UnsignedString(w)
  {
  }
}
