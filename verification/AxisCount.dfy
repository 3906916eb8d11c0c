/** The use counts of one axis of Funge-Space (columns or rows): an array for the
  * coordinates of the static area, a table for all others. */
module AxisCounts {

  function Min(a: int, b: int): int { if b < a then b else a }
  function Max(a: int, b: int): int { if a < b then b else a }

  /** The count table: its entries, and its keys in the order its iterator visits them. */
  datatype CountTable = CountTable(keys: seq<int>, counts: map<int, int>) {
    ghost predicate Valid() {
      forall k :: k in keys <==> k in counts
    }

    function Set(k: int, n: int): (t: CountTable)
      requires Valid()
      ensures t.Valid()
    {
      CountTable(if k in counts then keys else keys + [k], counts[k := n])
    }

    function Remove(k: int): (t: CountTable)
      requires Valid()
      ensures t.Valid()
    {
      CountTable(Without(keys, k), counts - {k})
    }

    /** FSPACE_COUNT_OP_OR_NEW: count a key up or down, dropping it at zero; a key that is not
      * there begins at 1 or, when counted down, at 0. */
    function CountOrNew(k: int, isset: bool): (t: CountTable)
      requires Valid()
      ensures t.Valid()
      ensures forall j | j != k :: (j in t.counts <==> j in counts) && (j in counts ==> t.counts[j] == counts[j])
      ensures k in t.counts <==> !(k in counts && counts[k] == if isset then -1 else 1)
      ensures k in t.counts ==>
        t.counts[k] == if k in counts then counts[k] + (if isset then 1 else -1) else if isset then 1 else 0
    {
      if k in counts then
        var n := if isset then counts[k] + 1 else counts[k] - 1;
        if n == 0 then Remove(k) else Set(k, n)
      else
        Set(k, if isset then 1 else 0)
    }
  }

  function Without(s: seq<int>, k: int): (r: seq<int>)
    ensures forall j :: j in r <==> j in s && j != k
  {
    if s == [] then [] else (if s[0] == k then [] else [s[0]]) + Without(s[1..], k)
  }

  class AxisCount {
    const offset: nat
    const dense: array<int>
    var sparse: CountTable

    constructor (length: nat, offset: nat)
      ensures Valid() && fresh(dense) && dense.Length == length && this.offset == offset
      ensures forall k :: At(k) == 0
      ensures sparse.counts == map[]
    {
      this.offset := offset;
      dense := new int[length](i => 0);
      sparse := CountTable([], map[]);
    }

    predicate IsDense(k: int) {
      0 <= k + offset < dense.Length
    }

    ghost predicate Valid()
      reads this
    {
      sparse.Valid() && forall k | k in sparse.counts :: !IsDense(k) && sparse.counts[k] != 0
    }

    /** get_count_col and get_count_row */
    function At(k: int): int
      reads this, dense
    {
      if IsDense(k) then dense[k + offset] else if k in sparse.counts then sparse.counts[k] else 0
    }

    /** One cell more or less in line k. */
    method Count(isset: bool, k: int)
      requires Valid() && (!isset ==> At(k) != 0)
      modifies this, dense
      ensures Valid()
      ensures At(k) == old(At(k)) + if isset then 1 else -1
      ensures forall j | j != k :: At(j) == old(At(j))
    {
      if IsDense(k) {
        dense[k + offset] := dense[k + offset] + if isset then 1 else -1;
      } else {
        sparse := sparse.CountOrNew(k, isset);
      }
    }

    ghost predicate Within(lo: int, hi: int)
      reads this, dense
    {
      forall k | At(k) != 0 :: lo <= k <= hi
    }

    /** [lo, hi] is the hull of the lines in use. */
    ghost predicate IsHull(lo: int, hi: int)
      reads this, dense
    {
      At(lo) != 0 && At(hi) != 0 && Within(lo, hi)
    }

    ghost predicate Empty()
      reads this, dense
    {
      forall k :: At(k) == 0
    }

    /** Lines on both sides of 0, or 0 itself, are in use. */
    ghost predicate Straddles()
      reads this, dense
    {
      (exists k :: k <= 0 && At(k) != 0) && (exists k :: k >= 0 && At(k) != 0)
    }

    /** The minimising scan for a moderate extent: inwards from both ends. */
    method ScanInwards(min0: int, max0: int) returns (min: int, max: int)
      requires Within(min0, max0) && min0 <= max0
      ensures !Empty() ==> IsHull(min, max)
      ensures Empty() ==> min == max == max0
    {
      min, max := min0, max0;
      while min < max
        invariant min0 <= min <= max && forall k | min0 <= k < min :: At(k) == 0
      {
        if At(min) != 0 { break; }
        min := min + 1;
      }
      while max > min
        invariant min <= max <= max0 && forall k | max < k <= max0 :: At(k) == 0
        invariant At(min) == 0 ==> max == max0
      {
        if At(max) != 0 { break; }
        max := max - 1;
      }
      if !Empty() {
        ghost var k :| At(k) != 0;
        assert min <= k <= max;
      }
    }

    /** largemodel_minimise: over the keys of the table, then over the dense array. With
      * an empty table the scan starts from 0 and leaves 0 in the result. */
    method ScanSparsely() returns (min: int, max: int)
      requires Valid()
      ensures sparse.keys != [] ==> IsHull(min, max)
      ensures sparse.keys == [] ==>
        && Within(min, max) && min <= 0 <= max
        && (min == 0 || At(min) != 0) && (max == 0 || At(max) != 0)
      ensures IsHull(min, max) <==> sparse.keys != [] || Straddles()
    {
      min, max := 0, 0;
      var isFirst := true;
      var n := 0;
      while n < |sparse.keys|
        invariant 0 <= n <= |sparse.keys| && (isFirst <==> n == 0)
        invariant isFirst ==> min == max == 0
        invariant !isFirst ==> min in sparse.keys && max in sparse.keys && min <= max
        invariant forall i | 0 <= i < n :: min <= sparse.keys[i] <= max
      {
        var value := sparse.keys[n];
        n := n + 1;
        if isFirst {
          min, max := value, value;
          isFirst := false;
        } else {
          if max < value { max := value; }
          if min > value { min := value; }
        }
      }
      var i := 0;
      while i < dense.Length
        invariant 0 <= i <= dense.Length
        invariant sparse.keys == [] ==> min <= 0 <= max
        invariant (sparse.keys == [] && min == 0) || At(min) != 0
        invariant (sparse.keys == [] && max == 0) || At(max) != 0
        invariant min <= max
        invariant forall k | k in sparse.keys :: min <= k <= max
        invariant forall j | 0 <= j < i && dense[j] != 0 :: min <= j - offset <= max
      {
        if dense[i] != 0 {
          var value := i - offset;
          if max < value { max := value; }
          if min > value { min := value; }
        }
        i := i + 1;
      }
      forall k | At(k) != 0
        ensures min <= k <= max
      {
        if IsDense(k) { assert dense[k + offset] != 0; }
      }
    }
  }
}
