/** Combinatorics of words: periods, the two lexicographic orders on the suffixes
  * of a word, and the critical factorization theorem behind the Two-Way search.
  *
  * A suffix of `x` is named by its start index. There are two orders on letters, the
  * natural one and its inverse; both put a proper prefix of a word before the word. */
module Words {

  type Word = seq<int>

  datatype Order = Natural | Inverse {
    predicate Lt(a: int, b: int) {
      if Natural? then a < b else b < a
    }

    function Flip(): Order {
      if Natural? then Inverse else Natural
    }
  }

  /** x[i..i+m) and x[j..j+m) are the same word. */
  predicate Agree(x: Word, i: nat, j: nat, m: nat)
    requires i + m <= |x| && j + m <= |x|
  {
    forall a | i <= a < i + m :: x[a] == x[a - i + j]
  }

  /** Suffix i is strictly before suffix j, decided at offset m. */
  predicate BeforeAt(ord: Order, x: Word, i: nat, j: nat, m: nat) {
    && i + m <= |x| && j + m < |x|
    && Agree(x, i, j, m)
    && (i + m == |x| || ord.Lt(x[i + m], x[j + m]))
  }

  ghost predicate Before(ord: Order, x: Word, i: nat, j: nat) {
    exists m: nat :: BeforeAt(ord, x, i, j, m)
  }

  ghost predicate IsMaxSuffix(ord: Order, x: Word, s: nat) {
    s < |x| && forall i: nat | i < |x| && i != s :: Before(ord, x, i, s)
  }

  /** p is a period of the suffix of x that starts at s. */
  predicate IsPeriodFrom(x: Word, s: nat, p: nat) {
    && 1 <= p && s + p <= |x|
    && forall a | s <= a < |x| - p :: x[a] == x[a + p]
  }

  predicate IsPeriod(x: Word, p: nat) {
    IsPeriodFrom(x, 0, p)
  }

  ghost predicate IsLeastPeriodFrom(x: Word, s: nat, p: nat) {
    IsPeriodFrom(x, s, p) && forall q: nat | q < p :: !IsPeriodFrom(x, s, q)
  }

  /** A word of length d sits on both sides of the cut at s, as far as x reaches. */
  predicate IsLocalRepetition(x: Word, s: nat, d: nat)
    requires s <= |x|
  {
    1 <= d && forall a | 0 <= a && s - d <= a < s && a + d < |x| :: x[a] == x[a + d]
  }

  lemma BeforeTransitive(ord: Order, x: Word, i: nat, j: nat, k: nat)
    requires Before(ord, x, i, j) && Before(ord, x, j, k)
    ensures Before(ord, x, i, k)
  {
    var m: nat :| BeforeAt(ord, x, i, j, m);
    var n: nat :| BeforeAt(ord, x, j, k, n);
    var l := if m < n then m else n;
    forall a | i <= a < i + l
      ensures x[a] == x[a - i + k]
    {
      assert x[a] == x[a - i + j];
      assert x[a - i + j] == x[a - i + j - j + k];
    }
    assert m < n ==> x[j + m] == x[j + m - j + k];
    assert n < m ==> x[i + n] == x[i + n - i + j];
    assert BeforeAt(ord, x, i, k, l);
  }

  /** Before both orders at once, a suffix can only be a proper prefix of the other. */
  lemma BeforeBothOrders(x: Word, i: nat, j: nat)
    requires Before(Natural, x, i, j) && Before(Inverse, x, i, j)
    ensures j < i <= |x| && Agree(x, i, j, |x| - i)
  {
    var m: nat :| BeforeAt(Natural, x, i, j, m);
    var n: nat :| BeforeAt(Inverse, x, i, j, n);
    assert m == n;
  }

  /** s starts the maximal suffix of one order, and the other order's maximal suffix
    * starts no later: the factorization the Two-Way algorithm chooses. */
  ghost predicate IsTwoWaySplit(x: Word, s: nat) {
    exists ord: Order, s': nat ::
      s' <= s && IsMaxSuffix(ord, x, s) && IsMaxSuffix(ord.Flip(), x, s')
  }

  lemma BeforeAsymmetric(ord: Order, x: Word, i: nat, j: nat)
    requires Before(ord, x, i, j)
    ensures !Before(ord, x, j, i)
  {
    if Before(ord, x, j, i) {
      BeforeTransitive(ord, x, i, j, i);
    }
  }

  /** A repetition no longer than the left half is impossible. */
  lemma RepetitionLongerThanLeft(ord: Order, x: Word, s: nat, d: nat)
    requires IsMaxSuffix(ord, x, s) && IsLocalRepetition(x, s, d)
    ensures s < d
  {
    if d <= s {
      var i := s - d;
      assert forall a | i <= a < s && a + d < |x| :: x[a] == x[a + d];
      assert Before(ord, x, i, s);
      var m: nat :| BeforeAt(ord, x, i, s, m);
      // Up to offset d suffix i reads the repeated word, so it cannot fall below v there.
      assert d <= m;
      // Hence v precedes v[d..] at offset m - d, although v is maximal.
      forall a | s <= a < s + (m - d)
        ensures x[a] == x[a - s + (s + d)]
      {
        assert x[a] == x[a - i + s];
      }
      assert BeforeAt(ord, x, s, s + d, m - d);
      BeforeAsymmetric(ord, x, s, s + d);
    }
  }

  /** The critical factorization theorem, in its sharp form: at a Two-Way split every
    * local repetition is already a period of the whole word. */
  lemma RepetitionIsPeriod(x: Word, s: nat, d: nat)
    requires IsTwoWaySplit(x, s) && IsLocalRepetition(x, s, d) && d <= |x|
    ensures s < d && IsPeriod(x, d)
  {
    var ord: Order, s': nat :| s' <= s && IsMaxSuffix(ord, x, s) && IsMaxSuffix(ord.Flip(), x, s');
    RepetitionLongerThanLeft(ord, x, s, d);
    if s + d < |x| {
      RepetitionInsideRight(ord, x, s, s', d);
    }
  }

  lemma RepetitionInsideRight(ord: Order, x: Word, s: nat, s': nat, d: nat)
    requires s' <= s < d && s + d < |x|
    requires IsMaxSuffix(ord, x, s) && IsMaxSuffix(ord.Flip(), x, s')
    requires IsLocalRepetition(x, s, d)
    ensures IsPeriod(x, d)
  {
    BeforeAtCut(ord.Flip(), x, s, s', d);
    assert Before(ord, x, s + d, s);
    BeforeBothOrders(x, s + d, s);
    forall a | 0 <= a < |x| - d
      ensures x[a] == x[a + d]
    {
      if a >= s { assert x[a + d] == x[a + d - (s + d) + s]; }
    }
  }

  /** What suffix s' + d loses against s', it loses behind their common word x[s'..s). */
  lemma BeforeAtCut(ord: Order, x: Word, s: nat, s': nat, d: nat)
    requires s' <= s < d && s + d < |x|
    requires IsMaxSuffix(ord, x, s') && IsLocalRepetition(x, s, d)
    ensures Before(ord, x, s + d, s)
  {
    assert Before(ord, x, s' + d, s');
    var m: nat :| BeforeAt(ord, x, s' + d, s', m);
    assert forall a | s' <= a < s :: x[a] == x[a + d];
    forall a | s + d <= a < s + d + (m - (s - s'))
      ensures x[a] == x[a - (s + d) + s]
    {
      assert x[a] == x[a - (s' + d) + s'];
    }
    assert BeforeAt(ord, x, s + d, s, m - (s - s'));
  }

  lemma PeriodIsRepetition(x: Word, s: nat, r: nat)
    requires s <= |x|
    ensures IsPeriod(x, r) ==> IsLocalRepetition(x, s, r)
  {
  }

  /** Every period of the word is a local repetition everywhere, so it exceeds the left half. */
  lemma PeriodExceedsLeft(x: Word, s: nat, r: nat)
    requires IsTwoWaySplit(x, s) && IsPeriod(x, r)
    ensures s < r
  {
    PeriodIsRepetition(x, s, r);
    RepetitionIsPeriod(x, s, r);
  }

  /** A period of x that fits into the right half forces the right half's least
    * period on all of x: take that period off until nothing else is left. */
  lemma {:induction false} ShortPeriodSpreads(x: Word, s: nat, p: nat, r: nat)
    requires IsTwoWaySplit(x, s) && IsLeastPeriodFrom(x, s, p)
    requires IsPeriod(x, r) && s + r <= |x|
    ensures IsPeriod(x, p)
    decreases r
  {
    assert IsPeriodFrom(x, s, r);
    if p < r {
      var d := r - p;
      forall a | 0 <= a && s - d <= a < s && a + d < |x|
        ensures x[a] == x[a + d]
      {
        assert x[a] == x[a + r];
        assert x[a + d] == x[a + d + p];
      }
      assert IsLocalRepetition(x, s, d);
      RepetitionIsPeriod(x, s, d);
      ShortPeriodSpreads(x, s, p, d);
    }
  }

  /** The test made before searching: comparing the left half with the letters one
    * right-half period further on decides whether that period is the period of x. */
  lemma PeriodicTest(x: Word, s: nat, p: nat)
    requires IsTwoWaySplit(x, s) && IsLeastPeriodFrom(x, s, p)
    ensures IsPeriod(x, p) <==> forall a | 0 <= a < s :: x[a] == x[a + p]
    ensures !IsPeriod(x, p) ==> forall r: nat | IsPeriod(x, r) :: s < r && |x| - s < r
  {
    if !IsPeriod(x, p) {
      forall r: nat | IsPeriod(x, r)
        ensures s < r && |x| - s < r
      {
        PeriodExceedsLeft(x, s, r);
        if s + r <= |x| { ShortPeriodSpreads(x, s, p, r); }
      }
    }
  }

  /** The length of the shortest repetition around the cut at s. */
  ghost function LocalPeriod(x: Word, s: nat): (d: nat)
    requires s <= |x| && 0 < |x|
    ensures IsLocalRepetition(x, s, d)
    ensures forall e: nat | e < d :: !IsLocalRepetition(x, s, e)
  {
    assert IsLocalRepetition(x, s, |x|);
    LeastRepetition(x, s, |x|)
  }

  ghost function LeastRepetition(x: Word, s: nat, bound: nat): (d: nat)
    requires s <= |x| && IsLocalRepetition(x, s, bound)
    ensures IsLocalRepetition(x, s, d)
    ensures forall e: nat | e < d :: !IsLocalRepetition(x, s, e)
  {
    if e: nat :| e < bound && IsLocalRepetition(x, s, e) then LeastRepetition(x, s, e) else bound
  }

  /** The local period at a Two-Way split is the global period of the word. */
  lemma CriticalFactorization(x: Word, s: nat)
    requires IsTwoWaySplit(x, s)
    ensures s < LocalPeriod(x, s)
    ensures IsLeastPeriodFrom(x, 0, LocalPeriod(x, s))
  {
    var d := LocalPeriod(x, s);
    assert IsLocalRepetition(x, s, |x|);
    RepetitionIsPeriod(x, s, d);
    forall q: nat | q < d
      ensures !IsPeriodFrom(x, 0, q)
    {
      PeriodIsRepetition(x, s, q);
    }
  }
}
