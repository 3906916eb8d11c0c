/** The Two-Way string search over cells: the two maximal-suffix scans, the choice of
  * the critical factorization and the search loops, as `funge_strstr` uses them. */
module TwoWay {
  import opened Words

  datatype Option<+T> = None | Some(value: T)

  /** What one maximal-suffix scan knows after reading x[..n): the candidate x[s..n) is a
    * run of the word x[s..s+p), every proper suffix of which falls strictly below it. */
  ghost predicate Scanned(ord: Order, x: Word, s: nat, n: nat, p: nat) {
    && 1 <= p && s + p <= n <= |x|
    && (forall a | s <= a < n - p :: x[a] == x[a + p])
    && (forall r: nat | 0 < r < p :: Drops(ord, x, s, p, r))
  }

  /** Inside x[s..s+p), its suffix at distance r falls below the word at offset m. */
  predicate DropAt(ord: Order, x: Word, s: nat, p: nat, r: nat, m: nat) {
    && r + m < p && s + p <= |x|
    && Agree(x, s + r, s, m)
    && ord.Lt(x[s + r + m], x[s + m])
  }

  ghost predicate Drops(ord: Order, x: Word, s: nat, p: nat, r: nat) {
    exists m: nat :: DropAt(ord, x, s, p, r, m)
  }

  /** Suffix i is before some suffix that starts at s or later. */
  ghost predicate BeatenFrom(ord: Order, x: Word, s: nat, i: nat) {
    exists i': nat :: s <= i' < |x| && Before(ord, x, i, i')
  }

  ghost predicate Beaten(ord: Order, x: Word, s: nat) {
    forall i: nat | i < s :: BeatenFrom(ord, x, s, i)
  }

  /** A smaller next letter turns everything read into one word with the drop property. */
  lemma SmallerLetter(ord: Order, x: Word, s: nat, n: nat, p: nat)
    requires Scanned(ord, x, s, n, p) && n < |x| && ord.Lt(x[n], x[n - p])
    ensures Scanned(ord, x, s, n + 1, n + 1 - s)
  {
    var q := n + 1 - s;
    forall r: nat | 0 < r < q
      ensures Drops(ord, x, s, q, r)
    {
      SmallerLetterDrop(ord, x, s, n, p, r);
    }
  }

  lemma {:induction false} SmallerLetterDrop(ord: Order, x: Word, s: nat, n: nat, p: nat, r: nat)
    requires Scanned(ord, x, s, n, p) && n < |x| && ord.Lt(x[n], x[n - p])
    requires 0 < r < n + 1 - s
    ensures Drops(ord, x, s, n + 1 - s, r)
    decreases r
  {
    if r < p {
      assert Drops(ord, x, s, p, r);
      var m: nat :| DropAt(ord, x, s, p, r, m);
      assert DropAt(ord, x, s, n + 1 - s, r, m);
    } else if r == p {
      assert DropAt(ord, x, s, n + 1 - s, r, n - s - p);
    } else {
      SmallerLetterDrop(ord, x, s, n, p, r - p);
      var m: nat :| DropAt(ord, x, s, n + 1 - s, r - p, m);
      DropRepeats(ord, x, s, n, p, r, m);
    }
  }

  /** A drop one period earlier recurs here, or the smaller letter comes first. */
  lemma DropRepeats(ord: Order, x: Word, s: nat, n: nat, p: nat, r: nat, m1: nat)
    requires Scanned(ord, x, s, n, p) && n < |x| && ord.Lt(x[n], x[n - p])
    requires p < r < n + 1 - s && DropAt(ord, x, s, n + 1 - s, r - p, m1)
    ensures Drops(ord, x, s, n + 1 - s, r)
  {
    var m := if s + r + m1 < n then m1 else n - s - r;
    forall a | s + r <= a < s + r + m
      ensures x[a] == x[a - (s + r) + s]
    {
      assert x[a - p] == x[a - p + p];
      assert x[a - p] == x[a - p - (s + (r - p)) + s];
    }
    var b := s + r + m - p;
    assert m < m1 ==> x[b] == x[b - (s + (r - p)) + s];
    assert b + p < n ==> x[b] == x[b + p];
    assert DropAt(ord, x, s, n + 1 - s, r, m);
  }

  /** At the end of the word the candidate is the maximal suffix among its own suffixes. */
  lemma {:induction false} ScannedToEnd(ord: Order, x: Word, s: nat, p: nat, i: nat)
    requires Scanned(ord, x, s, |x|, p) && s < i < |x|
    ensures Before(ord, x, i, s)
    decreases i
  {
    if i < s + p {
      assert Drops(ord, x, s, p, i - s);
      var m: nat :| DropAt(ord, x, s, p, i - s, m);
      assert BeforeAt(ord, x, i, s, m);
    } else if i == s + p {
      assert BeforeAt(ord, x, i, s, |x| - i);
    } else {
      ScannedToEnd(ord, x, s, p, i - p);
      var m1: nat :| BeforeAt(ord, x, i - p, s, m1);
      var m := if i + m1 < |x| then m1 else |x| - i;
      forall a | i <= a < i + m
        ensures x[a] == x[a - i + s]
      {
        assert x[a - p] == x[a - p + p];
        assert x[a - p] == x[a - p - (i - p) + s];
      }
      assert i + m < |x| ==> x[i + m - p] == x[i + m - p + p];
      assert BeforeAt(ord, x, i, s, m);
    }
  }

  lemma ScannedLeastPeriod(ord: Order, x: Word, s: nat, p: nat)
    requires Scanned(ord, x, s, |x|, p)
    ensures IsLeastPeriodFrom(x, s, p)
  {
    forall q: nat | q < p
      ensures !IsPeriodFrom(x, s, q)
    {
      if 0 < q {
        assert Drops(ord, x, s, p, q);
        var m: nat :| DropAt(ord, x, s, p, q, m);
        assert x[s + m] != x[s + m + q];
      }
    }
  }

  /** A larger next letter: the candidate restarts at c, behind its last full copy, and
    * every suffix given up that way is beaten from c on. */
  lemma {:induction false} LargerLetter(ord: Order, x: Word, s: nat, n: nat, p: nat, c: nat, i: nat)
    requires Scanned(ord, x, s, n, p) && n < |x| && ord.Lt(x[n - p], x[n])
    requires s + p <= c <= n < c + p && CopyAt(x, s, c - p, n - (c - p))
    requires s <= i < c
    ensures BeatenFrom(ord, x, c, i)
    decreases c - i
  {
    hide Before, Scanned, BeatenFrom, CopyAt;
    if i <= n - p {
      BeforeNextCopy(ord, x, s, n, p, i);
      if i + p < c {
        LargerLetter(ord, x, s, n, p, c, i + p);
      }
      BeatenOnward(ord, x, c, i, i + p);
    } else {
      LastCopyBelowCandidate(ord, x, s, n, p, c, i);
      RestartBeatsCandidate(ord, x, s, n, p, c);
      BeforeTransitive(ord, x, i, s, c);
      BeatenOnward(ord, x, c, i, c);
    }
  }

  lemma BeatenOnward(ord: Order, x: Word, c: nat, i: nat, i': nat)
    requires Before(ord, x, i, i') && (BeatenFrom(ord, x, c, i') || c <= i' < |x|)
    ensures BeatenFrom(ord, x, c, i)
  {
    hide Before;
    if BeatenFrom(ord, x, c, i') {
      var j: nat :| c <= j < |x| && Before(ord, x, i', j);
      BeforeTransitive(ord, x, i, i', j);
    }
  }

  lemma BeforeNextCopy(ord: Order, x: Word, s: nat, n: nat, p: nat, i: nat)
    requires Scanned(ord, x, s, n, p) && n < |x| && ord.Lt(x[n - p], x[n])
    requires s <= i <= n - p
    ensures Before(ord, x, i, i + p)
  {
    assert BeforeAt(ord, x, i, i + p, n - p - i);
  }

  lemma LastCopyBelowCandidate(ord: Order, x: Word, s: nat, n: nat, p: nat, c: nat, i: nat)
    requires Scanned(ord, x, s, n, p)
    requires s + p <= c <= n < c + p && CopyAt(x, s, c - p, n - (c - p))
    requires c - p < i < c
    ensures Before(ord, x, i, s)
  {
    var t := c - p;
    var r := i - t;
    assert Drops(ord, x, s, p, r);
    var m: nat :| DropAt(ord, x, s, p, r, m);
    forall a | i <= a < i + m
      ensures x[a] == x[a - i + s]
    {
      assert x[a] == x[s + (a - t)];
    }
    assert x[i + m] == x[s + (i + m - t)];
    assert BeforeAt(ord, x, i, s, m);
  }

  /** x[s..s+m) and x[t..t+m) are the same word, read from the second copy. */
  predicate CopyAt(x: Word, s: nat, t: nat, m: nat)
    requires s <= t && t + m <= |x|
  {
    forall a | t <= a < t + m :: x[a] == x[s + (a - t)]
  }

  lemma RestartBeatsCandidate(ord: Order, x: Word, s: nat, n: nat, p: nat, c: nat)
    requires Scanned(ord, x, s, n, p) && n < |x| && ord.Lt(x[n - p], x[n])
    requires s + p <= c <= n < c + p && CopyAt(x, s, c - p, n - (c - p))
    ensures Before(ord, x, s, c)
  {
    var m := n - c;
    forall a | s <= a < s + m
      ensures x[a] == x[a - s + c]
    {
      var b := a - s + (c - p);
      assert x[b] == x[s + (b - (c - p))];
      assert x[b] == x[b + p];
    }
    assert x[n - p] == x[s + m];
    assert BeforeAt(ord, x, s, c, m);
  }

  lemma BeatenIsMax(ord: Order, x: Word, s: nat, p: nat)
    requires Scanned(ord, x, s, |x|, p) && Beaten(ord, x, s)
    ensures IsMaxSuffix(ord, x, s)
  {
    forall i: nat | i < |x| && i != s
      ensures Before(ord, x, i, s)
    {
      if s < i {
        ScannedToEnd(ord, x, s, p, i);
      } else {
        assert BeatenFrom(ord, x, s, i);
        var i': nat :| s <= i' < |x| && Before(ord, x, i, i');
        if s < i' {
          ScannedToEnd(ord, x, s, p, i');
          BeforeTransitive(ord, x, i, i', s);
        }
      }
    }
  }

  /** The loop invariant of a scan: candidate start s, the last letter j of its last full
    * copy, offset k into the next copy, least period p. */
  ghost predicate ScanState(ord: Order, x: Word, s: nat, j: nat, k: nat, p: nat) {
    && 1 <= k <= p && s + p <= j + 1 && j + k <= |x|
    && Scanned(ord, x, s, j + k, p)
    && CopyAt(x, s, j + 1 - p, p + k - 1)
    && Beaten(ord, x, s)
  }

  lemma ScanStart(ord: Order, x: Word)
    requires 0 < |x|
    ensures ScanState(ord, x, 0, 0, 1, 1)
  {
  }

  lemma ScanEnd(ord: Order, x: Word, s: nat, j: nat, k: nat, p: nat)
    requires ScanState(ord, x, s, j, k, p) && j + k == |x|
    ensures IsMaxSuffix(ord, x, s) && IsLeastPeriodFrom(x, s, p)
  {
    ScannedLeastPeriod(ord, x, s, p);
    BeatenIsMax(ord, x, s, p);
  }

  lemma ScanSmaller(ord: Order, x: Word, s: nat, j: nat, k: nat, p: nat)
    requires ScanState(ord, x, s, j, k, p) && j + k < |x| && ord.Lt(x[j + k], x[s + k - 1])
    ensures ScanState(ord, x, s, j + k, 1, j + k + 1 - s)
  {
    ComparedLetter(ord, x, s, j, k, p);
    SmallerLetter(ord, x, s, j + k, p);
  }

  lemma ScanEqual(ord: Order, x: Word, s: nat, j: nat, k: nat, p: nat)
    requires ScanState(ord, x, s, j, k, p) && j + k < |x| && x[j + k] == x[s + k - 1]
    ensures k < p ==> ScanState(ord, x, s, j, k + 1, p)
    ensures k == p ==> ScanState(ord, x, s, j + p, 1, p)
  {
    ComparedLetter(ord, x, s, j, k, p);
    var n := j + k;
    assert Scanned(ord, x, s, n + 1, p);
    var t := j + 1 - p;
    assert x[n] == x[s + (n - t)] by {
      assert x[s + (n - t - p)] == x[s + (n - t - p) + p];
    }
    if k == p {
      forall a | j + 1 <= a < j + 1 + p
        ensures x[a] == x[s + (a - (j + 1))]
      {
        assert x[a - p] == x[a - p + p];
        assert x[a - p] == x[s + (a - p - t)];
      }
    }
  }

  lemma ScanLarger(ord: Order, x: Word, s: nat, j: nat, k: nat, p: nat)
    requires ScanState(ord, x, s, j, k, p) && j + k < |x| && ord.Lt(x[s + k - 1], x[j + k])
    ensures ScanState(ord, x, j + 1, j + 1, 1, 1)
  {
    ComparedLetter(ord, x, s, j, k, p);
    RestartAt(ord, x, s, j + k, p, j + 1);
  }

  lemma ComparedLetter(ord: Order, x: Word, s: nat, j: nat, k: nat, p: nat)
    requires ScanState(ord, x, s, j, k, p) && j + k < |x|
    ensures x[j + k - p] == x[s + k - 1]
  {
    assert x[j + k - p] == x[s + (j + k - p - (j + 1 - p))];
  }

  /** One scan of the factorization: the start of the maximal suffix of `needle` under
    * `ord`, and that suffix's least period, in fewer than twice its length comparisons.
    * maxSuffix is -1 where the source holds SIZE_MAX. */
  method MaximalSuffix(needle: Word, ord: Order) returns (s: nat, period: nat, ghost comparisons: nat)
    requires 0 < |needle|
    ensures IsMaxSuffix(ord, needle, s) && IsLeastPeriodFrom(needle, s, period)
    ensures comparisons < 2 * |needle|
  {
    hide ScanState;
    var maxSuffix, j, k, p := -1, 0, 1, 1;
    comparisons := 0;
    ScanStart(ord, needle);
    while j + k < |needle|
      invariant -1 <= maxSuffix && 1 <= k <= p && maxSuffix + p <= j && j + k <= |needle|
      invariant ScanState(ord, needle, maxSuffix + 1, j, k, p)
      invariant comparisons <= maxSuffix + j + k
      decreases 2 * |needle| - (maxSuffix + j + k)
    {
      var a, b := needle[j + k], needle[maxSuffix + k];
      comparisons := comparisons + 1;
      if ord.Lt(a, b) {
        ScanSmaller(ord, needle, maxSuffix + 1, j, k, p);
        j := j + k;
        k := 1;
        p := j - maxSuffix;
      } else if a == b {
        ScanEqual(ord, needle, maxSuffix + 1, j, k, p);
        if k != p {
          k := k + 1;
        } else {
          j := j + p;
          k := 1;
        }
      } else {
        ScanLarger(ord, needle, maxSuffix + 1, j, k, p);
        maxSuffix := j;
        j := j + 1;
        k, p := 1, 1;
      }
    }
    s, period := maxSuffix + 1, p;
    ScanEnd(ord, needle, s, j, k, p);
  }

  lemma RestartAt(ord: Order, x: Word, s: nat, n: nat, p: nat, c: nat)
    requires Scanned(ord, x, s, n, p) && n < |x| && ord.Lt(x[n - p], x[n])
    requires s + p <= c <= n < c + p && CopyAt(x, s, c - p, n - (c - p))
    requires Beaten(ord, x, s)
    ensures Beaten(ord, x, c)
  {
    forall i: nat | i < c
      ensures BeatenFrom(ord, x, c, i)
    {
      if s <= i {
        LargerLetter(ord, x, s, n, p, c, i);
      } else {
        assert BeatenFrom(ord, x, s, i);
        var i': nat :| s <= i' < |x| && Before(ord, x, i, i');
        if i' < c {
          LargerLetter(ord, x, s, n, p, c, i');
          var i'': nat :| c <= i'' < |x| && Before(ord, x, i', i'');
          BeforeTransitive(ord, x, i, i', i'');
        }
      }
    }
  }

  /** The split of the needle and the least period of its right part. The later of the two
    * maximal suffixes is taken, and the inverse order's on a tie. */
  method CriticalFactorization(needle: Word) returns (suffix: nat, period: nat, ghost comparisons: nat)
    requires 0 < |needle|
    ensures suffix < |needle| && IsTwoWaySplit(needle, suffix)
    ensures IsLeastPeriodFrom(needle, suffix, period)
    ensures LocalPeriod(needle, suffix) > suffix
    ensures IsLeastPeriodFrom(needle, 0, LocalPeriod(needle, suffix))
    ensures comparisons < 4 * |needle|
  {
    var maxSuffix, p, c := MaximalSuffix(needle, Natural);
    var maxSuffixRev, pRev, cRev := MaximalSuffix(needle, Inverse);
    comparisons := c + cRev;
    assert Natural.Flip() == Inverse && Inverse.Flip() == Natural;
    if maxSuffixRev < maxSuffix {
      suffix, period := maxSuffix, p;
    } else {
      suffix, period := maxSuffixRev, pRev;
    }
    Words.CriticalFactorization(needle, suffix);
  }

  /** A string in memory: letters other than 0, then the terminator and nothing more. */
  predicate Terminated(h: seq<int>) {
    0 < |h| && h[|h| - 1] == 0 && forall i | 0 <= i < |h| - 1 :: h[i] != 0
  }

  /** The needle occurs at position j, before the terminator. */
  predicate Occurs(h: seq<int>, needle: Word, j: nat)
    requires 0 < |h|
  {
    j + |needle| < |h| && forall a | j <= a < j + |needle| :: h[a] == needle[a - j]
  }

  ghost predicate NoneBefore(h: seq<int>, needle: Word, j: nat)
    requires 0 < |h|
  {
    forall i: nat | i < j :: !Occurs(h, needle, i)
  }

  /** What a search promises: the least position of the needle, or that there is none. */
  ghost predicate IsFirstOccurrence(h: seq<int>, needle: Word, r: Option<nat>)
    requires 0 < |h|
  {
    match r
    case Some(j) => Occurs(h, needle, j) && NoneBefore(h, needle, j)
    case None => forall i: nat :: !Occurs(h, needle, i)
  }

  /** The letters of the needle from lo to hi sit in the window at j. */
  predicate Matched(h: seq<int>, needle: Word, j: nat, lo: nat, hi: nat) {
    hi <= |needle| && j + hi <= |h| && forall a | j + lo <= a < j + hi :: h[a] == needle[a - j]
  }

  /** Whether the first `upto` letters of h lie before its terminator. h[..known) is known
    * to, so only h[known..upto) is read; `known` grows when the answer is yes. */
  method Available(h: seq<int>, known: nat, upto: nat)
    returns (ok: bool, known': nat, ghost cost: nat)
    requires Terminated(h) && known < |h| && known <= upto
    ensures ok <==> upto < |h|
    ensures known' == if ok then upto else known
    ensures cost <= |h| - known && (ok ==> cost == known' - known)
  {
    cost := 0;
    var i := known;
    while i < upto
      invariant known <= i <= upto && i < |h| && cost == i - known
    {
      cost := cost + 1;
      if h[i] == 0 { return false, known, cost; }
      i := i + 1;
    }
    return true, upto, cost;
  }

  /** Letters suffix..m of the needle match at j, and the needle occurs d further on, no
    * further than the match reaches: then d is a period of the needle. */
  lemma OccurrenceInsideMatch(h: seq<int>, needle: Word, suffix: nat, j: nat, m: nat, d: nat)
    requires IsTwoWaySplit(needle, suffix) && suffix <= m <= |needle| && 0 < |h|
    requires Matched(h, needle, j, suffix, m) && Occurs(h, needle, j + d)
    requires 0 < d <= |needle| && (m < |needle| ==> d <= m - suffix)
    ensures IsPeriod(needle, d)
    ensures m < |needle| ==> h[j + m] == needle[m]
  {
    forall a | 0 <= a && suffix - d <= a < suffix && a + d < |needle|
      ensures needle[a] == needle[a + d]
    {
      var b := j + d + a;
      assert h[b] == needle[b - (j + d)] && h[b] == needle[b - j];
    }
    RepetitionIsPeriod(needle, suffix, d);
    if m < |needle| {
      assert h[j + m] == needle[j + m - (j + d)];
      assert needle[m - d] == needle[m - d + d];
    }
  }

  lemma PeriodOfRight(x: Word, s: nat, d: nat)
    requires IsPeriod(x, d) && s + d <= |x|
    ensures IsPeriodFrom(x, s, d)
  {
  }

  lemma PeriodShift(h: seq<int>, needle: Word, suffix: nat, period: nat, j: nat)
    requires IsTwoWaySplit(needle, suffix) && IsLeastPeriodFrom(needle, suffix, period)
    requires IsPeriod(needle, period)
    requires 0 < |h| && Matched(h, needle, j, suffix, |needle|)
    requires NoneBefore(h, needle, j) && !Occurs(h, needle, j)
    ensures suffix < period
    ensures NoneBefore(h, needle, j + period)
    ensures Matched(h, needle, j + period, 0, |needle| - period)
  {
    PeriodExceedsLeft(needle, suffix, period);
    forall i: nat | i < j + period
      ensures !Occurs(h, needle, i)
    {
      if j < i && Occurs(h, needle, i) {
        OccurrenceInsideMatch(h, needle, suffix, j, |needle|, i - j);
        PeriodOfRight(needle, suffix, i - j);
      }
    }
    forall a | j + period <= a < j + |needle|
      ensures h[a] == needle[a - (j + period)]
    {
      assert h[a] == needle[a - j];
      assert needle[a - j - period] == needle[a - j - period + period];
    }
  }

  lemma MismatchShift(h: seq<int>, needle: Word, suffix: nat, j: nat, i: nat)
    requires IsTwoWaySplit(needle, suffix)
    requires suffix <= i < |needle| && j + i < |h|
    requires Matched(h, needle, j, suffix, i) && h[j + i] != needle[i]
    requires NoneBefore(h, needle, j)
    ensures NoneBefore(h, needle, j + (i - suffix) + 1)
  {
    forall k: nat | k < j + (i - suffix) + 1
      ensures !Occurs(h, needle, k)
    {
      if j < k && Occurs(h, needle, k) { OccurrenceInsideMatch(h, needle, suffix, j, i, k - j); }
    }
  }

  /** The search for a needle whose right half's period is its own: after a full match of
    * the right half it moves on by the period and remembers how much already matches. */
  method SearchPeriodic(h: seq<int>, known0: nat, needle: Word, suffix: nat, period: nat)
    returns (r: Option<nat>, ghost cost: nat)
    requires Terminated(h) && known0 < |h| && known0 <= |needle|
    requires 0 < |needle| && suffix < |needle| && IsTwoWaySplit(needle, suffix)
    requires IsLeastPeriodFrom(needle, suffix, period) && IsPeriod(needle, period)
    ensures IsFirstOccurrence(h, needle, r)
    ensures cost <= 3 * |h|
  {
    var memory: nat, j: nat, known: nat := 0, 0, known0;
    ghost var right: nat, left: nat, scanned: nat := 0, 0, 0;
    PeriodExceedsLeft(needle, suffix, period);
    while true
      invariant memory < |needle| && known < |h| && known <= j + |needle|
      invariant Matched(h, needle, j, 0, memory) && NoneBefore(h, needle, j)
      invariant right <= j + Max(suffix, memory) && right <= |h|
      invariant left <= j && left <= |h| && scanned <= known
      decreases |h| - j
    {
      ghost var c;
      var ok;
      ok, known, c := Available(h, known, j + |needle|);
      scanned := scanned + c;
      if !ok { return None, right + left + scanned; }
      var i: int := Max(suffix, memory);
      ghost var right0 := right;
      while i < |needle| && needle[i] == h[i + j]
        invariant Max(suffix, memory) <= i <= |needle|
        invariant right == right0 + i - Max(suffix, memory)
        invariant Matched(h, needle, j, suffix, i)
      {
        right := right + 1;
        i := i + 1;
      }
      if |needle| <= i {
        i := suffix - 1;
        ghost var left0 := left;
        while memory < i + 1 && needle[i] == h[i + j]
          invariant -1 <= i < suffix && (i < memory ==> i == memory - 1 || i == suffix - 1)
          invariant left == left0 + (suffix - 1 - i)
          invariant Matched(h, needle, j, i + 1, |needle|)
        {
          left := left + 1;
          i := i - 1;
        }
        if i + 1 < memory + 1 { return Some(j), right + left + scanned; }
        left := left + 1;
        assert h[j + i] != needle[j + i - j];
        PeriodShift(h, needle, suffix, period, j);
        j := j + period;
        memory := |needle| - period;
      } else {
        right := right + 1;
        MismatchShift(h, needle, suffix, j, i);
        j := j + (i - suffix) + 1;
        memory := 0;
      }
    }
  }

  function Max(a: nat, b: nat): nat {
    if a < b then b else a
  }

  /** A full match of the right half of a needle with no short period moves on by more
    * than either half. */
  lemma LongShift(h: seq<int>, needle: Word, suffix: nat, j: nat)
    requires IsTwoWaySplit(needle, suffix) && 0 < suffix < |needle|
    requires forall q: nat | IsPeriod(needle, q) :: suffix < q && |needle| - suffix < q
    requires 0 < |h| && Matched(h, needle, j, suffix, |needle|)
    requires NoneBefore(h, needle, j) && !Occurs(h, needle, j)
    ensures NoneBefore(h, needle, j + Max(suffix, |needle| - suffix) + 1)
  {
    forall i: nat | i < j + Max(suffix, |needle| - suffix) + 1
      ensures !Occurs(h, needle, i)
    {
      if j < i && Occurs(h, needle, i) {
        OccurrenceInsideMatch(h, needle, suffix, j, |needle|, i - j);
      }
    }
  }

  /** Matches the right half from needle index suffix + 1 on, reading h from ph; stops at a
    * mismatch, and reports whether that was the terminator. */
  method MatchRight(h: seq<int>, needle: Word, suffix: nat, j: nat) returns (i: nat, ended: bool)
    requires Terminated(h) && 0 !in needle && suffix < |needle|
    requires j + suffix + 1 < |h| && Matched(h, needle, j, suffix, suffix + 1)
    ensures suffix < i <= |needle| && j + i <= |h| && Matched(h, needle, j, suffix, i)
    ensures i < |needle| ==> j + i < |h| && h[j + i] != needle[i]
    ensures ended <==> j + i == |h| - 1 && i < |needle|
    ensures i == |needle| ==> j + i < |h|
  {
    i := suffix + 1;
    var ph := j + i;
    ended := false;
    while i < |needle|
      invariant suffix < i <= |needle| && ph == j + i < |h|
      invariant Matched(h, needle, j, suffix, i)
    {
      var c := h[ph];
      ph := ph + 1;
      if needle[i] != c {
        ended := c == 0;
        break;
      }
      i := i + 1;
    }
  }

  /** Matches the left half backwards; -1 stands for having passed needle index 0. */
  method MatchLeft(h: seq<int>, needle: Word, suffix: nat, j: nat) returns (i: int)
    requires suffix < |needle| && j + |needle| <= |h| && Matched(h, needle, j, suffix, |needle|)
    ensures -1 <= i < suffix && Matched(h, needle, j, i + 1, |needle|)
    ensures 0 <= i ==> h[j + i] != needle[i]
  {
    i := suffix - 1;
    while i != -1 && needle[i] == h[i + j]
      invariant -1 <= i < suffix && Matched(h, needle, j, i + 1, |needle|)
    {
      i := i - 1;
    }
  }

  lemma NothingLeft(h: seq<int>, needle: Word, j: nat)
    requires 0 < |h| <= j + |needle| && NoneBefore(h, needle, j)
    ensures IsFirstOccurrence(h, needle, None)
  {
    forall i: nat
      ensures !Occurs(h, needle, i)
    {
      if i < j { assert !Occurs(h, needle, i); }
    }
  }

  lemma FirstLetterDiffers(h: seq<int>, needle: Word, suffix: nat, j: nat)
    requires suffix < |needle| && j + suffix < |h| && h[j + suffix] != needle[suffix]
    requires NoneBefore(h, needle, j)
    ensures NoneBefore(h, needle, j + 1)
  {
    assert h[j + suffix] != needle[j + suffix - j];
  }

  /** One window whose first right-half letter matches: either an occurrence, or the shift
    * to make and whether the haystack has ended. The cost is one comparison per letter. */
  method TryWindow(h: seq<int>, needle: Word, suffix: nat, period: nat, j: nat)
    returns (found: bool, ended: bool, j': nat, ghost right: nat, ghost left: nat)
    requires Terminated(h) && 0 !in needle && 0 < suffix < |needle| && IsTwoWaySplit(needle, suffix)
    requires forall q: nat | IsPeriod(needle, q) :: suffix < q && |needle| - suffix < q
    requires period == Max(suffix, |needle| - suffix) + 1
    requires j + suffix + 1 < |h| && h[j + suffix] == needle[suffix]
    requires NoneBefore(h, needle, j)
    ensures found <==> Occurs(h, needle, j)
    ensures !found && !ended ==> j < j' && NoneBefore(h, needle, j')
    ensures ended ==> !found && |h| <= j + |needle|
    ensures right <= |h| - (j + suffix + 1) && left <= suffix
    ensures !found && !ended ==> j + suffix + 1 + right <= j' + suffix && j + left < j'
  {
    assert Matched(h, needle, j, suffix, suffix + 1);
    var i;
    i, ended := MatchRight(h, needle, suffix, j);
    right, left, j' := i - (suffix + 1), 0, j;
    found := false;
    if i < |needle| {
      assert h[j + i] != needle[j + i - j];
      right := right + 1;
      if !ended {
        MismatchShift(h, needle, suffix, j, i);
        j' := j + (i - suffix) + 1;
      }
    } else {
      var l := MatchLeft(h, needle, suffix, j);
      left := if l == -1 then suffix else suffix - l;
      found := l == -1;
      if !found {
        assert h[j + l] != needle[j + l - j];
        LongShift(h, needle, suffix, j);
        j' := j + period;
      }
    }
  }

  /** The search for a needle without a short period. `ph` is the read position; a
    * terminator met while matching ends the search, so letters are read one by one
    * and only those behind a finished window are asked for in advance. */
  method SearchAperiodic(h: seq<int>, known0: nat, needle: Word, suffix: nat)
    returns (r: Option<nat>, ghost cost: nat)
    requires Terminated(h) && known0 < |h| && known0 <= |needle|
    requires 0 !in needle && 0 < suffix < |needle| && IsTwoWaySplit(needle, suffix)
    requires forall q: nat | IsPeriod(needle, q) :: suffix < q && |needle| - suffix < q
    ensures IsFirstOccurrence(h, needle, r)
    ensures cost <= 3 * |h|
  {
    var ph: nat, known: nat := suffix, known0;
    ghost var right: nat, left: nat, scanned: nat := 0, 0, 0;
    if known < suffix + 1 {
      ghost var c;
      var ok;
      ok, known, c := Available(h, known, suffix + 1);
      scanned := c;
      if !ok {
        NothingLeft(h, needle, 0);
        return None, scanned;
      }
    }
    var period := Max(suffix, |needle| - suffix) + 1;
    while true
      invariant suffix <= ph < |h| && known < |h| && known <= ph - suffix + |needle|
      invariant NoneBefore(h, needle, ph - suffix)
      invariant right <= ph && left <= ph - suffix && scanned <= known
      decreases |h| - ph
    {
      var c := h[ph];
      ph := ph + 1;
      right := right + 1;
      if needle[suffix] != c {
        FirstLetterDiffers(h, needle, suffix, ph - 1 - suffix);
        if c == 0 {
          NothingLeft(h, needle, ph - suffix);
          return None, right + left + scanned;
        }
        continue;
      }
      var j := ph - suffix - 1;
      var found, ended, j', dr, dl := TryWindow(h, needle, suffix, period, j);
      right, left := right + dr, left + dl;
      if found { return Some(j), right + left + scanned; }
      if ended {
        NothingLeft(h, needle, j);
        return None, right + left + scanned;
      }
      j := j';
      ghost var c';
      var ok;
      ok, known, c' := Available(h, known, j + |needle|);
      scanned := scanned + c';
      if !ok {
        NothingLeft(h, needle, j);
        return None, right + left + scanned;
      }
      ph := suffix + j;
    }
  }

  /** The first occurrence of a non-empty needle in a terminated string of which the first
    * `known` letters are known to be letters. */
  method TwoWayShortNeedle(h: seq<int>, known: nat, needle: Word) returns (r: Option<nat>, ghost cost: nat)
    requires Terminated(h) && known < |h| && known <= |needle|
    requires 0 < |needle| && 0 !in needle
    ensures IsFirstOccurrence(h, needle, r)
    ensures cost <= 3 * |h| + 5 * |needle|
  {
    var suffix, period, c := CriticalFactorization(needle);
    PeriodicTest(needle, suffix, period);
    ghost var c';
    if needle[..suffix] == needle[period..period + suffix] {
      forall a | 0 <= a < suffix
        ensures needle[a] == needle[a + period]
      {
        assert needle[..suffix][a] == needle[period..period + suffix][a];
      }
      r, c' := SearchPeriodic(h, known, needle, suffix, period);
    } else {
      assert !IsPeriod(needle, period);
      r, c' := SearchAperiodic(h, known, needle, suffix);
    }
    cost := c + suffix + c';
  }
}
