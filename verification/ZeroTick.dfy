/** Space and `;` take no tick: the main loop runs them one after the other until it finds
  * an instruction, and `k` has skipping code of its own that must find the same one.
  *
  * Here the cells an IP passes are a word c, c[0] being under the IP. */
module ZeroTicks {

  const SPACE := 0x20
  const SEMICOLON := 0x3b

  datatype Option<+T> = None | Some(value: T)

  /** The first index from i on whose cell is not a space. */
  function NextNonSpace(c: seq<int>, i: nat): (j: Option<nat>)
    ensures j.Some? ==> i <= j.value < |c| && c[j.value] != SPACE
                        && forall n | i <= n < j.value :: c[n] == SPACE
    ensures j.None? ==> forall n | i <= n < |c| :: c[n] == SPACE
    decreases |c| - i
  {
    if i >= |c| then None else if c[i] == SPACE then NextNonSpace(c, i + 1) else Some(i)
  }

  /** The first index from i on whose cell is a semicolon. */
  function NextSemicolon(c: seq<int>, i: nat): (j: Option<nat>)
    ensures j.Some? ==> i <= j.value < |c| && c[j.value] == SEMICOLON
                        && forall n | i <= n < j.value :: c[n] != SEMICOLON
    ensures j.None? ==> forall n | i <= n < |c| :: c[n] != SEMICOLON
    decreases |c| - i
  {
    if i >= |c| then None else if c[i] == SEMICOLON then Some(i) else NextSemicolon(c, i + 1)
  }

  /** Where the main loop, from index i on, first meets a cell that takes a tick: a space
    * moves on to the next non-space, a `;` past the next `;`. */
  function MainLoop(c: seq<int>, i: nat): (r: Option<nat>)
    ensures r.Some? ==> i <= r.value < |c| && c[r.value] != SPACE && c[r.value] != SEMICOLON
    decreases |c| - i
  {
    if i >= |c| then None
    else if c[i] == SPACE then
      var j := NextNonSpace(c, i + 1);
      if j.None? then None else MainLoop(c, j.value)
    else if c[i] == SEMICOLON then
      var j := NextSemicolon(c, i + 1);
      if j.None? then None else MainLoop(c, j.value + 1)
    else Some(i)
  }

  /** The semicolons among the cells from i up to n. */
  function Semicolons(c: seq<int>, i: nat, n: nat): nat
    requires n <= |c|
    decreases n
  {
    if n <= i then 0 else Semicolons(c, i, n - 1) + if c[n - 1] == SEMICOLON then 1 else 0
  }

  /** A cell that takes a tick, read from index i on: neither a space nor a `;` nor anything
    * between two of them. */
  predicate TakesTick(c: seq<int>, i: nat, n: nat)
    requires n < |c|
  {
    c[n] != SPACE && c[n] != SEMICOLON && Semicolons(c, i, n) % 2 == 0
  }

  lemma {:induction false} NoSemicolons(c: seq<int>, i: nat, m: nat, n: nat)
    requires i <= m <= n <= |c| && forall k | m <= k < n :: c[k] != SEMICOLON
    ensures Semicolons(c, i, n) == Semicolons(c, i, m)
    decreases n
  {
    if m < n {
      NoSemicolons(c, i, m, n - 1);
    }
  }

  /** The main loop finds the first cell that takes a tick, or there is none. */
  lemma MainLoopFindsFirst(c: seq<int>, i: nat)
    ensures var r := MainLoop(c, i);
      if r.Some? then TakesTick(c, i, r.value) && forall n | i <= n < r.value :: !TakesTick(c, i, n)
      else forall n | i <= n < |c| :: !TakesTick(c, i, n)
  {
    if i < |c| {
      FindsFirstFrom(c, i, i);
    }
  }

  lemma {:induction false} FindsFirstFrom(c: seq<int>, i: nat, m: nat)
    requires i <= m <= |c| && Semicolons(c, i, m) % 2 == 0
    ensures var r := MainLoop(c, m);
      if r.Some? then TakesTick(c, i, r.value) && forall n | m <= n < r.value :: !TakesTick(c, i, n)
      else forall n | m <= n < |c| :: !TakesTick(c, i, n)
    decreases |c| - m
  {
    hide MainLoop, Semicolons;
    MainLoopUnfolds(c, m);
    if m < |c| && c[m] == SPACE {
      var j := NextNonSpace(c, m + 1);
      if j.Some? {
        NoSemicolons(c, i, m, j.value);
        FindsFirstFrom(c, i, j.value);
      }
    } else if m < |c| && c[m] == SEMICOLON {
      var j := NextSemicolon(c, m + 1);
      OneSemicolonMore(c, i, m);
      forall n | m < n < |c| && (j.None? || n <= j.value)
        ensures Semicolons(c, i, n) == Semicolons(c, i, m) + 1
      {
        NoSemicolons(c, i, m + 1, n);
      }
      if j.Some? {
        OneSemicolonMore(c, i, j.value);
        FindsFirstFrom(c, i, j.value + 1);
      }
    }
  }

  lemma OneSemicolonMore(c: seq<int>, i: nat, m: nat)
    requires i <= m < |c| && c[m] == SEMICOLON
    ensures Semicolons(c, i, m + 1) == Semicolons(c, i, m) + 1
  {
  }

  /** find_next_instr: moves on from index i, toggling injump at each `;`. */
  function FindNextInstr(c: seq<int>, i: nat, injump: bool): (r: Option<nat>)
    decreases |c| - i
  {
    if i + 1 >= |c| then None
    else if c[i + 1] == SEMICOLON then FindNextInstr(c, i + 1, !injump)
    else if c[i + 1] == SPACE || injump then FindNextInstr(c, i + 1, injump)
    else Some(i + 1)
  }

  /** How `k` fetches its instruction, the IP having moved to index i. */
  function Fetch(c: seq<int>, i: nat): Option<nat> {
    if i >= |c| then None
    else if c[i] == SPACE || c[i] == SEMICOLON then FindNextInstr(c, i, c[i] == SEMICOLON)
    else Some(i)
  }

  lemma SpaceIsSkipped(c: seq<int>, i: nat)
    requires i < |c| && c[i] == SPACE
    ensures MainLoop(c, i) == MainLoop(c, i + 1)
  {
  }

  lemma {:induction false} FindFollowsMainLoop(c: seq<int>, i: nat)
    ensures FindNextInstr(c, i, false) == MainLoop(c, i + 1)
    ensures FindNextInstr(c, i, true) ==
      var j := NextSemicolon(c, i + 1); if j.None? then None else MainLoop(c, j.value + 1)
    decreases |c| - i
  {
    if i + 1 < |c| {
      FindFollowsMainLoop(c, i + 1);
      if c[i + 1] == SPACE { SpaceIsSkipped(c, i + 1); }
    }
  }

  /** `k` fetches the instruction the main loop would execute next, on any line of cells,
    * and runs off it exactly when the main loop does. */
  lemma FetchIsMainLoop(c: seq<int>, i: nat)
    ensures Fetch(c, i) == MainLoop(c, i)
  {
    FindFollowsMainLoop(c, i);
    if i < |c| && c[i] == SPACE { SpaceIsSkipped(c, i); }
  }

  lemma {:induction false} ScansExtend(c: seq<int>, d: seq<int>, i: nat)
    ensures NextNonSpace(c, i).Some? ==> NextNonSpace(c + d, i) == NextNonSpace(c, i)
    ensures NextSemicolon(c, i).Some? ==> NextSemicolon(c + d, i) == NextSemicolon(c, i)
    decreases |c| - i
  {
    if i < |c| { ScansExtend(c, d, i + 1); }
  }

  /** Reading further cells never changes an answer already found. */
  lemma {:induction false} MainLoopExtends(c: seq<int>, d: seq<int>, i: nat)
    requires MainLoop(c, i).Some?
    ensures MainLoop(c + d, i) == MainLoop(c, i)
    decreases |c| - i
  {
    if c[i] == SPACE {
      ScansExtend(c, d, i + 1);
      MainLoopExtends(c, d, NextNonSpace(c, i + 1).value);
    } else if c[i] == SEMICOLON {
      ScansExtend(c, d, i + 1);
      MainLoopExtends(c, d, NextSemicolon(c, i + 1).value + 1);
    }
  }

  lemma {:induction false} ScansShift(c: seq<int>, i: nat)
    requires 1 <= i && c != []
    ensures NextNonSpace(c[1..], i - 1) == Less(NextNonSpace(c, i))
    ensures NextSemicolon(c[1..], i - 1) == Less(NextSemicolon(c, i))
    decreases |c| - i
  {
    if i < |c| {
      ScansShift(c, i + 1);
    }
  }

  /** An index counted from the second cell. */
  function Less(r: Option<nat>): Option<nat> {
    if r.Some? && r.value > 0 then Some(r.value - 1) else None
  }

  lemma MainLoopUnfolds(c: seq<int>, i: nat)
    ensures var n, j := NextNonSpace(c, i + 1), NextSemicolon(c, i + 1);
      MainLoop(c, i) ==
        if i >= |c| then None
        else if c[i] == SPACE then if n.None? then None else MainLoop(c, n.value)
        else if c[i] == SEMICOLON then if j.None? then None else MainLoop(c, j.value + 1)
        else Some(i)
  {
  }

  /** Leaving out a first cell already passed only renumbers the cells. */
  lemma {:induction false} MainLoopShifts(c: seq<int>, i: nat)
    requires 1 <= i && c != []
    ensures MainLoop(c[1..], i - 1) == Less(MainLoop(c, i))
    decreases |c| - i
  {
    hide MainLoop, NextNonSpace, NextSemicolon;
    MainLoopUnfolds(c, i);
    MainLoopUnfolds(c[1..], i - 1);
    if i < |c| {
      ScansShift(c, i + 1);
      if c[i] == SPACE && NextNonSpace(c, i + 1).Some? {
        MainLoopShifts(c, NextNonSpace(c, i + 1).value);
      } else if c[i] == SEMICOLON && NextSemicolon(c, i + 1).Some? {
        MainLoopShifts(c, NextSemicolon(c, i + 1).value + 1);
      }
    }
  }
}
