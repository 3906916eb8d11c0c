/** One pass of the main loop over the list of IPs, from the top of the list down. IPs are
  * named by their IDs, and a script says what each executed instruction turns out to be. */
module Scheduler {

  /** What executing one instruction does to the list: an ordinary instruction takes the
    * IP's tick, a zero-tick one leaves its turn on, `t` splits (`k` may repeat it), and `@`
    * ends the IP. */
  datatype Outcome = Tick | ZeroTick | Split(times: nat) | Die

  datatype Event = Event(id: nat, outcome: Outcome) {
    predicate Ticks() { !outcome.ZeroTick? }
  }

  datatype State = State(ids: seq<nat>, highest: nat, i: int, exited: bool, trace: seq<Event>) {
    predicate Running() { 0 <= i < |ids| && !exited }

    predicate Over() { i < 0 && !exited }
  }

  /** The new IDs n splits insert above the parent, the youngest lowest. */
  function Children(highest: nat, n: nat): (c: seq<nat>)
    ensures |c| == n && forall j | 0 <= j < n :: c[j] == highest + n - j
  {
    if n == 0 then [] else [highest + n] + Children(highest, n - 1)
  }

  function Step(s: State, o: Outcome): State
    requires s.Running()
  {
    var t := s.(trace := s.trace + [Event(s.ids[s.i], o)]);
    match o
    case ZeroTick => t
    case Tick => t.(i := s.i - 1)
    case Split(n) =>
      t.(ids := s.ids[..s.i + 1] + Children(s.highest, n) + s.ids[s.i + 1..],
         highest := s.highest + n, i := s.i - 1)
    case Die =>
      if |s.ids| == 1 then t.(exited := true)
      else t.(ids := s.ids[..s.i] + s.ids[s.i + 1..], i := (if s.i > 0 then s.i - 1 else 0) - 1)
  }

  /** Runs the script until it ends, the pass is over, or the program exits. */
  function Run(s: State, script: seq<Outcome>): State
    decreases |script|
  {
    if script == [] || !s.Running() then s else Run(Step(s, script[0]), script[1..])
  }

  lemma RunUnfolds(s: State, script: seq<Outcome>)
    ensures Run(s, script) ==
      if script == [] || !s.Running() then s else Run(Step(s, script[0]), script[1..])
  {
  }

  /** A step only adds to the trace, and does not depend on it otherwise. */
  lemma StepTraces(s: State, o: Outcome)
    requires s.Running()
    ensures Step(s, o) == Step(s.(trace := []), o).(trace := s.trace + [Event(s.ids[s.i], o)])
  {
    match o
    case Split(n) =>
    case _ =>
  }

  predicate Distinct(s: seq<nat>) {
    forall j, k | 0 <= j < k < |s| :: s[j] != s[k]
  }

  predicate UniqueIds(s: State) {
    Distinct(s.ids) && forall j | 0 <= j < |s.ids| :: s.ids[j] <= s.highest
  }

  predicate Ticked(trace: seq<Event>, id: nat) {
    exists e | 0 <= e < |trace| :: trace[e].id == id && trace[e].Ticks()
  }

  predicate Died(trace: seq<Event>, id: nat) {
    exists e | 0 <= e < |trace| :: trace[e].id == id && trace[e].outcome == Die
  }

  /** The IP k of the list at the start of the pass sat just below one that executed `@`. */
  predicate BelowDeath(start: seq<nat>, trace: seq<Event>, k: nat) {
    k + 1 < |start| && Died(trace, start[k + 1])
  }

  /** The IPs still to be visited are those the pass began with, and only IPs of the
    * beginning have run, none with more than one tick. */
  ghost predicate ListInvariant(start: seq<nat>, s: State) {
    && -1 <= s.i < |start| && s.i < |s.ids| && s.ids[..s.i + 1] == start[..s.i + 1]
    && (forall k | 0 <= k < |start| :: start[k] <= s.highest)
    && (forall e | 0 <= e < |s.trace| :: s.trace[e].id in start)
    && (forall e, f | 0 <= e < f < |s.trace| && s.trace[e].Ticks() && s.trace[f].Ticks() ::
          s.trace[e].id != s.trace[f].id)
  }

  /** IPs the pass has gone by have ticked, except those just below a death. */
  ghost predicate TurnInvariant(start: seq<nat>, s: State) {
    && -1 <= s.i < |start|
    && (s.exited ==> 0 <= s.i && Ticked(s.trace, start[s.i]))
    && (forall k | 0 <= k <= s.i :: (k < s.i || !s.exited) ==> !Ticked(s.trace, start[k]))
    && (!s.exited ==> forall k | 0 <= k <= s.i :: !BelowDeath(start, s.trace, k))
    && (forall k | s.i < k < |start| :: Ticked(s.trace, start[k]) <==> !BelowDeath(start, s.trace, k))
  }

  /** The state of a pass that began with the IPs `start`. */
  ghost predicate PassInvariant(start: seq<nat>, s: State) {
    UniqueIds(s) && ListInvariant(start, s) && TurnInvariant(start, s)
  }

  lemma TraceGrows(trace: seq<Event>, e: Event)
    ensures forall id :: Ticked(trace + [e], id) <==> Ticked(trace, id) || (e.id == id && e.Ticks())
    ensures forall id :: Died(trace + [e], id) <==> Died(trace, id) || (e.id == id && e.outcome == Die)
  {
    var t := trace + [e];
    assert t[|trace|] == e;
    forall id
      ensures Ticked(t, id) <==> Ticked(trace, id) || (e.id == id && e.Ticks())
      ensures Died(t, id) <==> Died(trace, id) || (e.id == id && e.outcome == Die)
    {
      if f :| 0 <= f < |trace| && trace[f].id == id && trace[f].Ticks() { assert t[f] == trace[f]; }
      if f :| 0 <= f < |trace| && trace[f].id == id && trace[f].outcome == Die { assert t[f] == trace[f]; }
    }
  }

  lemma InsertDistinct(a: seq<nat>, c: seq<nat>, b: seq<nat>)
    requires Distinct(a + b) && Distinct(c)
    requires forall x | x in c :: x !in a && x !in b
    ensures Distinct(a + c + b)
  {
    var ab, t := a + b, a + c + b;
    forall j, k | 0 <= j < k < |t|
      ensures t[j] != t[k]
    {
      assert j < |a| ==> t[j] == a[j] == ab[j];
      assert k < |a| ==> t[k] == a[k] == ab[k];
      assert |a| <= j < |a| + |c| ==> t[j] == c[j - |a|] && t[j] in c;
      assert |a| <= k < |a| + |c| ==> t[k] == c[k - |a|] && t[k] in c;
      assert |a| + |c| <= j ==> t[j] == b[j - |a| - |c|] == ab[j - |c|];
      assert |a| + |c| <= k ==> t[k] == b[k - |a| - |c|] == ab[k - |c|];
    }
  }

  lemma RemoveDistinct(s: seq<nat>, i: nat)
    requires Distinct(s) && i < |s|
    ensures Distinct(s[..i] + s[i + 1..])
  {
    var t := s[..i] + s[i + 1..];
    assert forall j | 0 <= j < |t| :: t[j] == if j < i then s[j] else s[j + 1];
  }

  lemma StepKeepsIds(s: State, o: Outcome)
    requires s.Running() && UniqueIds(s)
    ensures UniqueIds(Step(s, o))
  {
    hide Distinct, Children;
    if o.Split? {
      var a, b, c := s.ids[..s.i + 1], s.ids[s.i + 1..], Children(s.highest, o.times);
      assert a + b == s.ids;
      ChildrenDistinct(s.highest, o.times);
      InsertDistinct(a, c, b);
      var t := Step(s, o);
      assert t.ids == a + c + b;
      forall j | 0 <= j < |t.ids|
        ensures t.ids[j] <= t.highest
      {
        assert j < |a| ==> t.ids[j] == a[j] == s.ids[j];
        assert |a| <= j < |a| + |c| ==> t.ids[j] == c[j - |a|] && t.ids[j] in c;
        assert |a| + |c| <= j ==> t.ids[j] == b[j - |a| - |c|] == s.ids[j - |c|];
      }
    } else if o.Die? && |s.ids| > 1 {
      RemoveDistinct(s.ids, s.i);
    }
  }

  lemma ChildrenDistinct(highest: nat, n: nat)
    ensures Distinct(Children(highest, n))
    ensures forall id | id in Children(highest, n) :: highest < id <= highest + n
  {
  }

  lemma StepKeepsList(start: seq<nat>, s: State, o: Outcome)
    requires s.Running() && ListInvariant(start, s) && !Ticked(s.trace, start[s.i])
    ensures ListInvariant(start, Step(s, o)) && s.ids[s.i] == start[s.i]
  {
    var t := Step(s, o);
    assert s.ids[s.i] == s.ids[..s.i + 1][s.i] == start[s.i];
    assert forall e | 0 <= e < |s.trace| && s.trace[e].Ticks() :: s.trace[e].id != start[s.i];
    assert s.ids[..s.i + 1][..t.i + 1] == s.ids[..t.i + 1] && start[..s.i + 1][..t.i + 1] == start[..t.i + 1];
    assert t.ids[..t.i + 1] == start[..t.i + 1];
  }

  /** A tick of IP i settles only IP i, and a death there the one below it. */
  lemma StepSettles(start: seq<nat>, trace: seq<Event>, i: nat, o: Outcome, k: nat)
    requires i < |start| && k < |start| && Distinct(start)
    ensures var t := trace + [Event(start[i], o)];
      && (Ticked(t, start[k]) <==> Ticked(trace, start[k]) || (k == i && !o.ZeroTick?))
      && (BelowDeath(start, t, k) <==> BelowDeath(start, trace, k) || (k == i - 1 && o.Die?))
  {
    TraceGrows(trace, Event(start[i], o));
    hide Ticked, Died;
  }

  lemma StepKeepsTurns(start: seq<nat>, s: State, o: Outcome)
    requires s.Running() && TurnInvariant(start, s) && Distinct(start) && s.ids[s.i] == start[s.i]
    ensures TurnInvariant(start, Step(s, o))
  {
    var t := Step(s, o);
    forall k | 0 <= k < |start|
      ensures Ticked(t.trace, start[k]) <==> Ticked(s.trace, start[k]) || (k == s.i && !o.ZeroTick?)
      ensures BelowDeath(start, t.trace, k) <==> BelowDeath(start, s.trace, k) || (k == s.i - 1 && o.Die?)
    {
      StepSettles(start, s.trace, s.i, o, k);
    }
    hide Ticked, BelowDeath, Distinct;
  }

  lemma StepKeepsInvariant(start: seq<nat>, s: State, o: Outcome)
    requires s.Running() && PassInvariant(start, s) && Distinct(start)
    ensures PassInvariant(start, Step(s, o))
  {
    StepKeepsIds(s, o);
    StepKeepsList(start, s, o);
    StepKeepsTurns(start, s, o);
  }

  lemma {:induction false} RunKeepsInvariant(start: seq<nat>, s: State, script: seq<Outcome>)
    requires PassInvariant(start, s) && Distinct(start)
    ensures PassInvariant(start, Run(s, script))
    decreases |script|
  {
    if script != [] && s.Running() {
      StepKeepsInvariant(start, s, script[0]);
      RunKeepsInvariant(start, Step(s, script[0]), script[1..]);
    }
  }

  /** The start of a pass over the list `ids`. */
  function StartPass(ids: seq<nat>, highest: nat): State {
    State(ids, highest, |ids| - 1, false, [])
  }

  /** Fairness of a pass, for every script: no IP takes two ticks, an IP born in the pass
    * takes no turn at all, and once the pass is over an IP present at its start has
    * ticked unless, and only unless, the one just above it executed `@`. */
  lemma PassIsFair(ids: seq<nat>, highest: nat, script: seq<Outcome>)
    requires UniqueIds(StartPass(ids, highest))
    ensures var s := Run(StartPass(ids, highest), script);
      && (forall e | 0 <= e < |s.trace| :: s.trace[e].id in ids)
      && (forall e, f | 0 <= e < f < |s.trace| && s.trace[e].Ticks() && s.trace[f].Ticks() ::
            s.trace[e].id != s.trace[f].id)
      && (s.i < 0 ==> forall k | 0 <= k < |ids| :: Ticked(s.trace, ids[k]) <==> !BelowDeath(ids, s.trace, k))
  {
    var s := StartPass(ids, highest);
    assert s.ids[..s.i + 1] == ids[..s.i + 1];
    RunKeepsInvariant(ids, s, script);
  }

  /** IDs stay unique and at most highestID over a pass, highestID never falls, and an ID
    * that is new to the list has never been used before. */
  lemma {:induction false} RunKeepsIdsUnique(s: State, script: seq<Outcome>)
    requires UniqueIds(s)
    ensures UniqueIds(Run(s, script)) && s.highest <= Run(s, script).highest
    ensures forall id | id in Run(s, script).ids :: id in s.ids || id > s.highest
    decreases |script|
  {
    if script != [] && s.Running() {
      StepKeepsIds(s, script[0]);
      StepNamesAnew(s, script[0]);
      RunKeepsIdsUnique(Step(s, script[0]), script[1..]);
    }
  }

  lemma StepNamesAnew(s: State, o: Outcome)
    requires s.Running()
    ensures s.highest <= Step(s, o).highest
    ensures forall id | id in Step(s, o).ids :: id in s.ids || id > s.highest
  {
  }

  /** The main loop: pass after pass, each from the top of the list the last one left, until
    * the program exits or a script ends within its pass. */
  function RunPasses(s: State, scripts: seq<seq<Outcome>>): State
    decreases |scripts|
  {
    if scripts == [] || !s.Over() then s else RunPasses(Run(StartPass(s.ids, s.highest), scripts[0]), scripts[1..])
  }

  lemma PassesUnfold(s: State, scripts: seq<seq<Outcome>>)
    ensures RunPasses(s, scripts) ==
      if scripts == [] || !s.Over() then s else RunPasses(Run(StartPass(s.ids, s.highest), scripts[0]), scripts[1..])
  {
  }

  /** Over any number of passes IDs stay unique and at most highestID, which never falls, and
    * the ID of an IP that has died is never given to another. */
  lemma {:induction false} PassesKeepIdsUnique(s: State, scripts: seq<seq<Outcome>>)
    requires UniqueIds(s)
    ensures var t := RunPasses(s, scripts);
      && UniqueIds(t) && s.highest <= t.highest
      && forall id | id in t.ids :: id in s.ids || id > s.highest
    decreases |scripts|
  {
    hide Run, UniqueIds;
    if scripts != [] && s.Over() {
      SameNames(s);
      RunKeepsIdsUnique(StartPass(s.ids, s.highest), scripts[0]);
      PassesKeepIdsUnique(Run(StartPass(s.ids, s.highest), scripts[0]), scripts[1..]);
    }
  }

  lemma SameNames(t: State)
    ensures UniqueIds(StartPass(t.ids, t.highest)) <==> UniqueIds(t)
  {
  }

  /** An IP that loses its turn: of three, the topmost dies, the one below it is left out and
    * the last one runs. */
  lemma TurnLost()
    ensures var s := Run(StartPass([0, 1, 2], 2), [Die, Tick]);
      s.i == -1 && s.trace == [Event(2, Die), Event(0, Tick)] && !Ticked(s.trace, 1)
  {
    var s := StartPass([0, 1, 2], 2);
    RunUnfolds(s, [Die, Tick]);
    var t := Step(s, Die);
    RunUnfolds(t, [Tick]);
    RunUnfolds(Step(t, Tick), []);
    assert [Die, Tick][1..] == [Tick] && [Tick][1..] == [];
  }
}
