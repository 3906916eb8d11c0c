/** What a pass of the main loop does to every IP of the list, on values: the effects of the
  * instructions it runs, and where each IP is after its turn. */
module Worlds {
  import opened Lahey
  import opened Stacks
  import opened Ips
  import S = Scheduler

  function Inserted<T>(s: seq<T>, i: nat, x: T): seq<T>
    requires i <= |s|
  {
    s[..i] + [x] + s[i..]
  }

  function Removed<T>(s: seq<T>, i: nat): seq<T>
    requires i < |s|
  {
    s[..i] + s[i + 1..]
  }

  /** What executing one instruction does: to the list, and to its own IP. */
  datatype Instruction = Instruction(outcome: S.Outcome, effects: seq<Effect>)

  function Outcomes(script: seq<Instruction>): (o: seq<S.Outcome>)
    ensures |o| == |script|
  {
    if script == [] then [] else [script[0].outcome] + Outcomes(script[1..])
  }

  function AllOutcomes(scripts: seq<seq<Instruction>>): seq<seq<S.Outcome>> {
    if scripts == [] then [] else [Outcomes(scripts[0])] + AllOutcomes(scripts[1..])
  }

  /** The child of a split: its parent turned around and one step on. */
  function Child(parent: Self, box: Box): (c: Self)
    ensures c.stacks == parent.stacks
  {
    parent.(delta := parent.delta.Reversed(), position := Forward(box, parent.position, parent.delta.Reversed()))
  }

  /** n new children just below slot i. */
  function Split(selves: seq<Self>, i: nat, child: Self, n: nat): (r: seq<Self>)
    requires i <= |selves|
    ensures |r| == |selves| + n
  {
    selves[..i] + seq(n, _ => child) + selves[i..]
  }

  lemma SplitStarts(selves: seq<Self>, i: nat, child: Self)
    requires i < |selves|
    ensures Split(selves, i + 1, child, 0) == selves
  {
  }

  lemma SplitGrows(selves: seq<Self>, i: nat, child: Self, n: nat)
    requires i < |selves|
    ensures var s := Split(selves, i + 1, child, n);
      s[i] == selves[i] && Inserted(s, i + 1, child) == Split(selves, i + 1, child, n + 1)
  {
  }

  /** What an instruction of the IP in slot i does to the list, and the move after it. */
  function Finished(selves: seq<Self>, i: nat, outcome: S.Outcome, box: Box): (r: seq<Self>)
    requires i < |selves|
  {
    match outcome
    case Split(n) => Split(selves, i + 1, Child(selves[i], box), n)[i := Moved(selves[i], box)]
    case Die =>
      if |selves| == 1 then selves
      else
        var rest, next := Removed(selves, i), if i > 0 then i - 1 else 0;
        rest[next := rest[next].(needMove := true)]
    case _ => selves[i := Moved(selves[i], box)]
  }

  /** The state of the IPs after one round of the loop, for an instruction of the one in slot i. */
  function TurnTaken(selves: seq<Self>, i: nat, instruction: Instruction, box: Box): seq<Self>
    requires i < |selves| && selves[i].Sound()
  {
    Finished(selves[i := PerformedAll(selves[i], instruction.effects, box)], i, instruction.outcome, box)
  }

  /** The state of the main loop, and of each IP in the order of the list. */
  datatype World = World(state: S.State, selves: seq<Self>) {
    predicate Whole() {
      |state.ids| == |selves| && forall k | 0 <= k < |selves| :: selves[k].Sound()
    }
  }

  /** One round of the loop that makes up a pass. */
  function Round(w: World, instruction: Instruction, box: Box): (r: World)
    requires w.Whole() && w.state.Running()
    ensures r.Whole()
  {
    TurnKeepsWhole(w, instruction, box);
    World(S.Step(w.state, instruction.outcome), TurnTaken(w.selves, w.state.i, instruction, box))
  }

  lemma TurnKeepsWhole(w: World, instruction: Instruction, box: Box)
    requires w.Whole() && w.state.Running()
    ensures World(S.Step(w.state, instruction.outcome), TurnTaken(w.selves, w.state.i, instruction, box)).Whole()
  {
    hide PerformedAll, Forward;
  }

  function Rounds(w: World, script: seq<Instruction>, box: Box): (r: World)
    requires w.Whole()
    ensures r.Whole()
    decreases |script|
  {
    if script == [] || !w.state.Running() then w else Rounds(Round(w, script[0], box), script[1..], box)
  }

  lemma RoundsUnfold(w: World, script: seq<Instruction>, box: Box)
    requires w.Whole()
    ensures Rounds(w, script, box) ==
      if script == [] || !w.state.Running() then w else Rounds(Round(w, script[0], box), script[1..], box)
  {
  }

  /** The start of a pass. */
  function NextPass(w: World): World {
    World(S.StartPass(w.state.ids, w.state.highest), w.selves)
  }

  /** Pass after pass, as in the scheduler. */
  function Passes(w: World, scripts: seq<seq<Instruction>>, box: Box): (r: World)
    requires w.Whole()
    ensures r.Whole()
    decreases |scripts|
  {
    if scripts == [] || !w.state.Over() then w else Passes(Rounds(NextPass(w), scripts[0], box), scripts[1..], box)
  }

  lemma PassesUnfold(w: World, scripts: seq<seq<Instruction>>, box: Box)
    requires w.Whole()
    ensures Passes(w, scripts, box) ==
      if scripts == [] || !w.state.Over() then w else Passes(Rounds(NextPass(w), scripts[0], box), scripts[1..], box)
  {
  }

  /** The list goes through the states of the scheduler, whatever the effects are. */
  lemma {:induction false} RoundsSchedule(w: World, script: seq<Instruction>, box: Box)
    requires w.Whole()
    ensures Rounds(w, script, box).state == S.Run(w.state, Outcomes(script))
    decreases |script|
  {
    hide S.Step, TurnTaken;
    S.RunUnfolds(w.state, Outcomes(script));
    if script != [] && w.state.Running() {
      RoundsSchedule(Round(w, script[0], box), script[1..], box);
    }
  }

  lemma {:induction false} PassesSchedule(w: World, scripts: seq<seq<Instruction>>, box: Box)
    requires w.Whole()
    ensures Passes(w, scripts, box).state == S.RunPasses(w.state, AllOutcomes(scripts))
    decreases |scripts|
  {
    hide Rounds, S.Run, Outcomes;
    S.PassesUnfold(w.state, AllOutcomes(scripts));
    if scripts != [] && w.state.Over() {
      RoundsSchedule(NextPass(w), scripts[0], box);
      PassesSchedule(Rounds(NextPass(w), scripts[0], box), scripts[1..], box);
    }
  }

  /** The slot an IP was in before the turn of slot i, or -1 for a new one. */
  function SlotBefore(count: nat, i: nat, o: S.Outcome, j: nat): int {
    match o
    case Split(n) => if j <= i then j else if j <= i + n then -1 else j - n
    case Die => if count == 1 || j < i then j else j + 1
    case _ => j
  }

  lemma NameBefore(s: S.State, o: S.Outcome, j: nat)
    requires s.Running() && j < |S.Step(s, o).ids|
    ensures var k := SlotBefore(|s.ids|, s.i, o, j);
      if k == -1 then o.Split? && S.Step(s, o).ids[j] > s.highest
      else 0 <= k < |s.ids| && S.Step(s, o).ids[j] == s.ids[k]
  {
    hide S.Children;
  }

  lemma SelfBefore(selves: seq<Self>, i: nat, o: S.Outcome, box: Box, j: nat)
    requires i < |selves| && j < |Finished(selves, i, o, box)|
    ensures var k, new' := SlotBefore(|selves|, i, o, j), Finished(selves, i, o, box)[j];
      if k == -1 then o.Split? && new' == Child(selves[i], box)
      else
        && 0 <= k < |selves|
        && new' == if k == i then if o.Die? then selves[i] else Moved(selves[i], box)
          else if o.Die? && j == (if i > 0 then i - 1 else 0) then selves[k].(needMove := true)
          else selves[k]
  {
    hide Child, Moved;
  }

  /** One round, IP by IP. The IP that runs ends up where the effects of its instruction left
    * it, one step on in the direction they left it, or not moved if they held it back. Every
    * other IP is left alone, except that the one picked up by `@` no longer is held back. A
    * new IP is a copy of its parent turned around and one step on. */
  lemma RoundById(w: World, instruction: Instruction, box: Box, j: nat)
    requires w.Whole() && w.state.Running() && S.UniqueIds(w.state)
    requires j < |Round(w, instruction, box).selves|
    ensures var t, i, o := Round(w, instruction, box), w.state.i, instruction.outcome;
      var id, new', acted := t.state.ids[j], t.selves[j], PerformedAll(w.selves[i], instruction.effects, box);
      && (id == w.state.ids[i] ==>
            new' == if t.state.exited then acted
              else if acted.needMove then acted.(position := Forward(box, acted.position, acted.delta))
              else acted.(needMove := true))
      && (forall k | 0 <= k < |w.selves| && k != i && w.state.ids[k] == id ::
            new' == if o.Die? && j == (if i > 0 then i - 1 else 0) then w.selves[k].(needMove := true)
              else w.selves[k])
      && (id !in w.state.ids ==>
            && o.Split? && new'.stacks == acted.stacks && new'.storageOffset == acted.storageOffset
            && new'.delta == Vector(-acted.delta.x, -acted.delta.y)
            && new'.position == Forward(box, acted.position, new'.delta))
  {
    hide S.Step, Finished, PerformedAll, Forward;
    var i, o := w.state.i, instruction.outcome;
    var acted := w.selves[i := PerformedAll(w.selves[i], instruction.effects, box)];
    NameBefore(w.state, o, j);
    SelfBefore(acted, i, o, box, j);
    ExitsAlone(w.state, o);
  }

  lemma ExitsAlone(s: S.State, o: S.Outcome)
    requires s.Running()
    ensures S.Step(s, o).exited <==> o.Die? && |s.ids| == 1
  {
  }

  /** The instructions of a run that the IP of that ID executes. */
  function TurnsOf(s: S.State, script: seq<Instruction>, id: nat): seq<Instruction>
    decreases |script|
  {
    if script == [] || !s.Running() then []
    else
      (if s.ids[s.i] == id then [script[0]] else [])
      + TurnsOf(S.Step(s, script[0].outcome), script[1..], id)
  }

  /** An IP that executes these instructions, moving on after each unless it dies. */
  function Lived(s: Self, turns: seq<Instruction>, box: Box): (t: Self)
    requires s.Sound()
    ensures t.Sound()
    decreases |turns|
  {
    if turns == [] then s
    else
      var acted := PerformedAll(s, turns[0].effects, box);
      Lived(if turns[0].outcome.Die? then acted else Moved(acted, box), turns[1..], box)
  }

  lemma LivedOn(s: Self, turn: Instruction, turns: seq<Instruction>, box: Box)
    requires s.Sound()
    ensures Lived(s, [turn] + turns, box) ==
      var acted := PerformedAll(s, turn.effects, box);
      Lived(if turn.outcome.Die? then acted else Moved(acted, box), turns, box)
    ensures Lived(s, [], box) == s
  {
    assert ([turn] + turns)[1..] == turns;
  }

  /** What one round does to an IP that is there before and after it, and moves freely. */
  lemma RoundOfOne(w: World, instruction: Instruction, box: Box, k: nat, j: nat)
    requires w.Whole() && w.state.Running() && S.UniqueIds(w.state)
    requires k < |w.selves| && j < |Round(w, instruction, box).selves|
    requires w.state.ids[k] == Round(w, instruction, box).state.ids[j] && w.selves[k].needMove
    ensures var t, i := Round(w, instruction, box), w.state.i;
      var acted := PerformedAll(w.selves[i], instruction.effects, box);
      && t.selves[j] == (if k != i then w.selves[k] else if instruction.outcome.Die? then acted else Moved(acted, box))
      && (t.selves[j].needMove || t.state.exited)
      && (k == i && instruction.outcome.Die? ==> t.state.exited)
  {
    hide S.Step, TurnTaken, PerformedAll, Forward;
    RoundById(w, instruction, box, j);
    ExitsAlone(w.state, instruction.outcome);
    NameBefore(w.state, instruction.outcome, j);
  }

  /** An IP that is on the list before and after a round has a slot in between. */
  lemma StillListed(w: World, script: seq<Instruction>, box: Box, id: nat) returns (m: nat)
    requires w.Whole() && w.state.Running() && S.UniqueIds(w.state) && script != []
    requires id in w.state.ids && id in Rounds(w, script, box).state.ids
    ensures var t := Round(w, script[0], box); m < |t.selves| && t.state.ids[m] == id
  {
    hide S.Step, TurnTaken;
    var t := Round(w, script[0], box);
    S.StepKeepsIds(w.state, script[0].outcome);
    S.StepNamesAnew(w.state, script[0].outcome);
    RoundsSchedule(t, script[1..], box);
    S.RunKeepsIdsUnique(t.state, Outcomes(script[1..]));
    m :| m < |t.selves| && t.state.ids[m] == id;
  }

  /** Over a run, whatever the other IPs do meanwhile: an IP that moves freely at its start
    * and is still there at its end is where its own instructions, with one move after each,
    * have taken it, and has the stacks they have left. */
  lemma {:induction false} LivesItsTurns(w: World, script: seq<Instruction>, box: Box, k: nat, j: nat)
    requires w.Whole() && S.UniqueIds(w.state)
    requires k < |w.selves| && j < |Rounds(w, script, box).selves|
    requires w.state.ids[k] == Rounds(w, script, box).state.ids[j]
    requires w.selves[k].needMove || w.state.exited
    ensures var t := Rounds(w, script, box);
      && t.selves[j] == Lived(w.selves[k], TurnsOf(w.state, script, w.state.ids[k]), box)
      && (t.selves[j].needMove || t.state.exited)
    decreases |script|
  {
    hide S.Step, TurnTaken, PerformedAll, Forward, Lived;
    var id := w.state.ids[k];
    if script != [] && w.state.Running() {
      var t, turns := Round(w, script[0], box), TurnsOf(Round(w, script[0], box).state, script[1..], id);
      var m := StillListed(w, script, box, id);
      RoundOfOne(w, script[0], box, k, m);
      S.StepKeepsIds(w.state, script[0].outcome);
      LivesItsTurns(t, script[1..], box, m, j);
      LivedOn(w.selves[k], script[0], turns, box);
      assert [] + turns == turns;
    } else {
      LivedOn(w.selves[k], Instruction(S.Tick, []), [], box);
    }
  }

  /** What the trace of the scheduler tells of one IP. */
  function OutcomesOf(trace: seq<S.Event>, id: nat): seq<S.Outcome> {
    if trace == [] then []
    else
      var last := trace[|trace| - 1];
      OutcomesOf(trace[..|trace| - 1], id) + if last.id == id then [last.outcome] else []
  }

  lemma TracedOnce(trace: seq<S.Event>, e: S.Event, turns: seq<Instruction>, turn: Instruction, id: nat)
    requires turn.outcome == e.outcome
    ensures OutcomesOf(trace + [e], id) + Outcomes(turns) ==
      OutcomesOf(trace, id) + Outcomes((if e.id == id then [turn] else []) + turns)
  {
    assert (trace + [e])[..|trace|] == trace;
    if e.id == id {
      assert ([turn] + turns)[1..] == turns;
    } else {
      assert [] + turns == turns;
    }
  }

  /** The turns an IP gets are those the trace of the scheduler tells of. */
  lemma {:induction false} TurnsAsTraced(s: S.State, script: seq<Instruction>, id: nat)
    ensures OutcomesOf(S.Run(s, Outcomes(script)).trace, id) == OutcomesOf(s.trace, id) + Outcomes(TurnsOf(s, script, id))
    decreases |script|
  {
    hide S.Step, S.Run, OutcomesOf;
    S.RunUnfolds(s, Outcomes(script));
    if script != [] && s.Running() {
      var t := S.Step(s, script[0].outcome);
      S.StepTraces(s, script[0].outcome);
      TurnsAsTraced(t, script[1..], id);
      TracedOnce(s.trace, S.Event(s.ids[s.i], script[0].outcome), TurnsOf(t, script[1..], id), script[0], id);
    }
  }

  /** The instructions an IP executes over any number of passes. */
  function TurnsOfAll(s: S.State, scripts: seq<seq<Instruction>>, id: nat): seq<Instruction>
    decreases |scripts|
  {
    if scripts == [] || !s.Over() then []
    else
      var start := S.StartPass(s.ids, s.highest);
      TurnsOf(start, scripts[0], id) + TurnsOfAll(S.Run(start, Outcomes(scripts[0])), scripts[1..], id)
  }

  lemma {:induction false} LivedTwice(s: Self, first: seq<Instruction>, second: seq<Instruction>, box: Box)
    requires s.Sound()
    ensures Lived(s, first + second, box) == Lived(Lived(s, first, box), second, box)
    decreases |first|
  {
    hide PerformedAll, Moved;
    if first == [] {
      assert first + second == second;
    } else {
      var acted := PerformedAll(s, first[0].effects, box);
      LivedTwice(if first[0].outcome.Die? then acted else Moved(acted, box), first[1..], second, box);
      assert (first + second)[1..] == first[1..] + second;
    }
  }

  /** An IP that is on the list before some passes and after them is there after the first. */
  lemma ListedNextPass(w: World, scripts: seq<seq<Instruction>>, box: Box, id: nat) returns (m: nat)
    requires w.Whole() && w.state.Over() && S.UniqueIds(w.state) && scripts != []
    requires id in w.state.ids && id in Passes(w, scripts, box).state.ids
    ensures var t := Rounds(NextPass(w), scripts[0], box);
      S.UniqueIds(t.state) && m < |t.selves| && t.state.ids[m] == id
  {
    hide S.Run, S.Step, Rounds, S.RunPasses;
    var start, t := NextPass(w), Rounds(NextPass(w), scripts[0], box);
    S.SameNames(w.state);
    RoundsSchedule(start, scripts[0], box);
    S.RunKeepsIdsUnique(start.state, Outcomes(scripts[0]));
    PassesSchedule(t, scripts[1..], box);
    S.PassesKeepIdsUnique(t.state, AllOutcomes(scripts[1..]));
    assert Passes(w, scripts, box) == Passes(t, scripts[1..], box);
    m :| m < |t.selves| && t.state.ids[m] == id;
  }

  /** The same over any number of passes. */
  lemma {:induction false} LivesAllItsTurns(w: World, scripts: seq<seq<Instruction>>, box: Box, k: nat, j: nat)
    requires w.Whole() && S.UniqueIds(w.state)
    requires k < |w.selves| && j < |Passes(w, scripts, box).selves|
    requires w.state.ids[k] == Passes(w, scripts, box).state.ids[j]
    requires w.selves[k].needMove || w.state.exited
    ensures Passes(w, scripts, box).selves[j] == Lived(w.selves[k], TurnsOfAll(w.state, scripts, w.state.ids[k]), box)
    decreases |scripts|
  {
    hide S.Run, S.Step, Rounds, TurnsOf, Lived;
    var id := w.state.ids[k];
    if scripts != [] && w.state.Over() {
      var start, t := NextPass(w), Rounds(NextPass(w), scripts[0], box);
      S.SameNames(w.state);
      RoundsSchedule(start, scripts[0], box);
      var m := ListedNextPass(w, scripts, box, id);
      LivesItsTurns(start, scripts[0], box, k, m);
      LivesAllItsTurns(t, scripts[1..], box, m, j);
      LivedTwice(w.selves[k], TurnsOf(start.state, scripts[0], id), TurnsOfAll(t.state, scripts[1..], id), box);
    } else {
      LivedOn(w.selves[k], Instruction(S.Tick, []), [], box);
    }
  }

  /** A pass of ordinary instructions: every IP executes one, from the top of the list down,
    * and moves one step. */
  lemma QuietPass(w: World, script: seq<Instruction>, box: Box)
    requires w.Whole() && |script| == |w.selves|
    requires forall e | 0 <= e < |script| :: script[e].outcome == S.Tick
    ensures var t := Rounds(NextPass(w), script, box);
      && t.state.Over() && t.state.ids == w.state.ids
      && forall k | 0 <= k < |w.selves| ::
           t.selves[k] == Moved(PerformedAll(w.selves[k], script[|w.selves| - 1 - k].effects, box), box)
  {
    QuietRounds(NextPass(w), script, box);
  }

  lemma {:induction false} QuietRounds(w: World, script: seq<Instruction>, box: Box)
    requires w.Whole() && !w.state.exited && |script| == w.state.i + 1 <= |w.selves|
    requires forall e | 0 <= e < |script| :: script[e].outcome == S.Tick
    ensures var t := Rounds(w, script, box);
      && t.state.Over() && t.state.ids == w.state.ids
      && forall k | 0 <= k < |w.selves| ::
           t.selves[k] == if k <= w.state.i then Moved(PerformedAll(w.selves[k], script[w.state.i - k].effects, box), box)
             else w.selves[k]
    decreases |script|
  {
    hide PerformedAll, Moved;
    if script != [] {
      QuietRounds(Round(w, script[0], box), script[1..], box);
    }
  }
}
