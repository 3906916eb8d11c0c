/** Instruction pointers and how they move: one step, the skipping of spaces and `;` by
  * the main loop, and the skipping `k` does for itself. */
module Ips {
  import opened Lahey
  import opened Probes
  import opened FungeSpace
  import opened Stacks
  import Z = ZeroTicks

  const SEMICOLON := Z.SEMICOLON

  /** The n-th position an IP takes, outside cells included. */
  function Trail(box: Box, pos: Vector, delta: Vector, n: nat): Vector {
    if n == 0 then pos else Forward(box, Trail(box, pos, delta, n - 1), delta)
  }

  /** What a skipping loop stops at: any non-space, or the closing `;`. */
  predicate Stops(closing: bool, cell: int) {
    if closing then cell == SEMICOLON else cell != SPACE
  }

  /** IPs can move without the bounds changing under them. */
  predicate Settled(space: Space)
    reads space`box, space`boundsExact
  {
    space.boundsExact || !space.BoundsTooLarge()
  }

  /** Bounds with which all moves so far can have been made: while they are not settled no IP
    * has moved yet, and any bounds serve. */
  predicate Serves(space: Space, b: Box)
    reads space`box, space`boundsExact
  {
    b == space.box || !Settled(space)
  }

  /** What instructions do to their own IP: pushing or popping a cell, a change of direction,
    * a jump, staying where it is at the end of the turn, `{`, `}` and `u`. */
  datatype Effect =
    Pushes(value: int) | Pops | Heads(delta: Vector) | Jumps(position: Vector) | Stays | Begins | Ends | Transfers

  /** What an instruction can change of its own IP; the stacks bottom first, the top one last. */
  datatype Self = Self(position: Vector, delta: Vector, storageOffset: Vector, stacks: seq<seq<int>>, needMove: bool) {
    predicate Sound() { stacks != [] }

    function Toss(): seq<int>
      requires Sound()
    {
      stacks[|stacks| - 1]
    }

    function Soss(): seq<int>
      requires |stacks| >= 2
    {
      stacks[|stacks| - 2]
    }

    /** The stacks once the count on top is popped. */
    function Counted(): (v: seq<seq<int>>)
      requires Sound()
      ensures |v| == |stacks|
    {
      TopPopped(stacks)
    }
  }

  function Performed(s: Self, effect: Effect, box: Box): (t: Self)
    requires s.Sound()
    ensures t.Sound()
  {
    match effect
    case Pushes(value) => s.(stacks := WithTop(s.stacks, s.Toss() + [value]))
    case Pops => s.(stacks := s.Counted())
    case Heads(d) => s.(delta := d)
    case Jumps(p) => s.(position := p)
    case Stays => s.(needMove := false)
    case Begins =>
      s.(stacks := Begun(s.Counted(), Popped(s.Toss()), s.storageOffset),
         storageOffset := Forward(box, s.position, s.delta), position := Probed(box, s.position, s.delta))
    case Ends =>
      if |s.stacks| == 1 then s.(delta := s.delta.Reversed())
      else
        var (v, offset) := Ended(s.Counted(), Popped(s.Toss()));
        s.(stacks := v, storageOffset := offset)
    case Transfers =>
      if |s.stacks| == 1 then s.(delta := s.delta.Reversed())
      else s.(stacks := Transferred(s.Counted(), Popped(s.Toss())))
  }

  /** The effects of one instruction, in order. */
  function PerformedAll(s: Self, effects: seq<Effect>, box: Box): (t: Self)
    requires s.Sound()
    ensures t.Sound()
    decreases |effects|
  {
    if effects == [] then s
    else Performed(PerformedAll(s, effects[..|effects| - 1], box), effects[|effects| - 1], box)
  }

  lemma OneMoreEffect(s: Self, effects: seq<Effect>, effect: Effect, box: Box)
    requires s.Sound()
    ensures PerformedAll(s, effects + [effect], box) == Performed(PerformedAll(s, effects, box), effect, box)
  {
    hide Performed;
    assert (effects + [effect])[..|effects|] == effects;
  }

  lemma NoEffects(s: Self, box: Box)
    requires s.Sound()
    ensures PerformedAll(s, [], box) == s
  {
  }

  /** Only `{` looks at the bounds. */
  lemma BoundsUnused(s: Self, effect: Effect, b: Box, c: Box)
    requires s.Sound() && !effect.Begins?
    ensures Performed(s, effect, b) == Performed(s, effect, c)
  {
    hide Begun, Ended, Transferred, Popped, TopPopped, WithTop;
  }

  /** The count on top of the stack is the item popped, and the others move up. */
  lemma CountPopped(v: seq<seq<int>>)
    requires v != []
    ensures var s, t := v[|v| - 1], TopPopped(v)[|v| - 1];
      && Popped(s) == ItemAt(s, 0) && SameFrom(t, 0, s, 1) && TopPopped(v)[..|v| - 1] == v[..|v| - 1]
  {
    assert TopPopped(v)[|v| - 1] == Dropped(v[|v| - 1], 1);
  }

  /** A cell pushed is on top until it is popped again. */
  lemma PushesAndPops(s: Self, x: int, box: Box)
    requires s.Sound()
    ensures var t, u := Performed(s, Pushes(x), box), Performed(s, Pops, box);
      && ItemAt(t.Toss(), 0) == x && SameFrom(t.Toss(), 1, s.Toss(), 0) && Performed(t, Pops, box) == s
      && SameFrom(u.Toss(), 0, s.Toss(), 1)
      && u == s.(stacks := u.stacks) && u.stacks[..|s.stacks| - 1] == s.stacks[..|s.stacks| - 1]
  {
    PushedAndPopped(s.stacks, x);
    CountPopped(s.stacks);
  }

  lemma SameTwice(s: seq<int>, i: nat, t: seq<int>, j: nat, u: seq<int>, k: nat)
    requires SameFrom(s, i, t, j) && SameFrom(t, 0, u, k)
    ensures SameFrom(s, i, u, j + k)
  {
    hide ItemAt;
    forall depth: nat | i <= depth
      ensures ItemAt(s, depth) == ItemAt(u, depth - i + (j + k))
    {
      assert ItemAt(t, depth - i + j) == ItemAt(u, depth - i + j - 0 + k);
    }
  }

  /** thread_forward: the step, or the end of a held-back one. */
  function Moved(s: Self, box: Box): (t: Self)
    ensures t.stacks == s.stacks
  {
    if s.needMove then s.(position := Forward(box, s.position, s.delta)) else s.(needMove := true)
  }

  /** `{` adds one stack, whose items are those below the count, as many as it says; the old
    * storage offset goes on the stack below with y on top; the new one is the cell after the
    * IP, which keeps its direction. */
  lemma BeginsBlock(s: Self, box: Box)
    requires s.Sound()
    ensures var t, count := Performed(s, Begins, box), ItemAt(s.Toss(), 0);
      && |t.stacks| == |s.stacks| + 1 && t.stacks[..|s.stacks| - 1] == s.stacks[..|s.stacks| - 1]
      && t.storageOffset == Forward(box, s.position, s.delta)
      && t.delta == s.delta && t.needMove == s.needMove
      && ItemAt(t.Soss(), 0) == s.storageOffset.y && ItemAt(t.Soss(), 1) == s.storageOffset.x
      && |t.Toss()| == (if count > 0 then count else 0)
      && (forall k: nat | k < count :: ItemAt(t.Toss(), k) == ItemAt(s.Toss(), k + 1))
      && (count >= 0 ==> SameFrom(t.Soss(), 2, s.Toss(), count + 1))
      && (forall depth: nat | 2 <= depth < 2 - count :: ItemAt(t.Soss(), depth) == 0)
      && (count < 0 ==> SameFrom(t.Soss(), 2 - count, s.Toss(), 1))
  {
    hide Begun, ItemAt, Popped, TopPopped, SameFrom, Forward, Probed;
    var t, count, v := Performed(s, Begins, box), ItemAt(s.Toss(), 0), s.Counted();
    CountPopped(s.stacks);
    BegunItems(v, count, s.storageOffset);
    assert t.stacks[..|s.stacks| - 1] == v[..|s.stacks| - 1];
    if count >= 0 {
      SameTwice(t.Soss(), 2, v[|v| - 1], count, s.Toss(), 1);
      ItemsBelow(v[|v| - 1], s.Toss());
    } else {
      SameTwice(t.Soss(), 2 - count, v[|v| - 1], 0, s.Toss(), 1);
    }
  }

  lemma ItemsBelow(t: seq<int>, s: seq<int>)
    requires SameFrom(t, 0, s, 1)
    ensures forall k: nat :: ItemAt(t, k) == ItemAt(s, k + 1)
  {
    hide ItemAt;
  }

  /** `}` takes one stack away and restores the storage offset from the one below, y from its
    * top, which then gets as many items as the count says, or loses as many for a negative
    * count. With one stack only it reflects. */
  lemma EndsBlock(s: Self, box: Box)
    requires s.Sound()
    ensures var t, count := Performed(s, Ends, box), ItemAt(s.Toss(), 0);
      && t.position == s.position && t.needMove == s.needMove
      && (|s.stacks| == 1 ==> t == s.(delta := Vector(-s.delta.x, -s.delta.y)))
      && (|s.stacks| > 1 ==>
            && t.delta == s.delta
            && |t.stacks| == |s.stacks| - 1 && t.stacks[..|s.stacks| - 2] == s.stacks[..|s.stacks| - 2]
            && t.storageOffset == Vector(ItemAt(s.Soss(), 1), ItemAt(s.Soss(), 0))
            && (forall k: nat | k < count :: ItemAt(t.Toss(), k) == ItemAt(s.Toss(), k + 1))
            && (count >= 0 ==> SameFrom(t.Toss(), count, s.Soss(), 2))
            && (count < 0 ==> SameFrom(t.Toss(), 0, s.Soss(), 2 - count)))
  {
    if |s.stacks| > 1 {
      hide Ended, ItemAt, Popped, TopPopped, SameFrom;
      var count, v := ItemAt(s.Toss(), 0), s.Counted();
      CountPopped(s.stacks);
      assert v[..|v| - 1][..|v| - 2] == v[..|v| - 2] && s.stacks[..|v| - 1][..|v| - 2] == s.stacks[..|v| - 2];
      assert v[..|v| - 1][|v| - 2] == v[|v| - 2] && s.stacks[..|v| - 1][|v| - 2] == s.stacks[|v| - 2];
      EndedItems(v, count);
      ItemsBelow(v[|v| - 1], s.Toss());
    }
  }

  /** `u` moves as many items as the count says from the second stack to the top one, the one
    * moved last on top, or the other way for a negative count. With one stack only it
    * reflects. */
  lemma TransfersCells(s: Self, box: Box)
    requires s.Sound()
    ensures var t, count, toss := Performed(s, Transfers, box), ItemAt(s.Toss(), 0), Dropped(s.Toss(), 1);
      && (|s.stacks| == 1 ==> t == s.(delta := Vector(-s.delta.x, -s.delta.y)))
      && (|s.stacks| > 1 ==>
            && t == s.(stacks := t.stacks)
            && |t.stacks| == |s.stacks| && t.stacks[..|s.stacks| - 2] == s.stacks[..|s.stacks| - 2]
            && (count >= 0 ==> MovedOver(s.Soss(), toss, t.Soss(), t.Toss(), count))
            && (count <= 0 ==> MovedOver(toss, s.Soss(), t.Toss(), t.Soss(), -count)))
  {
    if |s.stacks| > 1 {
      hide Transferred, ItemAt, Popped, MovedOver, SameFrom, Dropped;
      var count, v := ItemAt(s.Toss(), 0), s.Counted();
      CountPopped(s.stacks);
      assert v[..|v| - 1][..|v| - 2] == v[..|v| - 2] && s.stacks[..|v| - 1][..|v| - 2] == s.stacks[..|v| - 2];
      assert v[..|v| - 1][|v| - 2] == v[|v| - 2] && s.stacks[..|v| - 1][|v| - 2] == s.stacks[|v| - 2];
      TransferredItems(v, count);
    }
  }

  lemma FourEffects(s: Self, a: Effect, b: Effect, c: Effect, d: Effect, box: Box)
    requires s.Sound()
    ensures PerformedAll(s, [a, b, c, d], box) ==
      Performed(Performed(Performed(Performed(s, a, box), b, box), c, box), d, box)
  {
    hide Performed;
    NoEffects(s, box);
    OneMoreEffect(s, [], a, box);
    OneMoreEffect(s, [a], b, box);
    OneMoreEffect(s, [a, b], c, box);
    OneMoreEffect(s, [a, b, c], d, box);
    assert [] + [a] == [a] && [a] + [b] == [a, b] && [a, b] + [c] == [a, b, c] && [a, b, c] + [d] == [a, b, c, d];
  }

  /** Pushing n and `{`, then pushing n and `}`: all but the position comes back, the top stack
    * up to zeros below its bottom. */
  lemma BlockUndone(s: Self, n: int, box: Box)
    requires s.Sound()
    ensures var t := PerformedAll(s, [Pushes(n), Begins, Pushes(n), Ends], box);
      && t == s.(stacks := t.stacks, position := Probed(box, s.position, s.delta))
      && |t.stacks| == |s.stacks| && t.stacks[..|s.stacks| - 1] == s.stacks[..|s.stacks| - 1]
      && SameItems(t.Toss(), s.Toss()) && (n <= |s.Toss()| ==> t.stacks == s.stacks)
  {
    hide Begun, Ended, Transferred, Popped, SameItems, TopPopped, WithTop, Forward, Probed, PerformedAll;
    FourEffects(s, Pushes(n), Begins, Pushes(n), Ends, box);
    var v := s.stacks;
    PushedAndPopped(v, n);
    EndUndoesBegin(v, n, s.storageOffset);
    PushedAndPopped(Begun(v, n, s.storageOffset), n);
  }

  /** Pushing n and `u`, then pushing -n and `u`, with two stacks or more: nothing changes but
    * zeros below the bottoms of two stacks. */
  lemma TransferBack(s: Self, n: int, box: Box)
    requires |s.stacks| >= 2
    ensures var t := PerformedAll(s, [Pushes(n), Transfers, Pushes(-n), Transfers], box);
      && t == s.(stacks := t.stacks) && |t.stacks| == |s.stacks|
      && t.stacks[..|s.stacks| - 2] == s.stacks[..|s.stacks| - 2]
      && SameItems(t.Soss(), s.Soss()) && SameItems(t.Toss(), s.Toss())
  {
    hide Begun, Ended, Transferred, Popped, SameItems, TopPopped, WithTop, Forward, Probed, PerformedAll;
    FourEffects(s, Pushes(n), Transfers, Pushes(-n), Transfers, box);
    PushedAndPopped(s.stacks, n);
    TransferUndone(s.stacks, n);
    PushedAndPopped(Transferred(s.stacks, n), -n);
  }

  class InstructionPointer {
    var position: Vector
    var delta: Vector
    var storageOffset: Vector
    var needMove: bool
    /** Whether the mode is ipmSTRING. */
    var inString: bool
    var stringLastWasSpace: bool
    var subrIsRelative: bool
    var id: nat
    var stackstack: StackStack

    ghost function Own(): Self
      reads this, stackstack`view
    {
      Self(position, delta, storageOffset, stackstack.view, needMove)
    }

    /** ip_create_in_place */
    constructor ()
      ensures position == Vector(0, 0) && delta == Vector(1, 0) && storageOffset == Vector(0, 0)
      ensures !inString && !stringLastWasSpace && !subrIsRelative
      ensures needMove && id == 0 && fresh(stackstack) && fresh(stackstack.Repr)
      ensures stackstack.Valid() && stackstack.view == [[]] && this !in stackstack.Repr
    {
      position, delta, storageOffset := Vector(0, 0), Vector(1, 0), Vector(0, 0);
      needMove, id := true, 0;
      inString, stringLastWasSpace, subrIsRelative := false, false, false;
      stackstack := new StackStack();
    }

    /** ip_duplicate_in_place: everything is copied, the stacks in depth. */
    constructor Duplicate(other: InstructionPointer)
      requires other.stackstack.Valid()
      ensures position == other.position && delta == other.delta && storageOffset == other.storageOffset
      ensures needMove == other.needMove && id == other.id && inString == other.inString
      ensures stringLastWasSpace == other.stringLastWasSpace && subrIsRelative == other.subrIsRelative
      ensures stackstack.Valid() && stackstack.view == other.stackstack.view
      ensures fresh(stackstack) && fresh(stackstack.Repr) && this !in stackstack.Repr
    {
      position, delta, storageOffset := other.position, other.delta, other.storageOffset;
      needMove, id, inString := other.needMove, other.id, other.inString;
      stringLastWasSpace, subrIsRelative := other.stringLastWasSpace, other.subrIsRelative;
      stackstack := new StackStack.Duplicate(other.stackstack);
    }

    /** ip_forward */
    method Advance(space: Space)
      requires space.Valid()
      modifies this`position, space`box, space`boundsExact
      ensures space.Valid() && Settled(space) && position == Forward(space.box, old(position), delta)
      ensures old(Settled(space)) ==> space.box == old(space.box) && space.boundsExact == old(space.boundsExact)
    {
      position := position.Plus(delta);
      position := space.WrapPosition(position, delta);
    }

    /** ip_reverse */
    method Reverse()
      modifies this`delta
      ensures delta == old(delta).Reversed()
    {
      delta := delta.Reversed();
    }

    /** thread_forward */
    method ThreadForward(space: Space)
      requires space.Valid()
      modifies this`position, this`needMove, space`box, space`boundsExact
      ensures space.Valid() && needMove && (old(needMove) ==> Settled(space))
      ensures position == if old(needMove) then Forward(space.box, old(position), delta) else old(position)
      ensures !old(needMove) ==> space.box == old(space.box) && space.boundsExact == old(space.boundsExact)
      ensures old(Settled(space)) ==> space.box == old(space.box) && space.boundsExact == old(space.boundsExact)
    {
      if needMove {
        Advance(space);
      } else {
        needMove := true;
      }
    }

    /** How `{` finds the cell after it: one step forward, and one back that need not undo it. */
    method FindStorage(space: Space) returns (offset: Vector)
      requires space.Valid()
      modifies this`position, space`box, space`boundsExact
      ensures space.Valid() && Settled(space)
      ensures old(Settled(space)) ==> space.box == old(space.box) && space.boundsExact == old(space.boundsExact)
      ensures offset == Forward(space.box, old(position), delta)
      ensures position == Probed(space.box, old(position), delta)
    {
      hide Forward, Wrap, Space.Get, Space.Counted, IsHullOf, HullIsFound;
      Advance(space);
      offset := position;
      position := position.Minus(delta);
      position := space.WrapPosition(position, delta);
    }

    /** The `{` instruction. */
    method BeginBlock(space: Space)
      requires stackstack.Valid() && space.Valid() && space.Repr() !! stackstack.Repr && this !in stackstack.Repr
      modifies this`position, this`storageOffset, stackstack.Repr, space`box, space`boundsExact
      ensures stackstack.Valid() && fresh(stackstack.Repr - old(stackstack.Repr)) && space.Valid() && Settled(space)
      ensures old(Settled(space)) ==> space.box == old(space.box) && space.boundsExact == old(space.boundsExact)
      ensures var v := old(stackstack.view);
        stackstack.view == Begun(TopPopped(v), Popped(v[|v| - 1]), old(storageOffset))
      ensures storageOffset == Forward(space.box, old(position), delta)
      ensures position == Probed(space.box, old(position), delta)
    {
      hide Forward, Probed, Begun, Popped, Space.Valid, StackStack.Valid;
      TopKnown(stackstack);
      var count := stackstack.PopTop();
      var pos := FindStorage(space);
      stackstack.Begin(count, storageOffset);
      storageOffset := pos;
    }

    /** The `}` instruction: reflects when there is one stack only. */
    method EndBlock()
      requires stackstack.Valid() && this !in stackstack.Repr
      modifies this`delta, this`storageOffset, stackstack.Repr
      ensures stackstack.Valid() && fresh(stackstack.Repr - old(stackstack.Repr))
      ensures var v := old(stackstack.view);
        if |v| == 1 then stackstack.view == v && storageOffset == old(storageOffset) && delta == old(delta).Reversed()
        else (stackstack.view, storageOffset) == Ended(TopPopped(v), Popped(v[|v| - 1])) && delta == old(delta)
    {
      hide Ended, Popped, StackStack.Valid, Vector.Reversed;
      TopKnown(stackstack);
      if |stackstack.stacks| == 1 {
        Reverse();
      } else {
        var count := stackstack.PopTop();
        storageOffset := stackstack.End(count);
      }
    }

    /** The `u` instruction: reflects when there is one stack only. */
    method TransferCells()
      requires stackstack.Valid() && this !in stackstack.Repr
      modifies this`delta, stackstack.Repr
      ensures stackstack.Valid() && fresh(stackstack.Repr - old(stackstack.Repr))
      ensures var v := old(stackstack.view);
        if |v| == 1 then stackstack.view == v && delta == old(delta).Reversed()
        else stackstack.view == Transferred(TopPopped(v), Popped(v[|v| - 1])) && delta == old(delta)
    {
      hide Transferred, Popped, StackStack.Valid, Vector.Reversed;
      TopKnown(stackstack);
      if |stackstack.stacks| == 1 {
        Reverse();
      } else {
        var count := stackstack.PopTop();
        stackstack.Transfer(count);
      }
    }

    /** One effect of an instruction on its own IP. Its stacks stay sound and grow by new
      * storage only, and only `{` can change the bounds of the space. */
    method Perform(effect: Effect, space: Space)
      requires stackstack.Valid() && space.Valid() && space.Repr() !! stackstack.Repr && this !in stackstack.Repr
      modifies this`position, this`delta, this`storageOffset, this`needMove, stackstack.Repr, space`box, space`boundsExact
      ensures stackstack.Valid() && fresh(stackstack.Repr - old(stackstack.Repr)) && space.Valid()
      ensures old(Own()).Sound() && Own() == Performed(old(Own()), effect, space.box)
      ensures effect.Heads? ==> delta == effect.delta && position == old(position)
      ensures effect.Jumps? ==> position == effect.position && delta == old(delta)
      ensures effect.Stays? ==> !needMove && position == old(position)
      ensures old(Settled(space)) || !effect.Begins? ==>
        space.box == old(space.box) && space.boundsExact == old(space.boundsExact)
      ensures effect.Begins? ==> Settled(space)
    {
      hide Space.Valid, StackStack.Valid, Begun, Ended, Transferred, Popped, TopPopped, WithTop, Forward, Probed,
           Settled, Vector.Reversed;
      TopKnown(stackstack);
      match effect
      case Pushes(value) => stackstack.PushTop(value);
      case Pops => var value := stackstack.PopTop();
      case Heads(d) => delta := d;
      case Jumps(p) => position := p;
      case Stays => needMove := false;
      case Begins => BeginBlock(space);
      case Ends => EndBlock();
      case Transfers => TransferCells();
    }

    /** The do-while loops of the space and `;` instructions: forward until the stopping
      * cell. Started at cell e of the box, or on the outside cell just before e, on a line
      * that holds a stopping cell, it ends at the first one in the order of Lahey space,
      * within one round of the line and at most two steps a cell. */
    method ForwardUntil(space: Space, closing: bool, ghost e: Vector, ghost t: int)
      returns (ghost k: int, ghost steps: nat)
      requires space.Valid() && Settled(space) && !delta.IsZero() && OnCourse(space.box, position, delta, e)
      requires space.box.Has(e.Back(t, delta)) && Stops(closing, space.Get(e.Back(t, delta)))
      modifies this`position, space`box, space`boundsExact
      ensures space.Valid() && space.box == old(space.box) && space.boundsExact == old(space.boundsExact)
      ensures FirstAhead(old(position), e) <= k <= LineLength(space.box, e, delta)
      ensures position == Walk(space.box, e, delta, k) && Stops(closing, space.Get(position))
      ensures forall i: nat | FirstAhead(old(position), e) <= i < k ::
        !Stops(closing, space.Get(Walk(space.box, e, delta, i)))
      ensures steps <= 2 * (k + 1 - FirstAhead(old(position), e))
    {
      hide Forward, LineLength, Vector.Back, Space.Valid, Space.Get, Next;
      HasCells(space);
      ghost var box, first := space.box, FirstAhead(position, e);
      ghost var goal := WalkReachesLine(box, e, delta, t);
      EntersAt(box, position, delta, e);
      WalkStarts(box, e, delta);
      ghost var outside := first == 0;
      k, steps := first - 1, 0;
      while true
        invariant space.Valid() && space.box == box && space.boundsExact == old(space.boundsExact)
        invariant first - 1 <= k <= goal && (outside ==> k < goal)
        invariant if outside then !box.Has(position) && Forward(box, position, delta) == Walk(box, e, delta, k + 1)
                  else k >= 0 && position == Walk(box, e, delta, k)
        invariant forall i: nat | first <= i <= k :: !Stops(closing, space.Get(Walk(box, e, delta, i)))
        invariant steps <= 2 * (k + 1 - first) + if outside then 1 else 0
        decreases 2 * (goal - k) + if outside then 0 else 1
      {
        if !outside {
          ForwardStep(box, position, delta);
          WalkSteps(box, e, delta, k);
        }
        Advance(space);
        steps := steps + 1;
        if outside || box.Has(position) {
          k := k + 1;
        }
        outside := !box.Has(position);
        if Stops(closing, space.Get(position)) { break; }
      }
    }

    /** The space instruction, in the box or on the outside cell a wrap has led to: on to the
      * next non-space, where the IP then stays. */
    method ExecuteSpace(space: Space, ghost e: Vector, ghost t: int) returns (ghost k: int)
      requires space.Valid() && Settled(space) && !delta.IsZero() && OnCourse(space.box, position, delta, e)
      requires space.box.Has(e.Back(t, delta)) && space.Get(e.Back(t, delta)) != SPACE
      modifies this`position, this`needMove, space`box, space`boundsExact
      ensures space.Valid() && space.box == old(space.box) && !needMove
      ensures FirstAhead(old(position), e) <= k <= LineLength(space.box, e, delta)
      ensures position == Walk(space.box, e, delta, k) && space.Get(position) != SPACE
      ensures forall i: nat | FirstAhead(old(position), e) <= i < k ::
        space.Get(Walk(space.box, e, delta, i)) == SPACE
    {
      ghost var steps;
      k, steps := ForwardUntil(space, false, e, t);
      needMove := false;
    }

    /** The `;` instruction: on to the next `;`. It always ends, at the latest back here. */
    method ExecuteSemicolon(space: Space) returns (ghost k: int)
      requires space.Valid() && Settled(space) && space.box.Has(position) && !delta.IsZero()
      requires space.Get(position) == SEMICOLON
      modifies this`position, space`box, space`boundsExact
      ensures space.Valid() && space.box == old(space.box)
      ensures 1 <= k <= LineLength(space.box, old(position), delta)
      ensures position == Walk(space.box, old(position), delta, k) && space.Get(position) == SEMICOLON
      ensures forall i: nat | 1 <= i < k :: space.Get(Walk(space.box, old(position), delta, i)) != SEMICOLON
    {
      ghost var steps;
      BackOneMore(position, 0, delta);
      k, steps := ForwardUntil(space, true, position, 0);
    }

    /** find_next_instr, with the IP at index i of the trail c, on a space or `;`. */
    method FindNextInstr(space: Space, injump0: bool, ghost start: Vector, ghost c: seq<int>, ghost i0: nat)
      requires space.Valid() && Settled(space)
      requires OnTrail(space, start, delta, c) && position == Trail(space.box, start, delta, i0)
      requires Z.FindNextInstr(c, i0, injump0).Some?
      modifies this`position, space`box, space`boundsExact
      ensures space.Valid() && Settled(space) && space.box == old(space.box)
      ensures position == Trail(space.box, start, delta, Z.FindNextInstr(c, i0, injump0).value)
    {
      hide Space.Valid, Forward, Space.Get;
      ghost var i := i0;
      var injump := injump0;
      while true
        invariant space.Valid() && Settled(space) && space.box == old(space.box)
        invariant i < |c| && position == Trail(space.box, start, delta, i) && OnTrail(space, start, delta, c)
        invariant Z.FindNextInstr(c, i, injump) == Z.FindNextInstr(c, i0, injump0)
        decreases |c| - i
      {
        Advance(space);
        i := i + 1;
        var kInstr := space.Get(position);
        if kInstr == SEMICOLON {
          injump := !injump;
        } else if kInstr != SPACE && !injump {
          break;
        }
      }
    }

    /** How `k` fetches its instruction: move on, and skip if that is a space or `;`. The
      * cell reached is the one the main loop would next run with a tick. */
    method Fetch(space: Space, ghost c: seq<int>)
      requires space.Valid() && Settled(space)
      requires OnTrail(space, position, delta, c) && Z.MainLoop(c, 1).Some?
      modifies this`position, space`box, space`boundsExact
      ensures space.Valid() && Settled(space) && space.box == old(space.box)
      ensures position == Trail(space.box, old(position), delta, Z.MainLoop(c, 1).value)
    {
      hide Space.Valid, Forward, Space.Get;
      ghost var start := position;
      Z.FetchIsMainLoop(c, 1);
      Advance(space);
      assert position == Trail(space.box, start, delta, 1);
      var kInstr := space.Get(position);
      if kInstr == SPACE || kInstr == SEMICOLON {
        FindNextInstr(space, kInstr == SEMICOLON, start, c, 1);
      }
    }

    /** `k` and the main loop agree: the cell from which `k` takes its instruction is the cell
      * at which the main loop, moving on from `k`, would next run one with a tick. */
    method FetchAsMainLoop(space: Space, other: InstructionPointer, ghost c: seq<int>)
      requires space.Valid() && Settled(space) && other != this && other.needMove
      requires other.position == position && other.delta == delta
      requires OnTrail(space, position, delta, c) && Z.MainLoop(c, 1).Some?
      modifies this`position, other`position, other`needMove, space`box, space`boundsExact
      ensures space.Valid() && space.box == old(space.box)
      ensures other.position == position
      ensures position == Trail(space.box, old(position), delta, Z.MainLoop(c, 1).value)
    {
      hide Space.Valid, Forward, Space.Get, Trail;
      HasCells(space);
      ghost var start := position;
      FromSecondCell(space, start, delta, c);
      Fetch(space, c);
      other.ThreadForward(space);
      other.RunZeroTicks(space, c[1..]);
    }

    /** The do-while loop of the space and `;` instructions, seen along the trail. */
    method SkipOnTrail(space: Space, closing: bool, ghost start: Vector, ghost c: seq<int>, ghost i0: nat)
      requires space.Valid() && Settled(space)
      requires OnTrail(space, start, delta, c) && position == Trail(space.box, start, delta, i0)
      requires StopIndex(closing, c, i0).Some?
      modifies this`position, space`box, space`boundsExact
      ensures space.Valid() && Settled(space) && space.box == old(space.box)
      ensures position == Trail(space.box, start, delta, StopIndex(closing, c, i0).value)
    {
      hide Space.Valid, Forward, Space.Get;
      ghost var i := i0;
      while true
        invariant space.Valid() && Settled(space) && space.box == old(space.box)
        invariant i < |c| && position == Trail(space.box, start, delta, i) && OnTrail(space, start, delta, c)
        invariant StopIndex(closing, c, i) == StopIndex(closing, c, i0)
        decreases |c| - i
      {
        Advance(space);
        i := i + 1;
        if Stops(closing, space.Get(position)) { break; }
      }
    }

    /** The turns the main loop gives an IP before its next tick. */
    method RunZeroTicks(space: Space, ghost c: seq<int>)
      requires space.Valid() && Settled(space) && needMove
      requires OnTrail(space, position, delta, c) && Z.MainLoop(c, 0).Some?
      modifies this`position, this`needMove, space`box, space`boundsExact
      ensures space.Valid() && space.box == old(space.box) && needMove
      ensures position == Trail(space.box, old(position), delta, Z.MainLoop(c, 0).value)
    {
      hide Forward, Space.Get, Space.Counted, IsHullOf, Box.Has;
      ghost var start, i := position, 0;
      var opcode := space.Get(position);
      while opcode == SPACE || opcode == SEMICOLON
        invariant space.Valid() && Settled(space) && space.box == old(space.box) && needMove
        invariant 0 <= i < |c| && opcode == c[i] && position == Trail(space.box, start, delta, i)
        invariant OnTrail(space, start, delta, c)
        invariant Z.MainLoop(c, i) == Z.MainLoop(c, 0)
        decreases |c| - i
      {
        SkipOnTrail(space, opcode == SEMICOLON, start, c, i);
        ghost var j := StopIndex(opcode == SEMICOLON, c, i).value;
        if opcode == SPACE {
          needMove := false;
        }
        i := if opcode == SPACE then j else j + 1;
        ThreadForward(space);
        opcode := space.Get(position);
      }
    }
  }

  lemma TopKnown(s: StackStack)
    requires s.Valid()
    ensures 0 < |s.stacks| == |s.view|
  {
  }

  lemma PushedAndPopped(v: seq<seq<int>>, n: int)
    requires v != []
    ensures var w := WithTop(v, v[|v| - 1] + [n]); TopPopped(w) == v && Popped(w[|v| - 1]) == n
  {
    assert v[..|v| - 1] + [v[|v| - 1]] == v;
    assert WithTop(v, v[|v| - 1] + [n])[..|v| - 1] == v[..|v| - 1];
  }

  /** The trail from the second cell of a trail on, and what the main loop finds there. */
  lemma FromSecondCell(space: Space, start: Vector, delta: Vector, c: seq<int>)
    requires space.Valid() && OnTrail(space, start, delta, c) && Z.MainLoop(c, 1).Some?
    ensures OnTrail(space, Forward(space.box, start, delta), delta, c[1..])
    ensures Z.MainLoop(c[1..], 0).Some? && Z.MainLoop(c, 1).value == Z.MainLoop(c[1..], 0).value + 1
    ensures Trail(space.box, Forward(space.box, start, delta), delta, Z.MainLoop(c[1..], 0).value)
      == Trail(space.box, start, delta, Z.MainLoop(c, 1).value)
  {
    hide Forward, Space.Get, Space.Valid, Trail, Z.MainLoop;
    HasCells(space);
    Z.MainLoopShifts(c, 1);
    forall n: nat | n < |c[1..]|
      ensures c[1..][n] == space.Get(Trail(space.box, Forward(space.box, start, delta), delta, n))
    {
      TrailShifts(space.box, start, delta, n);
      assert c[1..][n] == c[n + 1];
    }
    TrailShifts(space.box, start, delta, Z.MainLoop(c[1..], 0).value);
  }

  lemma {:induction false} TrailShifts(box: Box, start: Vector, delta: Vector, n: nat)
    ensures Trail(box, Forward(box, start, delta), delta, n) == Trail(box, start, delta, n + 1)
  {
    hide Forward;
    if n > 0 {
      TrailShifts(box, start, delta, n - 1);
    } else {
      assert Trail(box, start, delta, 0) == start;
    }
  }

  /** An IP is at cell e of the box, or on the outside cell from which its next step enters
    * the box at e. */
  predicate OnCourse(box: Box, pos: Vector, delta: Vector, e: Vector) {
    box.Has(e) && (pos == e || (pos == e.Minus(delta) && !box.Has(pos)))
  }

  /** The first of the cells e, the one after e, and so on that an IP at pos has before it. */
  function FirstAhead(pos: Vector, e: Vector): nat { if pos == e then 1 else 0 }

  /** Every step from inside the box leaves an IP on course for the next cell. */
  lemma StepsStayOnCourse(box: Box, c: Vector, delta: Vector)
    requires box.Has(c) && !delta.IsZero()
    ensures OnCourse(box, Forward(box, c, delta), delta, Next(box, c, delta))
  {
    hide Forward, Next;
    ForwardStep(box, c, delta);
  }

  lemma EntersAt(box: Box, pos: Vector, delta: Vector, e: Vector)
    requires OnCourse(box, pos, delta, e)
    ensures pos != e ==> Forward(box, pos, delta) == e
  {
    assert e.Minus(delta).Plus(delta) == e;
  }

  lemma WalkStarts(box: Box, e: Vector, delta: Vector)
    requires box.Has(e) && !delta.IsZero()
    ensures Walk(box, e, delta, 0) == e
  {
  }

  lemma WalkSteps(box: Box, e: Vector, delta: Vector, k: nat)
    requires box.Has(e) && !delta.IsZero()
    ensures Walk(box, e, delta, k + 1) == Next(box, Walk(box, e, delta, k), delta)
  {
  }

  /** Where a skipping loop that starts at index i of a trail stops. */
  function StopIndex(closing: bool, c: seq<int>, i: nat): Z.Option<nat> {
    if closing then Z.NextSemicolon(c, i + 1) else Z.NextNonSpace(c, i + 1)
  }

  /** c is what an IP starting at `start` reads along its trail. */
  ghost predicate OnTrail(space: Space, start: Vector, delta: Vector, c: seq<int>)
    reads space`box, space`entries, space.cells
  {
    && space.cells.Length == STATIC_X * STATIC_Y
    && forall j: nat | j < |c| :: c[j] == space.Get(Trail(space.box, start, delta, j))
  }
}
