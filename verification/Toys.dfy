/** The rectangle instructions of the TOYS fingerprint: copies and moves whose source and
  * target may overlap, and the transfer of a matrix by way of the stack. */
module Toys {
  import opened Lahey
  import opened AxisCounts
  import opened FungeSpace
  import opened Stacks
  import opened Ips

  /** Two rectangles of size d, one shifted against the other, have a cell in common. */
  predicate Overlap(d: Vector, shift: Vector) {
    -d.x < shift.x < d.x && -d.y < shift.y < d.y
  }

  /** q comes before p when the rectangle is visited row by row, upwards in low order and
    * downwards otherwise. */
  predicate Precedes(low: bool, q: Vector, p: Vector) {
    if low then q.y < p.y || (q.y == p.y && q.x < p.x)
    else q.y > p.y || (q.y == p.y && q.x > p.x)
  }

  /** Copying by this shift reads cells that were written before. */
  predicate Chases(low: bool, shift: Vector) {
    Precedes(low, Vector(0, 0), shift)
  }

  /** Where in the source the value for cell p of the target came from: a copy that chases
    * its own target reads what it wrote. */
  function Origin(low: bool, d: Vector, shift: Vector, p: Vector): Vector
    decreases if low then p.y else d.y - p.y, if low then p.x else d.x - p.x
  {
    if InRect(d, p) && Chases(low, shift) && InRect(d, p.Minus(shift))
    then Origin(low, d, shift, p.Minus(shift)) else p
  }

  ghost function CopyAt(f: Plane, low: bool, o: Vector, d: Vector, t: Vector, w: Vector): int {
    if InRect(d, w.Minus(t)) then f[o.Plus(Origin(low, d, t.Minus(o), w.Minus(t)))] else f[w]
  }

  ghost function MoveAt(f: Plane, low: bool, o: Vector, d: Vector, t: Vector, w: Vector): int {
    if InRect(d, w.Minus(o)) && !(Chases(!low, t.Minus(o)) && InRect(d, w.Minus(t))) then SPACE
    else CopyAt(f, low, o, d, t, w)
  }

  /** All cells at once, as memmove would. */
  ghost function SimultaneousCopyAt(f: Plane, o: Vector, d: Vector, t: Vector, w: Vector): int {
    if InRect(d, w.Minus(t)) then f[o.Plus(w.Minus(t))] else f[w]
  }

  /** The simultaneous move leaves blank exactly the source outside the target. */
  ghost function SimultaneousMoveAt(f: Plane, o: Vector, d: Vector, t: Vector, w: Vector): int {
    if InRect(d, w.Minus(t)) then f[o.Plus(w.Minus(t))]
    else if InRect(d, w.Minus(o)) then SPACE else f[w]
  }

  ghost predicate CopiesSimultaneously(low: bool, o: Vector, d: Vector, t: Vector) {
    forall f: Plane, w: Vector :: CopyAt(f, low, o, d, t, w) == SimultaneousCopyAt(f, o, d, t, w)
  }

  ghost predicate MovesSimultaneously(low: bool, o: Vector, d: Vector, t: Vector) {
    forall f: Plane, w: Vector :: MoveAt(f, low, o, d, t, w) == SimultaneousMoveAt(f, o, d, t, w)
  }

  /** A first cell of the rectangle that is covered by its own shift. */
  function Covered(d: Vector, shift: Vector): (p: Vector)
    requires Overlap(d, shift)
    ensures InRect(d, p) && InRect(d, p.Minus(shift))
  {
    Vector(if shift.x > 0 then shift.x else 0, if shift.y > 0 then shift.y else 0)
  }

  /** The values come from an earlier cell of the same rectangle. */
  lemma {:induction false} OriginPrecedes(low: bool, d: Vector, shift: Vector, p: Vector)
    requires InRect(d, p)
    ensures InRect(d, Origin(low, d, shift, p))
    ensures Origin(low, d, shift, p) == p || Precedes(low, Origin(low, d, shift, p), p)
    decreases if low then p.y else d.y - p.y, if low then p.x else d.x - p.x
  {
    if Chases(low, shift) && InRect(d, p.Minus(shift)) {
      OriginPrecedes(low, d, shift, p.Minus(shift));
    }
  }

  lemma OriginMoves(low: bool, d: Vector, shift: Vector, p: Vector)
    requires InRect(d, p) && InRect(d, p.Minus(shift)) && Chases(low, shift)
    ensures Origin(low, d, shift, p) != p
  {
    OriginPrecedes(low, d, shift, p.Minus(shift));
  }

  function OnlyAt(c: Vector, w: Vector): int { if w == c then 1 else SPACE }

  /** The plane that is blank but for one cell. */
  ghost function Only(c: Vector): Plane {
    imap w: Vector | true :: OnlyAt(c, w)
  }

  /** Whatever the cells hold, a copy gives what the simultaneous copy gives; this is so
    * exactly when the target is not ahead of the source in the order of the visit, or the
    * rectangles do not overlap. */
  lemma CopyExactness(low: bool, o: Vector, d: Vector, t: Vector)
    requires d.x > 0 && d.y > 0
    ensures CopiesSimultaneously(low, o, d, t) <==> !Chases(low, t.Minus(o)) || !Overlap(d, t.Minus(o))
  {
    var shift := t.Minus(o);
    if Chases(low, shift) && Overlap(d, shift) {
      var p := Covered(d, shift);
      OriginMoves(low, d, shift, p);
      assert CopyAt(Only(o.Plus(p)), low, o, d, t, t.Plus(p)) != SimultaneousCopyAt(Only(o.Plus(p)), o, d, t, t.Plus(p));
    }
  }

  /** A move needs more: the target must be strictly behind, or apart. */
  lemma MoveExactness(low: bool, o: Vector, d: Vector, t: Vector)
    requires d.x > 0 && d.y > 0
    ensures MovesSimultaneously(low, o, d, t) <==> Chases(!low, t.Minus(o)) || !Overlap(d, t.Minus(o))
  {
    var shift := t.Minus(o);
    if !Chases(!low, shift) && Overlap(d, shift) {
      var w := o.Plus(Covered(d, shift));
      var f := Only(o.Plus(w.Minus(t)));
      assert w.Minus(o) == Covered(d, shift) && w.Minus(t) == Covered(d, shift).Minus(shift);
      assert MoveAt(f, low, o, d, t, w) != SimultaneousMoveAt(f, o, d, t, w);
    }
  }

  // ----- one cell at a time

  /** The cells of the rectangle visited before position (x, y). */
  predicate Visited(low: bool, d: Vector, x: int, y: int, p: Vector) {
    InRect(d, p) && Precedes(low, p, Vector(x, y))
  }

  ghost function CopySoFar(f: Plane, low: bool, o: Vector, d: Vector, t: Vector, x: int, y: int, w: Vector): int {
    if Visited(low, d, x, y, w.Minus(t)) then f[o.Plus(Origin(low, d, t.Minus(o), w.Minus(t)))] else f[w]
  }

  ghost function MoveSoFar(f: Plane, low: bool, o: Vector, d: Vector, t: Vector, x: int, y: int, w: Vector): int {
    if Visited(low, d, x, y, w.Minus(o)) && !(Chases(!low, t.Minus(o)) && Visited(low, d, x, y, w.Minus(t))) then SPACE
    else CopySoFar(f, low, o, d, t, x, y, w)
  }

  /** What copying reads at p: the cell an earlier step wrote, or the original one. */
  lemma CopyReads(f: Plane, low: bool, o: Vector, d: Vector, t: Vector, p: Vector)
    requires InRect(d, p)
    ensures CopySoFar(f, low, o, d, t, p.x, p.y, o.Plus(p)) == f[o.Plus(Origin(low, d, t.Minus(o), p))]
    ensures MoveSoFar(f, low, o, d, t, p.x, p.y, o.Plus(p)) == f[o.Plus(Origin(low, d, t.Minus(o), p))]
  {
    assert o.Plus(p).Minus(t) == p.Minus(t.Minus(o));
    assert o.Plus(p).Minus(o) == p;
  }

  /** One more cell visited. */
  lemma VisitAdvances(low: bool, d: Vector, p: Vector, q: Vector)
    requires InRect(d, p)
    ensures Visited(low, d, if low then p.x + 1 else p.x - 1, p.y, q) <==> Visited(low, d, p.x, p.y, q) || q == p
  {
  }

  /** At the visit of p the cells already blanked and those already written fit together. */
  lemma BlankedOrWritten(low: bool, o: Vector, d: Vector, t: Vector, p: Vector, w: Vector)
    requires InRect(d, p)
    ensures w == o.Plus(p) <==> w.Minus(o) == p
    ensures w == t.Plus(p) <==> w.Minus(t) == p
    ensures w == o.Plus(p) ==> !(Chases(!low, t.Minus(o)) && Visited(low, d, p.x, p.y, w.Minus(t)))
    ensures w == o.Plus(p) && Chases(!low, t.Minus(o)) ==> w != t.Plus(p)
    ensures w == t.Plus(p) && !Chases(!low, t.Minus(o)) ==> !Visited(low, d, p.x, p.y, w.Minus(o))
  {
  }

  lemma CopyAdvances(f: Plane, low: bool, o: Vector, d: Vector, t: Vector, p: Vector, x: int, w: Vector)
    requires InRect(d, p) && x == if low then p.x + 1 else p.x - 1
    ensures CopySoFar(f, low, o, d, t, x, p.y, w) ==
      if w == t.Plus(p) then f[o.Plus(Origin(low, d, t.Minus(o), p))] else CopySoFar(f, low, o, d, t, p.x, p.y, w)
  {
    hide Visited, Origin, InRect;
    VisitAdvances(low, d, p, w.Minus(t));
    assert w == t.Plus(p) <==> w.Minus(t) == p;
  }

  lemma MoveAdvances(f: Plane, low: bool, o: Vector, d: Vector, t: Vector, p: Vector, x: int, w: Vector)
    requires InRect(d, p) && x == if low then p.x + 1 else p.x - 1
    ensures MoveSoFar(f, low, o, d, t, x, p.y, w) ==
      if w == o.Plus(p) then SPACE
      else if w == t.Plus(p) then f[o.Plus(Origin(low, d, t.Minus(o), p))]
      else MoveSoFar(f, low, o, d, t, p.x, p.y, w)
  {
    hide Visited, Origin, InRect, CopySoFar, Chases;
    VisitAdvances(low, d, p, w.Minus(t));
    VisitAdvances(low, d, p, w.Minus(o));
    CopyAdvances(f, low, o, d, t, p, x, w);
    BlankedOrWritten(low, o, d, t, p, w);
  }

  /** What every cell holds when the visit has come to (x, y). */
  ghost predicate Reached(space: Space, move: bool, f: Plane, low: bool, o: Vector, d: Vector, t: Vector, x: int, y: int)
    requires space.cells.Length == STATIC_X * STATIC_Y
    reads space`entries, space.cells
  {
    forall w :: space.Get(w) == if move then MoveSoFar(f, low, o, d, t, x, y, w) else CopySoFar(f, low, o, d, t, x, y, w)
  }

  /** The end of one row is the beginning of the next. */
  lemma RowTurns(space: Space, move: bool, f: Plane, o: Vector, d: Vector, t: Vector, y: int)
    requires d.x > 0 && d.y > 0 && space.cells.Length == STATIC_X * STATIC_Y
    ensures Reached(space, move, f, true, o, d, t, d.x, y) ==> Reached(space, move, f, true, o, d, t, 0, y + 1)
    ensures Reached(space, move, f, false, o, d, t, -1, y) ==> Reached(space, move, f, false, o, d, t, d.x - 1, y - 1)
  {
    hide Origin, Space.Get, Chases;
  }

  lemma NothingVisited(d: Vector)
    ensures forall p :: !Visited(true, d, 0, 0, p) && !Visited(false, d, d.x - 1, d.y - 1, p)
  {
  }

  /** The first row begins with nothing visited. */
  lemma Begins(space: Space, move: bool, f: Plane, o: Vector, d: Vector, t: Vector)
    requires space.cells.Length == STATIC_X * STATIC_Y && forall w :: space.Get(w) == f[w]
    ensures Reached(space, move, f, true, o, d, t, 0, 0)
    ensures Reached(space, move, f, false, o, d, t, d.x - 1, d.y - 1)
  {
    hide Origin, Space.Get, Chases, Visited, Vector.Minus;
    NothingVisited(d);
  }

  /** The last row ends with everything visited. */
  lemma Ends(space: Space, f: Plane, o: Vector, d: Vector, t: Vector)
    requires d.x > 0 && d.y > 0 && space.cells.Length == STATIC_X * STATIC_Y
    ensures Reached(space, false, f, true, o, d, t, 0, d.y) ==> forall w :: space.Get(w) == CopyAt(f, true, o, d, t, w)
    ensures Reached(space, true, f, true, o, d, t, 0, d.y) ==> forall w :: space.Get(w) == MoveAt(f, true, o, d, t, w)
    ensures Reached(space, false, f, false, o, d, t, d.x - 1, -1) ==> forall w :: space.Get(w) == CopyAt(f, false, o, d, t, w)
    ensures Reached(space, true, f, false, o, d, t, d.x - 1, -1) ==> forall w :: space.Get(w) == MoveAt(f, false, o, d, t, w)
  {
    hide Origin, Space.Get, Chases;
  }

  /** fungespace_set_offset(fungespace_get_offset(p, o), p, t) */
  method CopyCell(space: Space, ghost f: Plane, ghost low: bool, o: Vector, ghost d: Vector, t: Vector, p: Vector, ghost x: int)
    requires space.Valid() && InRect(d, p) && x == if low then p.x + 1 else p.x - 1
    requires Reached(space, false, f, low, o, d, t, p.x, p.y)
    modifies space.Repr()
    ensures space.Valid()
    ensures Reached(space, false, f, low, o, d, t, x, p.y)
  {
    hide Space.Get, Space.Valid, Column, Row, CopySoFar, Origin, InRect, Vector.Minus;
    HasCells(space);
    CopyReads(f, low, o, d, t, p);
    forall w { CopyAdvances(f, low, o, d, t, p, x, w); }
    space.Set(space.Get(p.Plus(o)), p.Plus(t));
  }

  /** A copy of one cell, then a blank in its place. */
  method MoveCell(space: Space, ghost f: Plane, ghost low: bool, o: Vector, ghost d: Vector, t: Vector, p: Vector, ghost x: int)
    requires space.Valid() && InRect(d, p) && x == if low then p.x + 1 else p.x - 1
    requires Reached(space, true, f, low, o, d, t, p.x, p.y)
    modifies space.Repr()
    ensures space.Valid()
    ensures Reached(space, true, f, low, o, d, t, x, p.y)
  {
    hide Space.Get, Space.Valid, Column, Row, MoveSoFar, Origin, InRect, Vector.Minus;
    HasCells(space);
    CopyReads(f, low, o, d, t, p);
    forall w { MoveAdvances(f, low, o, d, t, p, x, w); }
    space.Set(space.Get(p.Plus(o)), p.Plus(t));
    space.Set(SPACE, p.Plus(o));
  }

  /** The loops of bracelet. */
  method CopyLow(space: Space, o: Vector, d: Vector, t: Vector)
    requires space.Valid() && d.x > 0 && d.y > 0
    modifies space.Repr()
    ensures space.Valid()
    ensures forall w :: space.Get(w) == CopyAt(old(PlaneOf(space)), true, o, d, t, w)
  {
    hide Space.Get, Space.Valid, Reached, CopyAt;
    HasCells(space);
    ghost var f := PlaneOf(space);
    Begins(space, false, f, o, d, t);
    var y := 0;
    while y < d.y
      invariant 0 <= y <= d.y && space.Valid() && Reached(space, false, f, true, o, d, t, 0, y)
    {
      var x := 0;
      while x < d.x
        invariant 0 <= x <= d.x && space.Valid() && Reached(space, false, f, true, o, d, t, x, y)
      {
        CopyCell(space, f, true, o, d, t, Vector(x, y), x + 1);
        x := x + 1;
      }
      RowTurns(space, false, f, o, d, t, y);
      y := y + 1;
    }
    Ends(space, f, o, d, t);
  }

  /** The loops of scissors. */
  method CopyHigh(space: Space, o: Vector, d: Vector, t: Vector)
    requires space.Valid() && d.x > 0 && d.y > 0
    modifies space.Repr()
    ensures space.Valid()
    ensures forall w :: space.Get(w) == CopyAt(old(PlaneOf(space)), false, o, d, t, w)
  {
    hide Space.Get, Space.Valid, Reached, CopyAt;
    HasCells(space);
    ghost var f := PlaneOf(space);
    Begins(space, false, f, o, d, t);
    var y := d.y;
    while y > 0
      invariant 0 <= y <= d.y && space.Valid() && Reached(space, false, f, false, o, d, t, d.x - 1, y - 1)
    {
      y := y - 1;
      var x := d.x;
      while x > 0
        invariant 0 <= x <= d.x && space.Valid() && Reached(space, false, f, false, o, d, t, x - 1, y)
      {
        x := x - 1;
        CopyCell(space, f, false, o, d, t, Vector(x, y), x - 1);
      }
      RowTurns(space, false, f, o, d, t, y);
    }
    Ends(space, f, o, d, t);
  }

  /** The loops of kittycat. */
  method MoveLow(space: Space, o: Vector, d: Vector, t: Vector)
    requires space.Valid() && d.x > 0 && d.y > 0
    modifies space.Repr()
    ensures space.Valid()
    ensures forall w :: space.Get(w) == MoveAt(old(PlaneOf(space)), true, o, d, t, w)
  {
    hide Space.Get, Space.Valid, Reached, MoveAt;
    HasCells(space);
    ghost var f := PlaneOf(space);
    Begins(space, true, f, o, d, t);
    var y := 0;
    while y < d.y
      invariant 0 <= y <= d.y && space.Valid() && Reached(space, true, f, true, o, d, t, 0, y)
    {
      var x := 0;
      while x < d.x
        invariant 0 <= x <= d.x && space.Valid() && Reached(space, true, f, true, o, d, t, x, y)
      {
        MoveCell(space, f, true, o, d, t, Vector(x, y), x + 1);
        x := x + 1;
      }
      RowTurns(space, true, f, o, d, t, y);
      y := y + 1;
    }
    Ends(space, f, o, d, t);
  }

  /** The loops of dixiecup. */
  method MoveHigh(space: Space, o: Vector, d: Vector, t: Vector)
    requires space.Valid() && d.x > 0 && d.y > 0
    modifies space.Repr()
    ensures space.Valid()
    ensures forall w :: space.Get(w) == MoveAt(old(PlaneOf(space)), false, o, d, t, w)
  {
    hide Space.Get, Space.Valid, Reached, MoveAt;
    HasCells(space);
    ghost var f := PlaneOf(space);
    Begins(space, true, f, o, d, t);
    var y := d.y;
    while y > 0
      invariant 0 <= y <= d.y && space.Valid() && Reached(space, true, f, false, o, d, t, d.x - 1, y - 1)
    {
      y := y - 1;
      var x := d.x;
      while x > 0
        invariant 0 <= x <= d.x && space.Valid() && Reached(space, true, f, false, o, d, t, x - 1, y)
      {
        x := x - 1;
        MoveCell(space, f, false, o, d, t, Vector(x, y), x - 1);
      }
      RowTurns(space, true, f, o, d, t, y);
    }
    Ends(space, f, o, d, t);
  }

  // ----- the instructions

  /** The source corner, the size and the target corner, as popped from the stack. */
  datatype Operands = Operands(o: Vector, d: Vector, t: Vector)

  function OperandsOf(s: seq<int>): Operands {
    var i := TopItems(s, 6);
    Operands(Vector(i[0], i[1]), Vector(i[2], i[3]), Vector(i[4], i[5]))
  }

  /** A negative size reverses the IP, unless the other side is zero. */
  function DeltaAfter(delta: Vector, d: Vector): Vector {
    if d.x != 0 && d.y != 0 && (d.x < 0 || d.y < 0) then delta.Reversed() else delta
  }

  /** The IP is reversed exactly when one side is negative and the other is not zero. */
  lemma ReversedWhen(delta: Vector, d: Vector)
    ensures DeltaAfter(delta, d) ==
      if (d.x < 0 && d.y != 0) || (d.y < 0 && d.x != 0) then Vector(-delta.x, -delta.y) else delta
  {
  }

  /** The corner of the target is on top of the stack, then come the size and the corner of
    * the source, each with y above x. */
  lemma OperandsByDepth(s: seq<int>)
    ensures OperandsOf(s) == Operands(Vector(ItemAt(s, 5), ItemAt(s, 4)), Vector(ItemAt(s, 3), ItemAt(s, 2)),
                                      Vector(ItemAt(s, 1), ItemAt(s, 0)))
  {
  }

  lemma DropsAddUp(s: seq<int>, m: nat, n: nat)
    ensures Dropped(Dropped(s, m), n) == Dropped(s, m + n)
  {
  }

  method PopOperands(stack: FungeStack) returns (r: Operands)
    requires stack.Valid()
    modifies stack`top
    ensures stack.Valid() && stack.Contents() == Dropped(old(stack.Contents()), 6)
    ensures r == OperandsOf(old(stack.Contents()))
  {
    hide Dropped, TopItems, OperandsOf, FungeStack.Contents;
    SixItems(stack.Contents());
    var t := stack.PopVector();
    var d := stack.PopVector();
    var o := stack.PopVector();
    r := Operands(o, d, t);
  }

  lemma SixItems(s: seq<int>)
    ensures Dropped(Dropped(Dropped(s, 2), 2), 2) == Dropped(s, 6)
    ensures var o, d, t := TopItems(Dropped(Dropped(s, 2), 2), 2), TopItems(Dropped(s, 2), 2), TopItems(s, 2);
      OperandsOf(s) == Operands(Vector(o[0], o[1]), Vector(d[0], d[1]), Vector(t[0], t[1]))
  {
    DropsAddUp(s, 2, 2);
    DropsAddUp(s, 4, 2);
    hide Dropped;
    ItemsBelow(s, 0, 6);
    ItemsBelow(s, 2, 6);
    ItemsBelow(s, 4, 6);
  }

  /** The items below the top m are those at the same depth. */
  lemma ItemsBelow(s: seq<int>, m: nat, n: nat)
    requires m + 2 <= n
    ensures var t, u := TopItems(Dropped(s, m), 2), TopItems(s, n); t[0] == u[n - m - 2] && t[1] == u[n - m - 1]
  {
  }

  /** C: low order copy */
  method Bracelet(ip: InstructionPointer, stack: FungeStack, space: Space)
    requires stack.Valid() && space.Valid() && stack.entries !in space.Repr()
    modifies ip`delta, stack`top, space.Repr()
    ensures space.Valid() && stack.Valid() && stack.Contents() == Dropped(old(stack.Contents()), 6)
    ensures ip.delta == DeltaAfter(old(ip.delta), OperandsOf(old(stack.Contents())).d)
    ensures var r := OperandsOf(old(stack.Contents()));
      forall w :: space.Get(w) == if InRect(r.d, Vector(0, 0)) then CopyAt(old(PlaneOf(space)), true, r.o, r.d, r.t, w)
                                  else old(space.Get(w))
  {
    hide Space.Get, Space.Valid, CopyAt, OperandsOf, Dropped;
    HasCells(space);
    var r := PopOperands(stack);
    if r.d.x == 0 || r.d.y == 0 { return; }
    if r.d.x < 0 || r.d.y < 0 {
      ip.Reverse();
      return;
    }
    CopyLow(space, r.o, r.d, r.t);
  }

  /** K: high order copy */
  method Scissors(ip: InstructionPointer, stack: FungeStack, space: Space)
    requires stack.Valid() && space.Valid() && stack.entries !in space.Repr()
    modifies ip`delta, stack`top, space.Repr()
    ensures space.Valid() && stack.Valid() && stack.Contents() == Dropped(old(stack.Contents()), 6)
    ensures ip.delta == DeltaAfter(old(ip.delta), OperandsOf(old(stack.Contents())).d)
    ensures var r := OperandsOf(old(stack.Contents()));
      forall w :: space.Get(w) == if InRect(r.d, Vector(0, 0)) then CopyAt(old(PlaneOf(space)), false, r.o, r.d, r.t, w)
                                  else old(space.Get(w))
  {
    hide Space.Get, Space.Valid, CopyAt, OperandsOf, Dropped;
    HasCells(space);
    var r := PopOperands(stack);
    if r.d.x == 0 || r.d.y == 0 { return; }
    if r.d.x < 0 || r.d.y < 0 {
      ip.Reverse();
      return;
    }
    CopyHigh(space, r.o, r.d, r.t);
  }

  /** M: low order move */
  method Kittycat(ip: InstructionPointer, stack: FungeStack, space: Space)
    requires stack.Valid() && space.Valid() && stack.entries !in space.Repr()
    modifies ip`delta, stack`top, space.Repr()
    ensures space.Valid() && stack.Valid() && stack.Contents() == Dropped(old(stack.Contents()), 6)
    ensures ip.delta == DeltaAfter(old(ip.delta), OperandsOf(old(stack.Contents())).d)
    ensures var r := OperandsOf(old(stack.Contents()));
      forall w :: space.Get(w) == if InRect(r.d, Vector(0, 0)) then MoveAt(old(PlaneOf(space)), true, r.o, r.d, r.t, w)
                                  else old(space.Get(w))
  {
    hide Space.Get, Space.Valid, MoveAt, OperandsOf, Dropped;
    HasCells(space);
    var r := PopOperands(stack);
    if r.d.x == 0 || r.d.y == 0 { return; }
    if r.d.x < 0 || r.d.y < 0 {
      ip.Reverse();
      return;
    }
    MoveLow(space, r.o, r.d, r.t);
  }

  /** V: high order move */
  method Dixiecup(ip: InstructionPointer, stack: FungeStack, space: Space)
    requires stack.Valid() && space.Valid() && stack.entries !in space.Repr()
    modifies ip`delta, stack`top, space.Repr()
    ensures space.Valid() && stack.Valid() && stack.Contents() == Dropped(old(stack.Contents()), 6)
    ensures ip.delta == DeltaAfter(old(ip.delta), OperandsOf(old(stack.Contents())).d)
    ensures var r := OperandsOf(old(stack.Contents()));
      forall w :: space.Get(w) == if InRect(r.d, Vector(0, 0)) then MoveAt(old(PlaneOf(space)), false, r.o, r.d, r.t, w)
                                  else old(space.Get(w))
  {
    hide Space.Get, Space.Valid, MoveAt, OperandsOf, Dropped;
    HasCells(space);
    var r := PopOperands(stack);
    if r.d.x == 0 || r.d.y == 0 { return; }
    if r.d.x < 0 || r.d.y < 0 {
      ip.Reverse();
      return;
    }
    MoveHigh(space, r.o, r.d, r.t);
  }

  // ----- a matrix by way of the stack

  /** The place of cell p of a matrix w wide, counted row by row. */
  function Place(w: int, p: Vector): int { p.y * w + p.x }

  lemma PlaceSteps(w: int, p: Vector)
    ensures Place(w, Vector(p.x + 1, p.y)) == Place(w, p) + 1
    ensures Place(w, Vector(w, p.y)) == Place(w, Vector(0, p.y + 1))
    ensures Place(w, Vector(0, 0)) == 0
  {
  }

  lemma MultipleGrows(w: int, a: int, b: int)
    requires 0 < w && a < b
    ensures a * w + w <= b * w
  {
    assert (b - a) * w == b * w - a * w;
    assert (b - a - 1) * w >= 0;
  }

  lemma PlaceBelow(w: int, p: Vector, q: Vector)
    requires 0 <= p.x < w && 0 <= q.x && p.y < q.y
    ensures Place(w, p) < Place(w, q)
  {
    MultipleGrows(w, p.y, q.y);
  }

  /** Places follow the order of the visit. */
  lemma PlaceGrows(d: Vector, p: Vector, q: Vector)
    requires InRect(d, p) && InRect(d, q)
    ensures Place(d.x, Vector(0, 0)) <= Place(d.x, p) < Place(d.x, Vector(0, d.y))
    ensures Precedes(true, q, p) <==> Place(d.x, q) < Place(d.x, p)
  {
    PlaceBelow(d.x, p, Vector(0, d.y));
    if p.y != 0 {
      PlaceBelow(d.x, Vector(0, 0), p);
    }
    if q.y < p.y {
      PlaceBelow(d.x, q, p);
    } else if p.y < q.y {
      PlaceBelow(d.x, p, q);
    }
  }

  /** Above base the stack holds the cells of the matrix at o from place n on, the earlier
    * the higher. */
  ghost predicate Stacked(s: seq<int>, base: seq<int>, f: Plane, o: Vector, d: Vector, n: int) {
    var last := Place(d.x, Vector(0, d.y)) - 1;
    && 0 <= n <= last + 1 && |s| == |base| + last + 1 - n && base == s[..|base|]
    && forall p | InRect(d, p) && n <= Place(d.x, p) <= last :: s[|base| + last - Place(d.x, p)] == f[o.Plus(p)]
  }

  lemma StackedOneMore(s: seq<int>, base: seq<int>, f: Plane, o: Vector, d: Vector, p: Vector)
    requires InRect(d, p) && Stacked(s, base, f, o, d, Place(d.x, p) + 1)
    ensures Stacked(s + [f[o.Plus(p)]], base, f, o, d, Place(d.x, p))
  {
    hide Place;
    var t := s + [f[o.Plus(p)]];
    var last := Place(d.x, Vector(0, d.y)) - 1;
    PlaceGrows(d, p, p);
    PlaceSteps(d.x, p);
    forall q | InRect(d, q) && Place(d.x, p) <= Place(d.x, q) <= last
      ensures t[|base| + last - Place(d.x, q)] == f[o.Plus(q)]
    {
      PlaceGrows(d, p, q);
      PlaceGrows(d, q, p);
    }
  }

  /** G by its items: cell (x, y) of the matrix is the item at depth y * width + x. */
  lemma StackedAll(s: seq<int>, base: seq<int>, f: Plane, o: Vector, d: Vector, p: Vector)
    requires Stacked(s, base, f, o, d, 0) && InRect(d, p)
    ensures p.y * d.x + p.x >= 0 && ItemAt(s, p.y * d.x + p.x) == f[o.Plus(p)]
  {
    assert Place(d.x, p) == p.y * d.x + p.x;
    hide Place;
    PlaceGrows(d, p, p);
    PlaceSteps(d.x, p);
  }

  /** The items below the matrix are those below its description. */
  lemma StackedBase(s: seq<int>, base: seq<int>, f: Plane, o: Vector, d: Vector)
    requires Stacked(s, base, f, o, d, 0)
    ensures d.y * d.x >= 0 && SameFrom(s, d.y * d.x, base, 0)
  {
    assert Place(d.x, Vector(0, d.y)) == d.y * d.x;
  }

  /** A matrix as the stack describes it: its size, then its corner. */
  datatype Matrix = Matrix(i: int, j: int, corner: Vector) {
    function Size(): Vector { Vector(Max(i, 0), Max(j, 0)) }
  }

  function MatrixOf(s: seq<int>): Matrix {
    var i := TopItems(s, 4);
    Matrix(i[0], i[1], Vector(i[2], i[3]))
  }

  /** The corner is on top of the stack, y above x, then the height and the width. */
  lemma MatrixByDepth(s: seq<int>)
    ensures MatrixOf(s) == Matrix(ItemAt(s, 3), ItemAt(s, 2), Vector(ItemAt(s, 1), ItemAt(s, 0)))
  {
  }

  method PopMatrix(stack: FungeStack) returns (m: Matrix)
    requires stack.Valid()
    modifies stack`top
    ensures stack.Valid() && stack.Contents() == Dropped(old(stack.Contents()), 4)
    ensures m == MatrixOf(old(stack.Contents()))
  {
    ghost var s := stack.Contents();
    var corner := stack.PopVector();
    var j := stack.Pop();
    var i := stack.Pop();
    DropsAddUp(s, 2, 1);
    DropsAddUp(s, 3, 1);
    m := Matrix(i, j, corner);
  }

  /** The inner loop of counterclockwise: pushes row y from its end. */
  method PushRow(stack: FungeStack, space: Space, ghost base: seq<int>, ghost f: Plane, o: Vector, i: int, ghost d: Vector, y: int)
    requires stack.Valid() && space.Valid() && stack.entries !in space.Repr() && f == PlaneOf(space)
    requires d.x == Max(i, 0) && 0 <= y - o.y < d.y
    requires Stacked(stack.Contents(), base, f, o, d, Place(d.x, Vector(0, y - o.y + 1)))
    modifies stack, stack.entries
    ensures stack.Valid() && (stack.entries == old(stack.entries) || fresh(stack.entries))
    ensures Stacked(stack.Contents(), base, f, o, d, Place(d.x, Vector(0, y - o.y)))
  {
    hide Space.Get, Space.Valid, Stacked, FungeStack.Contents, Place;
    HasCells(space);
    PlaceSteps(d.x, Vector(0, y - o.y));
    var x := o.x + i;
    while x > o.x
      invariant x - o.x <= i && (x == o.x + i || x >= o.x)
      invariant stack.Valid() && (stack.entries == old(stack.entries) || fresh(stack.entries))
      invariant Stacked(stack.Contents(), base, f, o, d, Place(d.x, Vector(Max(x - o.x, 0), y - o.y)))
    {
      x := x - 1;
      ghost var p := Vector(x - o.x, y - o.y);
      PlaceSteps(d.x, p);
      StackedOneMore(stack.Contents(), base, f, o, d, p);
      assert o.Plus(p) == Vector(x, y);
      stack.Push(space.Get(Vector(x, y)));
    }
  }

  /** G: pushes the cells of a matrix, the last one first. */
  method Counterclockwise(stack: FungeStack, space: Space)
    requires stack.Valid() && space.Valid() && stack.entries !in space.Repr()
    modifies stack, stack.entries
    ensures stack.Valid() && (stack.entries == old(stack.entries) || fresh(stack.entries))
    ensures var m := MatrixOf(old(stack.Contents()));
      Stacked(stack.Contents(), Dropped(old(stack.Contents()), 4), PlaneOf(space), m.corner, m.Size(), 0)
  {
    hide Space.Get, Space.Valid, Stacked, Place, FungeStack.Contents, MatrixOf, Dropped;
    HasCells(space);
    ghost var f := PlaneOf(space);
    var m := PopMatrix(stack);
    var o, i, j := m.corner, m.i, m.j;
    ghost var base, d := stack.Contents(), m.Size();
    NothingStacked(base, f, o, d);
    var y := o.y + j;
    while y > o.y
      invariant y - o.y <= j && (y == o.y + j || y >= o.y)
      invariant stack.Valid() && (stack.entries == old(stack.entries) || fresh(stack.entries))
      invariant Stacked(stack.Contents(), base, f, o, d, Place(d.x, Vector(0, Max(y - o.y, 0))))
    {
      y := y - 1;
      PushRow(stack, space, base, f, o, i, d, y);
    }
    PlaceSteps(d.x, Vector(0, 0));
  }

  lemma NothingStacked(base: seq<int>, f: Plane, o: Vector, d: Vector)
    requires d.x >= 0 && d.y >= 0
    ensures Stacked(base, base, f, o, d, Place(d.x, Vector(0, d.y)))
  {
  }

  /** What the cells hold when calipers has come to place (x, y) of the target. */
  ghost function WrittenSoFar(f: Plane, s: seq<int>, d: Vector, t: Vector, x: int, y: int, w: Vector): int {
    if Visited(true, d, x, y, w.Minus(t)) then ItemAt(s, Natural(Place(d.x, w.Minus(t)))) else f[w]
  }

  function Natural(n: int): nat { if n < 0 then 0 else n }

  ghost predicate Written(space: Space, f: Plane, s: seq<int>, d: Vector, t: Vector, x: int, y: int)
    requires space.cells.Length == STATIC_X * STATIC_Y
    reads space`entries, space.cells
  {
    forall w :: space.Get(w) == WrittenSoFar(f, s, d, t, x, y, w)
  }

  /** The matrix has been written from the items of s: the topmost is its first cell, and
    * zeros follow the last; nothing else has changed. */
  ghost predicate MatrixWritten(space: Space, f: Plane, s: seq<int>, d: Vector, t: Vector)
    requires space.cells.Length == STATIC_X * STATIC_Y
    reads space`entries, space.cells
  {
    forall w :: space.Get(w) == if InRect(d, w.Minus(t)) then ItemAt(s, Natural(Place(d.x, w.Minus(t)))) else f[w]
  }

  /** F by its items: cell (x, y) of the matrix gets the item at depth y * width + x. */
  lemma MatrixCell(space: Space, f: Plane, s: seq<int>, d: Vector, t: Vector, p: Vector)
    requires space.cells.Length == STATIC_X * STATIC_Y && MatrixWritten(space, f, s, d, t) && InRect(d, p)
    ensures p.y * d.x + p.x >= 0 && space.Get(t.Plus(p)) == ItemAt(s, p.y * d.x + p.x)
  {
    hide Space.Get, ItemAt, Place, InRect;
    PlaceGrows(d, p, p);
    PlaceSteps(d.x, p);
    PlaceIs(d.x, p);
    assert t.Plus(p).Minus(t) == p;
  }

  lemma WrittenBounds(space: Space, f: Plane, s: seq<int>, d: Vector, t: Vector, y: int)
    requires space.cells.Length == STATIC_X * STATIC_Y && d.x >= 0
    ensures (forall w :: space.Get(w) == f[w]) ==> Written(space, f, s, d, t, 0, 0)
    ensures Written(space, f, s, d, t, d.x, y) <==> Written(space, f, s, d, t, 0, y + 1)
    ensures Written(space, f, s, d, t, 0, d.y) ==> MatrixWritten(space, f, s, d, t)
  {
    hide Place, ItemAt, Space.Get;
  }

  lemma WrittenAdvances(f: Plane, s: seq<int>, d: Vector, t: Vector, p: Vector, w: Vector)
    requires InRect(d, p)
    ensures WrittenSoFar(f, s, d, t, p.x + 1, p.y, w) ==
      if w == t.Plus(p) then ItemAt(s, Natural(Place(d.x, p))) else WrittenSoFar(f, s, d, t, p.x, p.y, w)
  {
    hide Visited, ItemAt, Place;
    VisitAdvances(true, d, p, w.Minus(t));
    assert w == t.Plus(p) <==> w.Minus(t) == p;
  }

  /** The body of calipers' loops. */
  method WriteCell(stack: FungeStack, space: Space, ghost f: Plane, ghost s: seq<int>, ghost d: Vector, t: Vector, p: Vector)
    requires stack.Valid() && space.Valid() && stack.entries !in space.Repr() && InRect(d, p)
    requires Written(space, f, s, d, t, p.x, p.y) && stack.Contents() == Dropped(s, Natural(Place(d.x, p)))
    modifies stack`top, space.Repr()
    ensures space.Valid() && stack.Valid()
    ensures Written(space, f, s, d, t, p.x + 1, p.y) && stack.Contents() == Dropped(s, Natural(Place(d.x, p) + 1))
  {
    hide Space.Get, Space.Valid, Place, WrittenSoFar, ItemAt, Popped, Dropped, FungeStack.Contents, Vector.Plus;
    HasCells(space);
    PlaceGrows(d, p, p);
    PlaceSteps(d.x, p);
    NextItem(s, Natural(Place(d.x, p)));
    ghost var g := PlaneOf(space);
    var value := stack.Pop();
    space.Set(value, t.Plus(p));
    WrittenNext(space, g, f, s, d, t, p);
  }

  lemma WrittenNext(space: Space, g: Plane, f: Plane, s: seq<int>, d: Vector, t: Vector, p: Vector)
    requires space.cells.Length == STATIC_X * STATIC_Y && InRect(d, p)
    requires forall w :: g[w] == WrittenSoFar(f, s, d, t, p.x, p.y, w)
    requires forall w :: space.Get(w) == if w == t.Plus(p) then ItemAt(s, Natural(Place(d.x, p))) else g[w]
    ensures Written(space, f, s, d, t, p.x + 1, p.y)
  {
    hide Space.Get, WrittenSoFar, Place, ItemAt, Vector.Plus;
    forall w
      ensures space.Get(w) == WrittenSoFar(f, s, d, t, p.x + 1, p.y, w)
    {
      WrittenAdvances(f, s, d, t, p, w);
    }
  }

  lemma NextItem(s: seq<int>, n: nat)
    ensures Popped(Dropped(s, n)) == ItemAt(s, n) && Dropped(Dropped(s, n), 1) == Dropped(s, n + 1)
  {
  }

  /** The inner loop of calipers. */
  method WriteRow(stack: FungeStack, space: Space, ghost f: Plane, ghost s: seq<int>, ghost d: Vector, t: Vector, i: int, y: int)
    requires stack.Valid() && space.Valid() && stack.entries !in space.Repr()
    requires d.x == Max(i, 0) && 0 <= y - t.y < d.y
    requires Written(space, f, s, d, t, 0, y - t.y) && stack.Contents() == Dropped(s, Natural(Place(d.x, Vector(0, y - t.y))))
    modifies stack`top, space.Repr()
    ensures space.Valid() && stack.Valid() && Written(space, f, s, d, t, d.x, y - t.y)
    ensures stack.Contents() == Dropped(s, Natural(Place(d.x, Vector(d.x, y - t.y))))
  {
    hide Space.Get, Space.Valid, Place, FungeStack.Contents, Dropped, Written, ItemAt, Natural;
    HasCells(space);
    var x := t.x;
    while x < t.x + i
      invariant t.x <= x <= t.x + d.x && space.Valid() && stack.Valid()
      invariant Written(space, f, s, d, t, x - t.x, y - t.y)
      invariant stack.Contents() == Dropped(s, Natural(Place(d.x, Vector(x - t.x, y - t.y))))
    {
      PlaceSteps(d.x, Vector(x - t.x, y - t.y));
      WriteCell(stack, space, f, s, d, t, Vector(x - t.x, y - t.y));
      x := x + 1;
    }
  }

  /** F: writes a matrix popped from the stack, row by row; a short stack gives zeros. */
  method Calipers(stack: FungeStack, space: Space)
    requires stack.Valid() && space.Valid() && stack.entries !in space.Repr()
    modifies stack`top, space.Repr()
    ensures space.Valid() && stack.Valid()
    ensures var m := MatrixOf(old(stack.Contents())); var d, s := m.Size(), Dropped(old(stack.Contents()), 4);
      && MatrixWritten(space, old(PlaneOf(space)), s, d, m.corner)
      && stack.Contents() == Dropped(s, Natural(Place(d.x, Vector(0, d.y))))
  {
    hide Space.Get, Space.Valid, Place, FungeStack.Contents, MatrixOf, Dropped, Written, ItemAt, InRect, MatrixWritten;
    HasCells(space);
    ghost var f := PlaneOf(space);
    var m := PopMatrix(stack);
    var t := m.corner;
    ghost var s, d := stack.Contents(), m.Size();
    PlaceSteps(d.x, Vector(0, 0));
    WrittenBounds(space, f, s, d, t, 0);
    assert Natural(0) == 0;
    DropNone(s);
    var y := t.y;
    while y < t.y + m.j
      invariant t.y <= y <= t.y + d.y && space.Valid() && stack.Valid()
      invariant Written(space, f, s, d, t, 0, y - t.y)
      invariant stack.Contents() == Dropped(s, Natural(Place(d.x, Vector(0, y - t.y))))
    {
      WriteRow(stack, space, f, s, d, t, m.i, y);
      PlaceSteps(d.x, Vector(0, y - t.y));
      WrittenBounds(space, f, s, d, t, y - t.y);
      y := y + 1;
    }
    WrittenBounds(space, f, s, d, t, 0);
  }

  lemma DropNone(s: seq<int>)
    ensures Dropped(s, 0) == s
  {
  }

  method PushMatrix(stack: FungeStack, m: Matrix)
    requires stack.Valid()
    modifies stack, stack.entries
    ensures stack.Valid() && (stack.entries == old(stack.entries) || fresh(stack.entries))
    ensures MatrixOf(stack.Contents()) == m && Dropped(stack.Contents(), 4) == old(stack.Contents())
  {
    Described(stack.Contents(), m.i, m.j, m.corner);
    hide *;
    stack.Push(m.i);
    stack.Push(m.j);
    stack.PushVector(m.corner);
  }

  /** G then F with the same size copies the matrix unchanged, even onto itself, and gives
    * back the stack. */
  method CopyByStack(stack: FungeStack, space: Space, o: Vector, t: Vector, i: int, j: int)
    requires stack.Valid() && space.Valid() && stack.entries !in space.Repr()
    modifies stack, stack.entries, space.Repr()
    ensures space.Valid() && stack.Valid() && stack.Contents() == old(stack.Contents())
    ensures forall w :: space.Get(w) == SimultaneousCopyAt(old(PlaneOf(space)), o, Matrix(i, j, t).Size(), t, w)
  {
    hide Space.Get, Space.Valid, Place, FungeStack.Contents, FungeStack.Valid, Dropped, ItemAt, InRect, MatrixOf, Stacked,
      MatrixWritten, SimultaneousCopyAt;
    HasCells(space);
    ghost var f, s := PlaneOf(space), stack.Contents();
    PushMatrix(stack, Matrix(i, j, o));
    Counterclockwise(stack, space);
    ghost var u := stack.Contents();
    PushMatrix(stack, Matrix(i, j, t));
    Calipers(stack, space);
    Rewritten(space, u, s, f, o, Matrix(i, j, t).Size(), t);
  }

  lemma Rewritten(space: Space, u: seq<int>, base: seq<int>, f: Plane, o: Vector, d: Vector, t: Vector)
    requires Stacked(u, base, f, o, d, 0) && space.cells.Length == STATIC_X * STATIC_Y
    ensures Dropped(u, Natural(Place(d.x, Vector(0, d.y)))) == base
    ensures MatrixWritten(space, f, u, d, t) ==> forall w :: space.Get(w) == SimultaneousCopyAt(f, o, d, t, w)
  {
    hide Place, ItemAt, InRect, Space.Get;
    forall p | InRect(d, p)
      ensures ItemAt(u, Natural(Place(d.x, p))) == f[o.Plus(p)]
    {
      StackedAll(u, base, f, o, d, p);
      PlaceIs(d.x, p);
    }
  }

  lemma PlaceIs(w: int, p: Vector)
    ensures Place(w, p) == p.y * w + p.x
  {
  }

  lemma Described(s: seq<int>, i: int, j: int, v: Vector)
    ensures var r := s + [i] + [j] + [v.x, v.y]; MatrixOf(r) == Matrix(i, j, v) && Dropped(r, 4) == s
  {
  }
}
