/** The step forward and back by which `{` finds its storage offset, and whether the IP is
  * still on its course afterwards. */
module Probes {
  import opened Lahey

  /** ip_forward, then ip_backward. */
  function Probed(box: Box, c: Vector, delta: Vector): Vector {
    Wrap(box, Forward(box, c, delta).Minus(delta), delta)
  }

  /** The first cell of the box that an IP reaches in at most n steps. */
  function NextInside(box: Box, pos: Vector, delta: Vector, n: nat): Vector
    requires n > 0
    decreases n
  {
    var f := Forward(box, pos, delta);
    if box.Has(f) || n == 1 then f else NextInside(box, f, delta, n - 1)
  }

  /** One axis of the wrap of a position one or two steps before a cell at distance u from
    * the entry edge: the truncating division rounds towards the cell. */
  lemma ApproachingFrac(u: int, d: int)
    requires 0 <= u && 0 < d
    ensures WrapFrac(u - d, d) >= if u == 0 then -1 else 0
    ensures u < d ==> WrapFrac(u - d, d) == if u == 0 then -1 else 0
    ensures 0 < u ==> WrapFrac(u - 2 * d, d) >= -1
    ensures 0 < u < d ==> WrapFrac(u - 2 * d, d) == 0
  {
    if u < d {
      SmallQuotient(d - u, d);
      SmallQuotient(2 * d - u, d);
      SmallQuotient(u, d);
    } else {
      WrapFracCeiling(u - d, d);
      if u < 2 * d {
        SmallQuotient(2 * d - u, d);
        SmallQuotient(u - d, d);
      } else {
        WrapFracCeiling(u - 2 * d, d);
      }
    }
  }

  lemma SmallQuotient(n: int, d: int)
    requires 0 <= n <= 2 * d && 0 < d
    ensures n / d == if n < d then 0 else if n < 2 * d then 1 else 2
  {
    QuotientUnique(n, d, if n < d then 0 else if n < 2 * d then 1 else 2);
  }

  /** The same in either direction along an axis from r to s, for a cell at a. */
  lemma ApproachingAxis(a: int, r: int, s: int, da: int)
    requires da != 0 && r <= a <= s
    ensures var f1, f2 := WrapFracDir(a - da, r, s, da), WrapFracDir(a - 2 * da, r, s, da);
      var edge := a == if da > 0 then r else s;
      && f1 >= (if edge then -1 else 0)
      && (!(r <= a - da <= s) ==> f1 == if edge then -1 else 0)
      && (!edge ==> f2 >= -1)
      && (!edge && !(r <= a - da <= s) ==> f2 == 0)
  {
    if da > 0 {
      ApproachingFrac(a - r, da);
    } else {
      ApproachingFrac(s - a, -da);
      WrapFracSigns(s - a - -da, -da);
      WrapFracSigns(s - a - 2 * -da, -da);
    }
  }

  /** A flying wrap of a position behind the far end e of the line: one step behind, it
    * lands on e if e is on an entry edge and otherwise stays; two steps behind an e that
    * is not, it stays or makes one of the steps. */
  lemma ApproachingWrap(box: Box, e: Vector, delta: Vector)
    requires !delta.IsZero() && box.Has(e) && !box.Has(e.Minus(delta))
    ensures var e1 := e.Minus(delta);
      WrapFlying(box, e1, delta) == if OnEntryEdge(box, e, delta) then e else e1
    ensures var e1 := e.Minus(delta); var e2 := e1.Minus(delta);
      !OnEntryEdge(box, e, delta) ==> WrapFlying(box, e2, delta) == e1 || WrapFlying(box, e2, delta) == e2
  {
    if delta.x != 0 { ApproachingAxis(e.x, box.topLeft.x, box.bottomRight.x, delta.x); }
    if delta.y != 0 { ApproachingAxis(e.y, box.topLeft.y, box.bottomRight.y, delta.y); }
    hide WrapFracDir;
    var e1 := e.Minus(delta);
    var e2 := e1.Minus(delta);
    var m1 := WrapSteps(box, e1, delta);
    assert m1 == if OnEntryEdge(box, e, delta) then -1 else 0;
    assert e1.Back(-1, delta) == e && e1.Back(0, delta) == e1;
    assert e2.Back(-1, delta) == e1 && e2.Back(0, delta) == e2;
    if !OnEntryEdge(box, e, delta) {
      assert -1 <= WrapSteps(box, e2, delta) <= 0;
    }
  }

  /** From inside the box the next cell comes up in one step or two. */
  lemma NextComesUp(box: Box, c: Vector, delta: Vector, n: nat)
    requires box.Has(c) && !delta.IsZero() && n >= 2
    ensures NextInside(box, c, delta, n) == Next(box, c, delta)
  {
    hide Forward, Next;
    ForwardStep(box, c, delta);
  }

  /** In a cardinal direction the probe puts an IP at the edge one cell outside the box. */
  lemma CardinalProbe(box: Box, c: Vector, delta: Vector)
    requires box.Has(c) && IsCardinal(delta) && !box.Has(c.Plus(delta))
    ensures var e := Rewind(box, c, delta);
      Probed(box, c, delta) == c.Plus(delta) && Forward(box, c.Plus(delta), delta) == e.Minus(delta)
  {
    var e, n := Rewind(box, c, delta), Behind(box, c, delta);
    assert e == c.Back(n, delta);
    ForwardStep(box, c, delta);
    assert (delta.x == 0 && (delta.y == 1 || delta.y == -1)) || (delta.y == 0 && (delta.x == 1 || delta.x == -1));
    assert Forward(box, c, delta) == e.Minus(delta);
  }

  /** The probe of `{` at a position where stepping forward wraps in a flying direction onto
    * an entry edge: the step back then moves the IP onto its next cell. */
  predicate Skips(box: Box, c: Vector, delta: Vector)
    requires box.Has(c) && !delta.IsZero()
  {
    !box.Has(c.Plus(delta)) && !IsCardinal(delta) && OnEntryEdge(box, Rewind(box, c, delta), delta)
  }

  /** In a flying direction the probe puts an IP at the edge onto the far end of the line, if
    * that is on an entry edge, and otherwise one or two steps before it. */
  lemma FlyingProbe(box: Box, c: Vector, delta: Vector)
    requires box.Has(c) && !delta.IsZero() && !IsCardinal(delta) && !box.Has(c.Plus(delta))
    ensures var e := Rewind(box, c, delta); var b := Probed(box, c, delta);
      if OnEntryEdge(box, e, delta) then b == e
      else (b == e.Minus(delta) || (b == e.Minus(delta).Minus(delta) && Forward(box, b, delta) == e.Minus(delta)))
  {
    hide WrapFlying, OnEntryEdge, IsCardinal;
    var e := Rewind(box, c, delta);
    var e1 := e.Minus(delta);
    var e2 := e1.Minus(delta);
    ForwardStep(box, c, delta);
    ApproachingWrap(box, e, delta);
    if !OnEntryEdge(box, e, delta) {
      Outside(box, e, delta);
      assert e2.Plus(delta) == e1;
    }
  }

  /** Once out of the box, a line does not come back. */
  lemma Outside(box: Box, e: Vector, delta: Vector)
    requires box.Has(e) && !box.Has(e.Minus(delta))
    ensures !box.Has(e.Minus(delta).Minus(delta))
  {
  }

  /** Away from the edge `{` leaves the IP where it is. At the edge the IP still reaches its
    * next cell first, except when the probe has put it onto that cell: then it goes on to
    * the one after, and the next cell is not executed. So the course is kept exactly when
    * nothing is skipped, or the line has one cell only. */
  lemma ProbeKeepsCourse(box: Box, c: Vector, delta: Vector)
    requires box.Has(c) && !delta.IsZero()
    ensures box.Has(c.Plus(delta)) ==> Probed(box, c, delta) == c
    ensures Skips(box, c, delta) ==> Probed(box, c, delta) == Next(box, c, delta)
    ensures NextInside(box, Probed(box, c, delta), delta, 3) ==
      if Skips(box, c, delta) then Next(box, Next(box, c, delta), delta) else Next(box, c, delta)
    ensures NextInside(box, Probed(box, c, delta), delta, 3) == NextInside(box, c, delta, 3)
      <==> !Skips(box, c, delta) || Next(box, c, delta) == c
  {
    var b, e := Probed(box, c, delta), Rewind(box, c, delta);
    NextComesUp(box, c, delta, 3);
    ReflectionRetraces(box, c, delta);
    ReflectionRetraces(box, Next(box, c, delta), delta);
    if box.Has(c.Plus(delta)) {
      assert c.Plus(delta).Minus(delta) == c;
    } else if IsCardinal(delta) {
      CardinalProbe(box, c, delta);
      EntersFromBehind(box, e, delta, 2);
    } else {
      FlyingProbe(box, c, delta);
      if OnEntryEdge(box, e, delta) {
        NextComesUp(box, e, delta, 3);
      } else {
        EntersFromBehind(box, e, delta, 2);
        EntersFromBehind(box, e, delta, 3);
      }
    }
  }

  lemma EntersFromBehind(box: Box, e: Vector, delta: Vector, n: nat)
    requires box.Has(e) && n > 0
    ensures NextInside(box, e.Minus(delta), delta, n) == e
  {
    assert e.Minus(delta).Plus(delta) == e;
  }

  /** In a box of 2 * w cells an IP going east w cells at a time, w being at least 2, executes
    * `{` in the second of its two cells: the instruction in the first, which is next, is
    * skipped. */
  lemma SkippingProbe(w: nat)
    requires w >= 2
    ensures var box, c, delta := Box(Vector(0, 0), Vector(2 * w - 1, 0)), Vector(w, 0), Vector(w, 0);
      && Next(box, c, delta) == Vector(0, 0)
      && NextInside(box, Probed(box, c, delta), delta, 3) == Vector(w, 0)
  {
    hide Forward, Wrap, NextInside, Probed;
    var box, c, delta := Box(Vector(0, 0), Vector(2 * w - 1, 0)), Vector(w, 0), Vector(w, 0);
    var first := Vector(0, 0);
    assert c.Minus(delta) == first && first.Plus(delta) == c;
    assert Rewind(box, first, delta) == first;
    assert Rewind(box, c, delta) == first;
    ProbeKeepsCourse(box, c, delta);
  }
}
