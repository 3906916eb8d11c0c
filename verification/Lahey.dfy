/** Vectors, boxes and the closed-form wrapping of Lahey space, with the stepping
  * definition it replaces. */
module Lahey {

  datatype Vector = Vector(x: int, y: int) {
    function Plus(v: Vector): Vector { Vector(x + v.x, y + v.y) }
    function Minus(v: Vector): Vector { Vector(x - v.x, y - v.y) }
    function Reversed(): Vector { Vector(-x, -y) }
    predicate IsZero() { x == 0 && y == 0 }
    /** m steps back along delta. */
    function Back(m: int, delta: Vector): Vector { Vector(x - m * delta.x, y - m * delta.y) }
  }

  /** The bounding rectangle, both corners included. */
  datatype Box = Box(topLeft: Vector, bottomRight: Vector) {
    predicate Has(p: Vector) {
      topLeft.x <= p.x <= bottomRight.x && topLeft.y <= p.y <= bottomRight.y
    }
  }

  /** C division and remainder, which truncate toward zero. */
  function TruncDiv(n: int, d: int): int
    requires d != 0
  {
    if n >= 0 then n / d else -((-n) / d)
  }

  function TruncMod(n: int, d: int): int
    requires d != 0
  {
    n - TruncDiv(n, d) * d
  }

  function WrapFrac(n: int, d: int): int
    requires d != 0
  {
    if TruncMod(n, d) == 0 then TruncDiv(n, d) else TruncDiv(n + d, d)
  }

  function WrapFracDir(a: int, r: int, s: int, da: int): int
    requires da != 0
  {
    if da > 0 then WrapFrac(a - r, da) else WrapFrac(a - s, da)
  }

  function Abs(n: int): int { if n < 0 then -n else n }

  predicate IsCardinal(v: Vector) {
    Abs(v.x) + Abs(v.y) == 1 && !(v.x != 0 && v.y != 0)
  }

  /** How many steps `wrap` goes back. */
  function WrapSteps(box: Box, pos: Vector, delta: Vector): int
    requires !delta.IsZero()
  {
    if delta.x == 0 then
      WrapFracDir(pos.y, box.topLeft.y, box.bottomRight.y, delta.y)
    else if delta.y == 0 then
      WrapFracDir(pos.x, box.topLeft.x, box.bottomRight.x, delta.x)
    else
      var fx := WrapFracDir(pos.x, box.topLeft.x, box.bottomRight.x, delta.x);
      var fy := WrapFracDir(pos.y, box.topLeft.y, box.bottomRight.y, delta.y);
      if fx < fy then fx else fy
  }

  function WrapFlying(box: Box, pos: Vector, delta: Vector): Vector {
    if delta.IsZero() then pos else pos.Back(WrapSteps(box, pos, delta), delta)
  }

  /** One coordinate of a cardinal wrap: one cell beyond the opposite edge. */
  function WrapCardinalAxis(a: int, r: int, s: int): int {
    if a < r then s + 1 else if a > s then r - 1 else a
  }

  /** `fungespace_wrap` for a box that is already minimised as far as it will be. */
  function Wrap(box: Box, pos: Vector, delta: Vector): Vector {
    if box.Has(pos) then pos
    else if IsCardinal(delta) then
      Vector(WrapCardinalAxis(pos.x, box.topLeft.x, box.bottomRight.x),
             WrapCardinalAxis(pos.y, box.topLeft.y, box.bottomRight.y))
    else WrapFlying(box, pos, delta)
  }

  /** `ip_forward` */
  function Forward(box: Box, pos: Vector, delta: Vector): Vector {
    Wrap(box, pos.Plus(delta), delta)
  }

  // ----- the stepping definition of Lahey space

  /** How far c can still go back inside the box before a coordinate leaves it. */
  function Room(box: Box, c: Vector, delta: Vector): int {
    if delta.x > 0 then c.x - box.topLeft.x
    else if delta.x < 0 then box.bottomRight.x - c.x
    else if delta.y > 0 then c.y - box.topLeft.y
    else box.bottomRight.y - c.y
  }

  /** Walk backwards from c until the next step back would leave the box. */
  function Rewind(box: Box, c: Vector, delta: Vector): (e: Vector)
    requires box.Has(c) && !delta.IsZero()
    ensures box.Has(e) && !box.Has(e.Minus(delta))
    decreases Room(box, c, delta)
  {
    if box.Has(c.Minus(delta)) then Rewind(box, c.Minus(delta), delta) else c
  }

  /** The cell of the box that follows c on its line: one step on, or the far end. */
  function Next(box: Box, c: Vector, delta: Vector): (n: Vector)
    requires box.Has(c) && !delta.IsZero()
    ensures box.Has(n)
  {
    if box.Has(c.Plus(delta)) then c.Plus(delta) else Rewind(box, c, delta)
  }

  /** e is the cell where the ray backwards from pos leaves the box, m steps back. */
  predicate IsReentry(box: Box, pos: Vector, delta: Vector, e: Vector, m: nat) {
    1 <= m && e == pos.Back(m, delta) && box.Has(e) && !box.Has(e.Minus(delta))
  }

  /** The edge through which an IP moving along delta enters the box. */
  predicate OnEntryEdge(box: Box, e: Vector, delta: Vector) {
    || (delta.x > 0 && e.x == box.topLeft.x)
    || (delta.x < 0 && e.x == box.bottomRight.x)
    || (delta.y > 0 && e.y == box.topLeft.y)
    || (delta.y < 0 && e.y == box.bottomRight.y)
  }

  // ----- the closed form against the stepping definition

  /** Reflecting distance and step does not change the fraction. */
  lemma WrapFracSigns(n: int, d: int)
    requires d != 0
    ensures WrapFrac(-n, -d) == WrapFrac(n, d)
  {
    TruncDivSigns(n, d);
    TruncDivSigns(n + d, d);
    var q := TruncDiv(n, d);
    assert q * -d == -(q * d);
  }

  lemma TruncDivSigns(n: int, d: int)
    requires d != 0
    ensures TruncDiv(-n, -d) == TruncDiv(n, d)
  {
    DivSigns(if n < 0 then -n else n, d);
  }

  lemma DivSigns(n: int, d: int)
    requires d != 0
    ensures n / -d == -(n / d)
  {
  }

  lemma MulMonotone(a: int, b: int, d: int)
    requires a <= b && 0 <= d
    ensures a * d <= b * d
  {
    assert (b - a) * d >= 0;
  }

  lemma QuotientUnique(n: int, d: int, q: int)
    requires 0 < d && q * d <= n < q * d + d
    ensures n / d == q
  {
    var q' := n / d;
    assert q' * d + n % d == n;
    if q < q' { MulMonotone(q + 1, q', d); }
    if q' < q { MulMonotone(q' + 1, q, d); }
  }

  /** Leaving the box, the fraction is the ceiling of the distance over the step. */
  lemma WrapFracCeiling(n: int, d: int)
    requires 0 <= n && 0 < d
    ensures var c := WrapFrac(n, d); 0 <= c && (c - 1) * d < n <= c * d
  {
    var q, r := n / d, n % d;
    assert n == q * d + r;
    assert 0 <= q by { if q < 0 { MulMonotone(q, -1, d); } }
    QuotientUnique(n + d, d, q + 1);
  }

  /** One axis: re-entry m steps back leaves n - m * d of the distance n, the entry edge
    * being at 0. The ceiling is m exactly on the edge; if one more step would cross the
    * edge it is at most m + 1. */
  lemma CeilingAtReentry(n: int, d: int, m: nat)
    requires 0 < d && m * d <= n
    ensures m <= WrapFrac(n, d)
    ensures WrapFrac(n, d) == m <==> n == m * d
    ensures n < m * d + d ==> WrapFrac(n, d) <= m + 1
  {
    MulMonotone(0, m, d);
    WrapFracCeiling(n, d);
    var c := WrapFrac(n, d);
    if c < m { MulMonotone(c, m - 1, d); }
    if m < c { MulMonotone(m, c - 1, d); }
    if m + 1 < c { MulMonotone(m + 1, c - 1, d); }
  }

  /** The same in either direction along an axis from r to s. */
  lemma AxisAtReentry(a: int, r: int, s: int, da: int, m: nat)
    requires da != 0 && r <= a - m * da <= s
    ensures var f := WrapFracDir(a, r, s, da);
      && m <= f
      && (f == m <==> a - m * da == if da > 0 then r else s)
      && (!(r <= a - m * da - da <= s) ==> f <= m + 1)
  {
    if da > 0 {
      CeilingAtReentry(a - r, da, m);
    } else {
      assert m * da == -(m * -da);
      WrapFracSigns(s - a, -da);
      CeilingAtReentry(s - a, -da, m);
    }
  }

  /** Lahey wrapping, closed form: whenever the ray backwards from pos meets the box and
    * leaves it again at e, a flying wrap lands on e if e is on an entry edge, and
    * otherwise one step before e, outside the box. */
  lemma FlyingWrapLands(box: Box, pos: Vector, delta: Vector, e: Vector, m: nat)
    requires !delta.IsZero() && IsReentry(box, pos, delta, e, m)
    ensures WrapFlying(box, pos, delta) == if OnEntryEdge(box, e, delta) then e else e.Minus(delta)
  {
    if delta.x != 0 { AxisAtReentry(pos.x, box.topLeft.x, box.bottomRight.x, delta.x, m); }
    if delta.y != 0 { AxisAtReentry(pos.y, box.topLeft.y, box.bottomRight.y, delta.y, m); }
    var f := WrapSteps(box, pos, delta);
    assert f == m || f == m + 1;
    assert f == m <==> OnEntryEdge(box, e, delta);
    BackOneMore(pos, m, delta);
  }

  lemma BackOneMore(pos: Vector, m: int, delta: Vector)
    ensures pos.Back(m + 1, delta) == pos.Back(m, delta).Minus(delta)
    ensures pos.Back(m + 1, delta) == pos.Minus(delta).Back(m, delta)
    ensures pos.Back(0, delta) == pos
  {
  }

  /** A cardinal wrap always lands one step before the re-entry cell. */
  lemma CardinalWrapLands(box: Box, pos: Vector, delta: Vector, e: Vector, m: nat)
    requires IsCardinal(delta) && !box.Has(pos) && IsReentry(box, pos, delta, e, m)
    ensures Wrap(box, pos, delta) == e.Minus(delta)
  {
    assert delta.x == 1 || delta.x == -1 || delta.x == 0;
    assert delta.y == 1 || delta.y == -1 || delta.y == 0;
    var k: int := m;
    assert pos == e.Back(-k, delta);
  }

  /** How many times one can step back from c inside the box. */
  function Behind(box: Box, c: Vector, delta: Vector): (n: nat)
    requires box.Has(c) && !delta.IsZero()
    ensures Rewind(box, c, delta) == c.Back(n, delta)
    decreases Room(box, c, delta)
  {
    if box.Has(c.Minus(delta)) then
      var n := Behind(box, c.Minus(delta), delta);
      BackOneMore(c, n, delta);
      n + 1
    else 0
  }

  /** One `ip_forward` from inside the box: straight on, or to the far end of the line,
    * or to the outside cell just before that end, from where one more step enters. */
  lemma ForwardStep(box: Box, c: Vector, delta: Vector)
    requires box.Has(c) && !delta.IsZero()
    ensures var f := Forward(box, c, delta);
      && (box.Has(f) ==> f == Next(box, c, delta))
      && (!box.Has(f) ==> f == Next(box, c, delta).Minus(delta)
                          && Forward(box, f, delta) == Next(box, c, delta))
    ensures !box.Has(Forward(box, c, delta)) <==>
      && !box.Has(c.Plus(delta))
      && (IsCardinal(delta) || !OnEntryEdge(box, Rewind(box, c, delta), delta))
  {
    var pos := c.Plus(delta);
    if !box.Has(pos) {
      var n := Behind(box, c, delta);
      var e := Rewind(box, c, delta);
      BackOneMore(pos, n, delta);
      assert pos.Minus(delta) == c;
      assert IsReentry(box, pos, delta, e, n + 1);
      if IsCardinal(delta) {
        CardinalWrapLands(box, pos, delta, e, n + 1);
      } else {
        FlyingWrapLands(box, pos, delta, e, n + 1);
      }
      assert e.Minus(delta).Plus(delta) == e;
    }
  }

  /** The wrapping code kept under SLOW_WRAP, for a position outside the box. */
  function SlowWrap(box: Box, pos: Vector, delta: Vector): Vector
    requires !delta.IsZero()
  {
    if box.Has(pos.Minus(delta)) then Rewind(box, pos.Minus(delta), delta) else pos
  }

  /** For an IP that has just left the box the slow code finds the far end of its line, and
    * the fast code agrees, or stays one outside cell behind it and catches up on the next
    * step. For any other position outside the box the slow code does nothing. */
  lemma FastWrapRefinesSlow(box: Box, pos: Vector, delta: Vector)
    requires !delta.IsZero() && !box.Has(pos)
    ensures var fast, slow := Wrap(box, pos, delta), SlowWrap(box, pos, delta);
      box.Has(pos.Minus(delta)) <==>
        box.Has(slow) && (fast == slow || (!box.Has(fast) && Forward(box, fast, delta) == slow))
    ensures !box.Has(pos.Minus(delta)) ==> SlowWrap(box, pos, delta) == pos
  {
    hide Wrap;
    if box.Has(pos.Minus(delta)) {
      assert pos.Minus(delta).Plus(delta) == pos;
      ForwardStep(box, pos.Minus(delta), delta);
    }
  }

  /** Turning round and stepping again returns to where one came from. */
  lemma ReflectionRetraces(box: Box, c: Vector, delta: Vector)
    requires box.Has(c) && !delta.IsZero()
    ensures Next(box, Next(box, c, delta), delta.Reversed()) == c
  {
    var back := delta.Reversed();
    if box.Has(c.Plus(delta)) {
      assert c.Plus(delta).Plus(back) == c;
    } else {
      assert c.Minus(back) == c.Plus(delta);
      RewindBothWays(box, c, delta);
      var e := Rewind(box, c, delta);
      assert e.Plus(back) == e.Minus(delta);
    }
  }

  lemma {:induction false} RewindBothWays(box: Box, c: Vector, delta: Vector)
    requires box.Has(c) && !delta.IsZero()
    ensures Rewind(box, Rewind(box, c, delta), delta.Reversed()) == Rewind(box, c, delta.Reversed())
    decreases Room(box, c, delta)
  {
    var b := c.Minus(delta);
    if box.Has(b) {
      RewindBothWays(box, b, delta);
      assert b.Minus(delta.Reversed()) == c;
    }
  }

  /** For each non-zero delta the in-box successor is a permutation of the box. */
  lemma NextIsPermutation(box: Box, delta: Vector)
    requires !delta.IsZero()
    ensures forall c, d | box.Has(c) && box.Has(d) && Next(box, c, delta) == Next(box, d, delta) :: c == d
    ensures forall c | box.Has(c) ::
      box.Has(Next(box, c, delta.Reversed())) && Next(box, Next(box, c, delta.Reversed()), delta) == c
  {
    var back := delta.Reversed();
    forall c | box.Has(c)
      ensures Next(box, Next(box, c, delta), back) == c
      ensures Next(box, Next(box, c, back), delta) == c
    {
      ReflectionRetraces(box, c, delta);
      ReflectionRetraces(box, c, back);
      assert back.Reversed() == delta;
    }
    forall c, d | box.Has(c) && box.Has(d) && Next(box, c, delta) == Next(box, d, delta)
      ensures c == d
    {
      assert Next(box, Next(box, c, delta), back) == c;
    }
  }

  // ----- the whole line

  /** The k-th in-box successor of c. */
  function Walk(box: Box, c: Vector, delta: Vector, k: nat): (r: Vector)
    requires box.Has(c) && !delta.IsZero()
    ensures box.Has(r)
  {
    if k == 0 then c else Next(box, Walk(box, c, delta, k - 1), delta)
  }

  /** The number of cells of the box on the line through c. */
  function LineLength(box: Box, c: Vector, delta: Vector): nat
    requires box.Has(c) && !delta.IsZero()
  {
    Behind(box, c, delta) + 1 + Behind(box, c, delta.Reversed())
  }

  lemma {:induction false} BehindReaches(box: Box, c: Vector, delta: Vector, t: nat)
    requires box.Has(c) && !delta.IsZero() && box.Has(c.Back(t, delta))
    ensures t <= Behind(box, c, delta)
    decreases t
  {
    if 0 < t {
      var b := c.Minus(delta);
      BackOneMore(c, t - 1, delta);
      Between(c.x, delta.x, t, box.topLeft.x, box.bottomRight.x);
      Between(c.y, delta.y, t, box.topLeft.y, box.bottomRight.y);
      BehindReaches(box, b, delta, t - 1);
    }
  }

  lemma Between(a: int, d: int, t: nat, lo: int, hi: int)
    requires 0 < t && lo <= a <= hi && lo <= a - t * d <= hi
    ensures lo <= a - d <= hi
  {
    if d >= 0 { MulMonotone(1, t, d); } else { MulMonotone(1, t, -d); assert t * -d == -(t * d); }
  }

  lemma {:induction false} WalkAhead(box: Box, c: Vector, delta: Vector, k: nat)
    requires box.Has(c) && !delta.IsZero() && k <= Behind(box, c, delta.Reversed())
    ensures Walk(box, c, delta, k) == c.Back(k, delta.Reversed())
  {
    var back := delta.Reversed();
    BackOneMore(c, 0, back);
    if 0 < k {
      WalkAhead(box, c, delta, k - 1);
      BackOneMore(c, k - 1, back);
      assert c.Back(k - 1, back).Plus(delta) == c.Back(k, back);
      BackInside(box, c, back, k);
    }
  }

  lemma {:induction false} BackInside(box: Box, c: Vector, delta: Vector, k: nat)
    requires box.Has(c) && !delta.IsZero() && k <= Behind(box, c, delta)
    ensures box.Has(c.Back(k, delta))
    ensures Behind(box, c.Back(k, delta), delta) == Behind(box, c, delta) - k
    decreases k
  {
    BackOneMore(c, 0, delta);
    if 0 < k {
      BackOneMore(c, k - 1, delta);
      BackInside(box, c.Minus(delta), delta, k - 1);
    }
  }

  lemma {:induction false} WalkAdds(box: Box, c: Vector, delta: Vector, i: nat, k: nat)
    requires box.Has(c) && !delta.IsZero()
    ensures Walk(box, Walk(box, c, delta, i), delta, k) == Walk(box, c, delta, i + k)
  {
    if 0 < k { WalkAdds(box, c, delta, i, k - 1); }
  }

  /** Every cell of the box on the line through c comes up within one round of it. */
  lemma WalkReachesLine(box: Box, c: Vector, delta: Vector, t: int) returns (k: nat)
    requires box.Has(c) && !delta.IsZero() && box.Has(c.Back(t, delta))
    ensures 1 <= k <= LineLength(box, c, delta) && Walk(box, c, delta, k) == c.Back(t, delta)
  {
    hide Walk, Next, Rewind, Behind, Vector.Back;
    if t < 0 {
      k := -t;
      WalkForward(box, c, delta, k);
    } else {
      var a, b := Behind(box, c, delta.Reversed()) + 1, Behind(box, c, delta);
      BehindReaches(box, c, delta, t);
      WalkAroundEnd(box, c, delta);
      BehindFromEnd(box, c, delta);
      WalkFromEnd(box, c, delta, a, b, t);
      k := a + (b - t);
    }
  }

  lemma WalkForward(box: Box, c: Vector, delta: Vector, k: nat)
    requires box.Has(c) && !delta.IsZero() && box.Has(c.Back(-(k as int), delta))
    ensures k <= Behind(box, c, delta.Reversed())
    ensures Walk(box, c, delta, k) == c.Back(-(k as int), delta)
  {
    var back := delta.Reversed();
    assert c.Back(k, back) == c.Back(-(k as int), delta);
    BehindReaches(box, c, back, k);
    WalkAhead(box, c, delta, k);
  }

  /** From the end e of the line, reached after a steps, on to the cell t steps behind c. */
  lemma WalkFromEnd(box: Box, c: Vector, delta: Vector, a: nat, b: nat, t: nat)
    requires box.Has(c) && !delta.IsZero()
    requires Walk(box, c, delta, a) == c.Back(b, delta)
    requires t <= b <= Behind(box, Walk(box, c, delta, a), delta.Reversed())
    ensures Walk(box, c, delta, a + (b - t)) == c.Back(t, delta)
  {
    var e := Walk(box, c, delta, a);
    WalkAhead(box, e, delta, b - t);
    WalkAdds(box, c, delta, a, b - t);
    BackBack(c, delta, b, b - t);
  }

  lemma WalkAroundEnd(box: Box, c: Vector, delta: Vector)
    requires box.Has(c) && !delta.IsZero()
    ensures Walk(box, c, delta, Behind(box, c, delta.Reversed()) + 1) == Rewind(box, c, delta)
  {
    hide Next, Rewind, Behind, Vector.Back;
    var back := delta.Reversed();
    var ahead := Behind(box, c, back);
    WalkAhead(box, c, delta, ahead);
    EndOfLine(box, c, delta);
  }

  lemma EndOfLine(box: Box, c: Vector, delta: Vector)
    requires box.Has(c) && !delta.IsZero()
    ensures Next(box, Rewind(box, c, delta.Reversed()), delta) == Rewind(box, c, delta)
  {
    var back := delta.Reversed();
    var end := Rewind(box, c, back);
    assert back.Reversed() == delta && end.Minus(back) == end.Plus(delta);
    RewindBothWays(box, c, back);
  }

  lemma BackBack(c: Vector, delta: Vector, n: int, m: int)
    ensures c.Back(n, delta).Back(m, delta.Reversed()) == c.Back(n - m, delta)
  {
    assert (n - m) * delta.x == n * delta.x - m * delta.x;
    assert (n - m) * delta.y == n * delta.y - m * delta.y;
  }

  lemma BehindFromEnd(box: Box, c: Vector, delta: Vector)
    requires box.Has(c) && !delta.IsZero()
    ensures Behind(box, c, delta) <= Behind(box, Rewind(box, c, delta), delta.Reversed())
  {
    var n := Behind(box, c, delta);
    var e := c.Back(n, delta);
    BackBack(c, delta, n, n);
    BackOneMore(c, 0, delta);
    BehindReaches(box, e, delta.Reversed(), n);
  }
}
