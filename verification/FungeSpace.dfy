/** Funge-Space: a static area and a table standing for a total map from vectors to
  * cells, the bounding box, the use counts behind the exact bounds, and wrapping. */
module FungeSpace {
  import opened Lahey
  import opened AxisCounts

  const SPACE := 0x20
  const STATIC_OFFSET_X := 64
  const STATIC_OFFSET_Y := 64
  const STATIC_X := 512
  const STATIC_Y := 1024
  const SIMPLEBOUNDS_MAX := 0x10000

  predicate InStatic(v: Vector) {
    0 <= v.x + STATIC_OFFSET_X < STATIC_X && 0 <= v.y + STATIC_OFFSET_Y < STATIC_Y
  }

  function StaticCoord(v: Vector): int {
    v.x + STATIC_OFFSET_X + (v.y + STATIC_OFFSET_Y) * STATIC_X
  }

  ghost function Column(s: set<Vector>, x: int): set<Vector> {
    set v | v in s && v.x == x
  }

  ghost function Row(s: set<Vector>, y: int): set<Vector> {
    set v | v in s && v.y == y
  }

  lemma LinesAfterAdd(s: set<Vector>, v: Vector)
    requires v !in s
    ensures forall x :: |Column(s + {v}, x)| == |Column(s, x)| + if v.x == x then 1 else 0
    ensures forall y :: |Row(s + {v}, y)| == |Row(s, y)| + if v.y == y then 1 else 0
  {
    forall x
      ensures |Column(s + {v}, x)| == |Column(s, x)| + if v.x == x then 1 else 0
    {
      assert Column(s + {v}, x) == if v.x == x then Column(s, x) + {v} else Column(s, x);
    }
    forall y
      ensures |Row(s + {v}, y)| == |Row(s, y)| + if v.y == y then 1 else 0
    {
      assert Row(s + {v}, y) == if v.y == y then Row(s, y) + {v} else Row(s, y);
    }
  }

  lemma LinesAfterRemove(s: set<Vector>, v: Vector)
    requires v in s
    ensures forall x :: |Column(s - {v}, x)| == |Column(s, x)| - if v.x == x then 1 else 0
    ensures forall y :: |Row(s - {v}, y)| == |Row(s, y)| - if v.y == y then 1 else 0
  {
    forall x
      ensures |Column(s - {v}, x)| == |Column(s, x)| - if v.x == x then 1 else 0
    {
      assert Column(s - {v}, x) == if v.x == x then Column(s, x) - {v} else Column(s, x);
    }
    forall y
      ensures |Row(s - {v}, y)| == |Row(s, y)| - if v.y == y then 1 else 0
    {
      assert Row(s - {v}, y) == if v.y == y then Row(s, y) - {v} else Row(s, y);
    }
  }

  lemma ColumnInUse(s: set<Vector>, x: int)
    ensures |Column(s, x)| != 0 <==> exists v :: v in s && v.x == x
  {
    if |Column(s, x)| != 0 {
      var v :| v in Column(s, x);
    } else {
      assert forall v | v in s && v.x == x :: v in Column(s, x);
    }
  }

  lemma RowInUse(s: set<Vector>, y: int)
    ensures |Row(s, y)| != 0 <==> exists v :: v in s && v.y == y
  {
    if |Row(s, y)| != 0 {
      var v :| v in Row(s, y);
    } else {
      assert forall v | v in s && v.y == y :: v in Row(s, y);
    }
  }

  /** The smallest box around both, for a box and a point. */
  function Grown(box: Box, v: Vector): Box {
    Box(Vector(Min(box.topLeft.x, v.x), Min(box.topLeft.y, v.y)),
        Vector(Max(box.bottomRight.x, v.x), Max(box.bottomRight.y, v.y)))
  }

  predicate OnEdge(box: Box, v: Vector) {
    v.x == box.bottomRight.x || v.y == box.bottomRight.y || v.x == box.topLeft.x || v.y == box.topLeft.y
  }

  /** box is the hull of s: it holds s, and each of its edges touches s. */
  ghost predicate IsHullOf(box: Box, s: set<Vector>) {
    && (forall v | v in s :: box.Has(v))
    && (exists v | v in s :: v.x == box.topLeft.x)
    && (exists v | v in s :: v.x == box.bottomRight.x)
    && (exists v | v in s :: v.y == box.topLeft.y)
    && (exists v | v in s :: v.y == box.bottomRight.y)
  }

  /** Minimising finds the columns of s: the box is of moderate width, or some column in use
    * lies outside the static area, or there are columns in use on both sides of 0. */
  ghost predicate ColumnsFound(box: Box, s: set<Vector>) {
    || box.bottomRight.x - box.topLeft.x <= SIMPLEBOUNDS_MAX
    || (exists v | v in s :: !(0 <= v.x + STATIC_OFFSET_X < STATIC_X))
    || ((exists v | v in s :: v.x <= 0) && (exists v | v in s :: v.x >= 0))
  }

  ghost predicate RowsFound(box: Box, s: set<Vector>) {
    || box.bottomRight.y - box.topLeft.y <= SIMPLEBOUNDS_MAX
    || (exists v | v in s :: !(0 <= v.y + STATIC_OFFSET_Y < STATIC_Y))
    || ((exists v | v in s :: v.y <= 0) && (exists v | v in s :: v.y >= 0))
  }

  ghost predicate HullIsFound(box: Box, s: set<Vector>) {
    ColumnsFound(box, s) && RowsFound(box, s)
  }

  class Space {
    var box: Box
    var boundsValid: bool
    var boundsExact: bool
    var entries: map<Vector, int>
    const cells: array<int>
    const cols: AxisCount
    const rows: AxisCount
    ghost var filled: set<Vector>

    /** fungespace_get: every vector has a cell. */
    function Get(v: Vector): int
      requires cells.Length == STATIC_X * STATIC_Y
      reads this`entries, cells
    {
      if InStatic(v) then cells[StaticCoord(v)]
      else if v in entries then entries[v] else SPACE
    }

    ghost function Repr(): set<object> {
      {this, cells, cols, cols.dense, rows, rows.dense}
    }

    ghost predicate Valid()
      reads Repr()
    {
      && Shaped()
      && (forall v :: v in filled <==> Get(v) != SPACE)
      && Counted(filled)
      && (forall v | v in filled :: box.Has(v))
      && box.topLeft.x <= box.bottomRight.x && box.topLeft.y <= box.bottomRight.y
    }

    /** Every use count is the number of cells of s in that column or row. */
    ghost predicate Counted(s: set<Vector>)
      reads cols, cols.dense, rows, rows.dense
    {
      && (forall x :: cols.At(x) == |Column(s, x)|)
      && (forall y :: rows.At(y) == |Row(s, y)|)
    }

    ghost predicate Shaped()
      reads Repr()
    {
      && cells.Length == STATIC_X * STATIC_Y
      && cells != cols.dense && cells != rows.dense && cols != rows && cols.dense != rows.dense
      && cols.Valid() && rows.Valid()
      && cols.dense.Length == STATIC_X && cols.offset == STATIC_OFFSET_X
      && rows.dense.Length == STATIC_Y && rows.offset == STATIC_OFFSET_Y
      && (forall v | v in entries :: !InStatic(v) && entries[v] != SPACE)
    }

    constructor ()
      ensures Valid() && fresh(Repr())
      ensures filled == {} && boundsExact && !boundsValid
      ensures box == Box(Vector(0, 0), Vector(0, 0))
    {
      cells := new int[STATIC_X * STATIC_Y](i => SPACE);
      cols := new AxisCount(STATIC_X, STATIC_OFFSET_X);
      rows := new AxisCount(STATIC_Y, STATIC_OFFSET_Y);
      box := Box(Vector(0, 0), Vector(0, 0));
      boundsExact, boundsValid := true, false;
      entries, filled := map[], {};
    }

    /** fungespace_count: one cell more or less in its column and row; a cell lost on an
      * edge of the box makes the bounds inexact. */
    method Count(isset: bool, v: Vector)
      requires Shaped() && (!isset ==> cols.At(v.x) != 0 && rows.At(v.y) != 0)
      modifies this`boundsExact, cols, cols.dense, rows, rows.dense
      ensures Shaped()
      ensures forall x :: cols.At(x) == old(cols.At(x)) + if x == v.x then if isset then 1 else -1 else 0
      ensures forall y :: rows.At(y) == old(rows.At(y)) + if y == v.y then if isset then 1 else -1 else 0
      ensures boundsExact == (old(boundsExact) && (isset || !OnEdge(box, v)))
    {
      cols.Count(isset, v.x);
      rows.Count(isset, v.y);
      if !isset && OnEdge(box, v) {
        boundsExact := false;
      }
    }

    /** What a store of `value` at v adds to the count of v's column and row. */
    function Change(value: int, v: Vector): int
      requires cells.Length == STATIC_X * STATIC_Y
      reads this`entries, cells
    {
      (if value != SPACE then 1 else 0) - (if Get(v) != SPACE then 1 else 0)
    }

    /** The static half of fungespace_set_no_bounds_update. */
    method SetStatic(value: int, v: Vector)
      requires Shaped() && InStatic(v)
      requires Get(v) != SPACE ==> cols.At(v.x) != 0 && rows.At(v.y) != 0
      modifies this`boundsExact, cells, cols, cols.dense, rows, rows.dense
      ensures Shaped()
      ensures forall w :: Get(w) == if w == v then value else old(Get(w))
      ensures forall x :: cols.At(x) == old(cols.At(x)) + if x == v.x then old(Change(value, v)) else 0
      ensures forall y :: rows.At(y) == old(rows.At(y)) + if y == v.y then old(Change(value, v)) else 0
      ensures boundsExact == (old(boundsExact) && !(old(Change(value, v)) == -1 && OnEdge(box, v)))
    {
      var prev := cells[StaticCoord(v)];
      cells[StaticCoord(v)] := value;
      if value != prev && (prev == SPACE || value == SPACE) {
        Count(value != SPACE, v);
      }
    }

    /** The table half of fungespace_set_no_bounds_update. */
    method SetEntry(value: int, v: Vector)
      requires Shaped() && !InStatic(v)
      requires Get(v) != SPACE ==> cols.At(v.x) != 0 && rows.At(v.y) != 0
      modifies this`boundsExact, this`entries, cols, cols.dense, rows, rows.dense
      ensures Shaped()
      ensures forall w :: Get(w) == if w == v then value else old(Get(w))
      ensures forall x :: cols.At(x) == old(cols.At(x)) + if x == v.x then old(Change(value, v)) else 0
      ensures forall y :: rows.At(y) == old(rows.At(y)) + if y == v.y then old(Change(value, v)) else 0
      ensures boundsExact == (old(boundsExact) && !(old(Change(value, v)) == -1 && OnEdge(box, v)))
    {
      if v !in entries {
        if value == SPACE { return; }
        entries := entries[v := value];
        Count(true, v);
      } else if value == SPACE {
        entries := entries - {v};
        Count(false, v);
      } else {
        entries := entries[v := value];
      }
    }

    method Store(value: int, v: Vector)
      requires Shaped()
      requires Get(v) != SPACE ==> cols.At(v.x) != 0 && rows.At(v.y) != 0
      modifies this`boundsExact, this`entries, cells, cols, cols.dense, rows, rows.dense
      ensures Shaped()
      ensures forall w :: Get(w) == if w == v then value else old(Get(w))
      ensures forall x :: cols.At(x) == old(cols.At(x)) + if x == v.x then old(Change(value, v)) else 0
      ensures forall y :: rows.At(y) == old(rows.At(y)) + if y == v.y then old(Change(value, v)) else 0
      ensures boundsExact == (old(boundsExact) && !(old(Change(value, v)) == -1 && OnEdge(box, v)))
    {
      if InStatic(v) {
        SetStatic(value, v);
      } else {
        SetEntry(value, v);
      }
    }

    /** fungespace_set_no_bounds_update: stores the value, keeps the counts, and gives up
      * exact bounds when a cell on the edge of the box becomes blank. */
    method SetNoBoundsUpdate(value: int, v: Vector)
      requires Valid() && (value != SPACE ==> box.Has(v))
      modifies Repr()
      ensures Valid() && box == old(box) && boundsValid == old(boundsValid)
      ensures filled == if value == SPACE then old(filled) - {v} else old(filled) + {v}
      ensures forall w :: Get(w) == if w == v then value else old(Get(w))
      ensures boundsExact == (old(boundsExact) && !(value == SPACE && v in old(filled) && OnEdge(box, v)))
    {
      hide Get, Column, Row, AxisCount.At, OnEdge;
      ghost var was := filled;
      ColumnInUse(filled, v.x);
      RowInUse(filled, v.y);
      Store(value, v);
      filled := if value == SPACE then filled - {v} else filled + {v};
      FilledChanges(was, v, value != SPACE);
    }

    /** The exact flag, when set, tells the truth about a space that is not blank. */
    ghost predicate Truthful()
      reads Repr()
    {
      boundsExact && filled != {} ==> IsHullOf(box, filled)
    }

    /** fungespace_set. The flag stays truthful except when a first cell is set in a blank
      * space whose box is flagged exact but is not just that cell. */
    method Set(value: int, v: Vector)
      requires Valid()
      modifies Repr()
      ensures Valid() && boundsValid == old(boundsValid)
      ensures box == if value == SPACE then old(box) else Grown(old(box), v)
      ensures filled == if value == SPACE then old(filled) - {v} else old(filled) + {v}
      ensures forall w :: Get(w) == if w == v then value else old(Get(w))
      ensures boundsExact == (old(boundsExact) && !(value == SPACE && v in old(filled) && OnEdge(box, v)))
      ensures old(Truthful()) ==>
        (Truthful() <==> value == SPACE || old(filled) != {} || !boundsExact || old(box) == Box(v, v))
    {
      ghost var box0, was := box, filled;
      if value != SPACE {
        box := Grown(box, v);
      }
      SetNoBoundsUpdate(value, v);
      HullAfterSet(box0, was, v, value != SPACE);
    }

    /** fungespace_set_initial: the first cell loaded defines the box. */
    method SetInitial(value: int, v: Vector)
      requires Valid() && value != SPACE && (!boundsValid ==> filled == {})
      modifies Repr()
      ensures Valid() && boundsValid && boundsExact == old(boundsExact)
      ensures filled == old(filled) + {v}
      ensures forall w :: Get(w) == if w == v then value else old(Get(w))
      ensures box == if old(boundsValid) then Grown(old(box), v) else Box(v, v)
      ensures old(boundsValid ==> filled != {} && Truthful()) ==> Truthful()
    {
      hide Get, AxisCount.At, Column, Row;
      ghost var box0, was := if boundsValid then box else Box(v, v), filled;
      if boundsValid {
        box := Grown(box, v);
      } else {
        box := Box(v, v);
        boundsValid := true;
      }
      SetNoBoundsUpdate(value, v);
      HullAfterSet(box0, was, v, true);
    }

    /** What minimising makes of one axis that extended from lo0 to hi0. */
    ghost predicate Minimised(axis: AxisCount, lo0: int, hi0: int, lo: int, hi: int)
      reads axis, axis.dense
    {
      if hi0 - lo0 > SIMPLEBOUNDS_MAX && axis.sparse.keys == [] then
        && axis.Within(lo, hi) && lo <= 0 <= hi
        && (lo == 0 || axis.At(lo) != 0) && (hi == 0 || axis.At(hi) != 0)
      else
        axis.Empty() || axis.IsHull(lo, hi)
    }

    /** Minimising one axis. */
    method MinimiseAxis(axis: AxisCount, lo0: int, hi0: int) returns (lo: int, hi: int)
      requires axis.Valid() && lo0 <= hi0 && axis.Within(lo0, hi0)
      ensures Minimised(axis, lo0, hi0, lo, hi) && lo <= hi && axis.Within(lo, hi)
      ensures axis.Empty() && hi0 - lo0 <= SIMPLEBOUNDS_MAX ==> lo == hi == hi0
      ensures !axis.Empty() ==>
        (axis.IsHull(lo, hi) <==> hi0 - lo0 <= SIMPLEBOUNDS_MAX || axis.sparse.keys != [] || axis.Straddles())
    {
      if hi0 - lo0 > SIMPLEBOUNDS_MAX {
        lo, hi := axis.ScanSparsely();
      } else {
        lo, hi := axis.ScanInwards(lo0, hi0);
      }
    }

    /** fungespace_minimize_bounds: the box becomes the hull of the non-blank cells exactly
      * when no axis is wide, without sparse lines in use and on one side of 0 only; in that
      * case the sparse scan over an empty count table keeps coordinate 0 in the box. */
    method MinimizeBounds()
      requires Valid()
      modifies this`box, this`boundsExact
      ensures Valid() && boundsExact
      ensures old(boundsExact) ==> box == old(box)
      ensures !old(boundsExact) ==>
        && Minimised(cols, old(box.topLeft.x), old(box.bottomRight.x), box.topLeft.x, box.bottomRight.x)
        && Minimised(rows, old(box.topLeft.y), old(box.bottomRight.y), box.topLeft.y, box.bottomRight.y)
      ensures !old(boundsExact) && filled != {} ==> (IsHullOf(box, filled) <==> HullIsFound(old(box), filled))
    {
      hide Get, AxisCount.At, IsHullOf, AxisCount.IsHull, AxisCount.Straddles, Column, Row, ColumnsFound, RowsFound;
      if boundsExact { return; }
      BoxByCounts(box);
      ColumnsFoundByCounts(box);
      RowsFoundByCounts(box);
      var minx, maxx := MinimiseAxis(cols, box.topLeft.x, box.bottomRight.x);
      var miny, maxy := MinimiseAxis(rows, box.topLeft.y, box.bottomRight.y);
      box := Box(Vector(minx, miny), Vector(maxx, maxy));
      boundsExact := true;
      BoxByCounts(box);
    }

    lemma ColumnsFoundByCounts(b: Box)
      requires Shaped() && Counted(filled)
      ensures ColumnsFound(b, filled) <==>
        b.bottomRight.x - b.topLeft.x <= SIMPLEBOUNDS_MAX || cols.sparse.keys != [] || cols.Straddles()
    {
      hide AxisCount.At, Column, Row, Get;
      LinesInUse();
      SparseLines(cols);
    }

    lemma RowsFoundByCounts(b: Box)
      requires Shaped() && Counted(filled)
      ensures RowsFound(b, filled) <==>
        b.bottomRight.y - b.topLeft.y <= SIMPLEBOUNDS_MAX || rows.sparse.keys != [] || rows.Straddles()
    {
      hide AxisCount.At, Column, Row, Get;
      LinesInUse();
      SparseLines(rows);
    }

    /** The count table is empty exactly when no line outside the static area is in use. */
    lemma SparseLines(axis: AxisCount)
      requires axis.Valid()
      ensures axis.sparse.keys != [] <==> exists k :: axis.At(k) != 0 && !axis.IsDense(k)
    {
      if axis.sparse.keys != [] {
        var k := axis.sparse.keys[0];
        assert k in axis.sparse.keys;
        assert axis.At(k) != 0;
      }
    }

    /** The counts know whether a box holds all cells, and whether it is their hull. */
    lemma BoxByCounts(b: Box)
      requires Shaped() && Counted(filled)
      ensures (forall v | v in filled :: b.Has(v)) <==>
        cols.Within(b.topLeft.x, b.bottomRight.x) && rows.Within(b.topLeft.y, b.bottomRight.y)
      ensures IsHullOf(b, filled) <==>
        cols.IsHull(b.topLeft.x, b.bottomRight.x) && rows.IsHull(b.topLeft.y, b.bottomRight.y)
      ensures filled != {} ==> !cols.Empty() && !rows.Empty()
    {
      ColumnsByCounts(b);
      RowsByCounts(b);
      InUseUnlessBlank();
      hide AxisCount.At, AxisCount.Within, AxisCount.Empty, Column, Row, Get, Counted, Shaped;
    }

    lemma InUseUnlessBlank()
      requires Shaped() && Counted(filled)
      ensures filled != {} ==> !cols.Empty() && !rows.Empty()
    {
      hide AxisCount.At, Column, Row, Get;
      if filled != {} {
        var v :| v in filled;
        LinesInUse();
        assert cols.At(v.x) != 0 && rows.At(v.y) != 0;
      }
    }

    lemma ColumnsByCounts(b: Box)
      requires Shaped() && Counted(filled)
      ensures (forall v | v in filled :: b.topLeft.x <= v.x <= b.bottomRight.x)
        <==> cols.Within(b.topLeft.x, b.bottomRight.x)
      ensures (exists v | v in filled :: v.x == b.topLeft.x) <==> cols.At(b.topLeft.x) != 0
      ensures (exists v | v in filled :: v.x == b.bottomRight.x) <==> cols.At(b.bottomRight.x) != 0
    {
      hide AxisCount.At, Column, Row, Get;
      LinesInUse();
      if cols.Within(b.topLeft.x, b.bottomRight.x) {
        forall v | v in filled
          ensures b.topLeft.x <= v.x <= b.bottomRight.x
        {
          assert cols.At(v.x) != 0;
        }
      }
    }

    lemma RowsByCounts(b: Box)
      requires Shaped() && Counted(filled)
      ensures (forall v | v in filled :: b.topLeft.y <= v.y <= b.bottomRight.y)
        <==> rows.Within(b.topLeft.y, b.bottomRight.y)
      ensures (exists v | v in filled :: v.y == b.topLeft.y) <==> rows.At(b.topLeft.y) != 0
      ensures (exists v | v in filled :: v.y == b.bottomRight.y) <==> rows.At(b.bottomRight.y) != 0
    {
      hide AxisCount.At, Column, Row, Get;
      LinesInUse();
      if rows.Within(b.topLeft.y, b.bottomRight.y) {
        forall v | v in filled
          ensures b.topLeft.y <= v.y <= b.bottomRight.y
        {
          assert rows.At(v.y) != 0;
        }
      }
    }

    /** A line is in use exactly when a non-blank cell lies on it. */
    lemma LinesInUse()
      requires Shaped() && Counted(filled)
      ensures forall v | v in filled :: cols.At(v.x) != 0 && rows.At(v.y) != 0
      ensures forall x | cols.At(x) != 0 :: exists v :: v in filled && v.x == x
      ensures forall y | rows.At(y) != 0 :: exists v :: v in filled && v.y == y
    {
      forall x
        ensures cols.At(x) != 0 <==> exists v :: v in filled && v.x == x
      {
        ColumnInUse(filled, x);
      }
      forall y
        ensures rows.At(y) != 0 <==> exists v :: v in filled && v.y == y
      {
        RowInUse(filled, y);
      }
    }

    predicate BoundsTooLarge()
      reads this`box
    {
      || box.bottomRight.x - box.topLeft.x > SIMPLEBOUNDS_MAX
      || box.bottomRight.y - box.topLeft.y > SIMPLEBOUNDS_MAX
    }

    /** fungespace_wrap: minimises a very large inexact box, then wraps in closed form. */
    method WrapPosition(position: Vector, delta: Vector) returns (p: Vector)
      requires Valid()
      modifies this`box, this`boundsExact
      ensures Valid() && p == Wrap(box, position, delta)
      ensures old(boundsExact || !BoundsTooLarge()) ==> box == old(box) && boundsExact == old(boundsExact)
      ensures old(!boundsExact && BoundsTooLarge()) ==> boundsExact
      ensures old(!boundsExact && BoundsTooLarge()) && filled != {} ==>
        (IsHullOf(box, filled) <==> HullIsFound(old(box), filled))
    {
      hide IsHullOf, HullIsFound;
      if !boundsExact && BoundsTooLarge() {
        MinimizeBounds();
      }
      p := Wrap(box, position, delta);
    }
  }

  /** What Funge-Space holds: a cell for every vector. */
  type Plane = f: imap<Vector, int> | forall w: Vector :: w in f
    ghost witness imap w: Vector | true :: SPACE

  ghost function PlaneOf(space: Space): (f: Plane)
    requires space.cells.Length == STATIC_X * STATIC_Y
    reads space`entries, space.cells
    ensures forall w :: f[w] == space.Get(w)
  {
    imap w: Vector | true :: space.Get(w)
  }

  lemma HasCells(space: Space)
    requires space.Valid()
    ensures space.cells.Length == STATIC_X * STATIC_Y
  {
  }

  predicate InRect(d: Vector, p: Vector) {
    0 <= p.x < d.x && 0 <= p.y < d.y
  }

  lemma HullAfterSet(box: Box, s: set<Vector>, v: Vector, isset: bool)
    ensures IsHullOf(box, s) && isset ==> IsHullOf(Grown(box, v), s + {v})
    ensures IsHullOf(box, s) && !isset && !(v in s && OnEdge(box, v)) ==> IsHullOf(box, s - {v})
    ensures IsHullOf(box, {v}) <==> box == Box(v, v)
  {
    if IsHullOf(box, s) && isset {
      GrownTouches(box, s, v);
    }
    if box == Box(v, v) { assert v in {v}; }
  }

  lemma GrownTouches(box: Box, s: set<Vector>, v: Vector)
    requires IsHullOf(box, s)
    ensures IsHullOf(Grown(box, v), s + {v})
  {
    var l :| l in s && l.x == box.topLeft.x;
    var r :| r in s && r.x == box.bottomRight.x;
    var t :| t in s && t.y == box.topLeft.y;
    var b :| b in s && b.y == box.bottomRight.y;
    var g := s + {v};
    assert v in g && l in g && r in g && t in g && b in g;
  }

  /** How the set of non-blank cells and its counts change with one store. */
  lemma FilledChanges(s: set<Vector>, v: Vector, isset: bool)
    ensures var t := if isset then s + {v} else s - {v};
      var d := (if isset then 1 else 0) - (if v in s then 1 else 0);
      && (forall x :: |Column(t, x)| == |Column(s, x)| + if x == v.x then d else 0)
      && (forall y :: |Row(t, y)| == |Row(s, y)| + if y == v.y then d else 0)
  {
    if isset && v !in s {
      LinesAfterAdd(s, v);
    } else if !isset && v in s {
      LinesAfterRemove(s, v);
    } else {
      assert s == if isset then s + {v} else s - {v};
    }
  }
}
