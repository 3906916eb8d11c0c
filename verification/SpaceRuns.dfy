/** Whole runs of stores, bounds queries and wraps on one Funge-Space. */
module SpaceRuns {
  import opened Lahey
  import opened AxisCounts
  import opened FungeSpace

  datatype Op = Put(value: int, v: Vector) | Minimise | Wrapping(position: Vector, delta: Vector)

  /** The value a run leaves at w: the last one put there. */
  ghost function ValueAfter(f: Plane, ops: seq<Op>, w: Vector): int {
    if ops == [] then f[w]
    else
      var op := ops[|ops| - 1];
      if op.Put? && op.v == w then op.value else ValueAfter(f, ops[..|ops| - 1], w)
  }

  /** What a caller can know of a space between two operations. */
  datatype Snapshot = Snapshot(f: Plane, filled: set<Vector>, box: Box, exact: bool)

  ghost function Taken(space: Space): Snapshot
    requires space.cells.Length == STATIC_X * STATIC_Y
    reads space, space.cells
  {
    Snapshot(PlaneOf(space), space.filled, space.box, space.boundsExact)
  }

  /** The exact flag, when set, tells the truth about a space that is not blank. */
  ghost predicate Truthful(s: Snapshot) {
    s.exact && s.filled != {} ==> IsHullOf(s.box, s.filled)
  }

  /** The operation scans for the bounds. */
  predicate Scans(s: Snapshot, op: Op) {
    && !s.exact
    && (op.Minimise? || (op.Wrapping? && (s.box.bottomRight.x - s.box.topLeft.x > SIMPLEBOUNDS_MAX
                                          || s.box.bottomRight.y - s.box.topLeft.y > SIMPLEBOUNDS_MAX)))
  }

  /** A scan finds the hull, and no first cell is put into a blank space whose box is flagged
    * exact but is not just that cell. */
  ghost predicate Safe(s: Snapshot, op: Op) {
    && (Scans(s, op) && s.filled != {} ==> HullIsFound(s.box, s.filled))
    && (op.Put? && op.value != SPACE && s.filled == {} && s.exact ==> s.box == Box(op.v, op.v))
  }

  /** How an operation changes cells, box and flag. */
  ghost predicate Follows(s: Snapshot, op: Op, t: Snapshot) {
    && (forall w :: t.f[w] == if op.Put? && op.v == w then op.value else s.f[w])
    && (op.Put? ==>
          && t.box == (if op.value == SPACE then s.box else Grown(s.box, op.v))
          && t.exact == (s.exact && !(op.value == SPACE && op.v in s.filled && OnEdge(s.box, op.v))))
    && (!op.Put? && !Scans(s, op) ==> t.box == s.box && t.exact == s.exact)
    && (Scans(s, op) ==> t.exact && (s.filled != {} ==> (IsHullOf(t.box, t.filled) <==> HullIsFound(s.box, s.filled))))
    && (forall w :: w in t.filled <==> t.f[w] != SPACE)
  }

  /** One operation: from a truthful flag to a truthful flag exactly when it is safe. */
  method Apply(space: Space, op: Op)
    requires space.Valid()
    modifies space.Repr()
    ensures space.Valid() && Follows(old(Taken(space)), op, Taken(space))
    ensures Truthful(old(Taken(space))) ==> (Truthful(Taken(space)) <==> Safe(old(Taken(space)), op))
  {
    hide Space.Get, Space.Counted, IsHullOf, HullIsFound, OnEdge, Space.Shaped;
    match op {
      case Put(value, v) =>
        space.Set(value, v);
      case Minimise =>
        space.MinimizeBounds();
      case Wrapping(position, delta) =>
        var _ := space.WrapPosition(position, delta);
    }
  }

  /** After any run every cell holds the last value put there. A flag that is truthful at the
    * start is so at every moment of the run exactly when each operation is safe where it is
    * applied; stores into a space that is not blank always are. */
  method Run(space: Space, ops: seq<Op>) returns (ghost trace: seq<Snapshot>)
    requires space.Valid()
    modifies space.Repr()
    ensures space.Valid()
    ensures forall w :: space.Get(w) == ValueAfter(old(PlaneOf(space)), ops, w)
    ensures |trace| == |ops| + 1 && trace[0] == old(Taken(space)) && trace[|ops|] == Taken(space)
    ensures forall k | 0 <= k < |ops| :: Follows(trace[k], ops[k], trace[k + 1])
    ensures Truthful(trace[0]) ==>
      ((forall k | 0 <= k <= |ops| :: Truthful(trace[k])) <==> (forall k | 0 <= k < |ops| :: Safe(trace[k], ops[k])))
  {
    hide Space.Get, Space.Valid, Truthful, Safe, Follows;
    HasCells(space);
    ghost var f := PlaneOf(space);
    trace := [Taken(space)];
    var i := 0;
    assert ops[..0] == [];
    while i < |ops|
      invariant 0 <= i <= |ops| && space.Valid()
      invariant forall w :: space.Get(w) == ValueAfter(f, ops[..i], w)
      invariant |trace| == i + 1 && trace[0] == old(Taken(space)) && trace[i] == Taken(space)
      invariant forall k | 0 <= k < i :: Follows(trace[k], ops[k], trace[k + 1])
      invariant forall k | 0 <= k < i && Truthful(trace[k]) :: Truthful(trace[k + 1]) <==> Safe(trace[k], ops[k])
    {
      Apply(space, ops[i]);
      PutChanges(trace[i], ops[i], Taken(space));
      forall w { ValueStep(f, ops, i, w); }
      trace := trace + [Taken(space)];
      i := i + 1;
    }
    assert ops[..|ops|] == ops;
    if Truthful(trace[0]) {
      AllTruthful(ops, trace, |ops|);
    }
  }

  lemma PutChanges(s: Snapshot, op: Op, t: Snapshot)
    requires Follows(s, op, t)
    ensures forall w :: t.f[w] == if op.Put? && op.v == w then op.value else s.f[w]
  {
  }

  /** The flag is truthful up to a moment exactly when every operation before it was safe. */
  lemma {:induction false} AllTruthful(ops: seq<Op>, trace: seq<Snapshot>, n: nat)
    requires |trace| == |ops| + 1 && n <= |ops| && Truthful(trace[0])
    requires forall k | 0 <= k < |ops| && Truthful(trace[k]) :: Truthful(trace[k + 1]) <==> Safe(trace[k], ops[k])
    ensures (forall k | 0 <= k <= n :: Truthful(trace[k])) <==> (forall k | 0 <= k < n :: Safe(trace[k], ops[k]))
  {
    hide Truthful, Safe;
    if n > 0 {
      AllTruthful(ops, trace, n - 1);
      assert Truthful(trace[n - 1]) ==> (Truthful(trace[n - 1 + 1]) <==> Safe(trace[n - 1], ops[n - 1]));
    }
  }

  lemma ValueStep(f: Plane, ops: seq<Op>, i: nat, w: Vector)
    requires i < |ops|
    ensures ValueAfter(f, ops[..i + 1], w) ==
      if ops[i].Put? && ops[i].v == w then ops[i].value else ValueAfter(f, ops[..i], w)
  {
    assert ops[..i + 1][..i] == ops[..i];
  }

  /** An operation that is not safe: with no non-blank cell in the sparse
    * columns, minimising a wide box keeps column 0 in it. */
  method SparseMinimiseKeepsZero() returns (space: Space)
    ensures fresh(space) && space.Valid() && space.boundsExact
    ensures space.filled == {Vector(1, 1)} && !IsHullOf(space.box, space.filled)
  {
    hide Space.Get, Space.Counted, AxisCount.At, Space.Truthful;
    space := new Space();
    var far := Vector(2 * SIMPLEBOUNDS_MAX, 1);
    space.Set(1, far);
    space.Set(1, Vector(1, 1));
    space.Set(SPACE, far);
    assert space.filled == {Vector(1, 1)};
    NoSparseColumn(space);
    space.MinimizeBounds();
  }

  lemma NoSparseColumn(space: Space)
    requires space.Valid() && space.filled == {Vector(1, 1)}
    ensures space.cols.sparse.keys == []
  {
    if space.cols.sparse.keys != [] {
      var k := space.cols.sparse.keys[0];
      assert k in space.cols.sparse.counts;
      assert space.cols.At(k) != 0;
      ColumnInUse(space.filled, k);
    }
  }
}
