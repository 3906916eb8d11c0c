/** Programs as text: how loading lays a text out in Funge-Space, what saving writes, and
  * when the one undoes the other. */
module Texts {
  import opened Lahey
  import opened AxisCounts
  import opened FungeSpace

  type Byte = b: int | 0 <= b < 256

  const LF := 10
  const FF := 12
  const CR := 13

  datatype Option<T> = None | Some(value: T)

  /** Form feeds are ignored. */
  function NoFormFeeds(t: seq<Byte>): seq<Byte> {
    if t == [] then [] else (if t[0] == FF then [] else [t[0]]) + NoFormFeeds(t[1..])
  }

  /** CR, LF and CR LF all end a line. */
  function Unified(t: seq<Byte>): seq<Byte> {
    if t == [] then []
    else if t[0] == CR then [LF] + Unified(if |t| > 1 && t[1] == LF then t[2..] else t[1..])
    else [t[0]] + Unified(t[1..])
  }

  function Lines(t: seq<Byte>): (l: seq<seq<Byte>>)
    ensures |l| >= 1
  {
    if t == [] then [[]]
    else
      var l, c := Lines(t[..|t| - 1]), t[|t| - 1];
      if c == LF then l + [[]] else l[..|l| - 1] + [l[|l| - 1] + [c]]
  }

  /** The lines of a program text. */
  function Layout(t: seq<Byte>): seq<seq<Byte>> {
    Lines(Unified(NoFormFeeds(t)))
  }

  function TextAt(lines: seq<seq<Byte>>, p: Vector): Option<Byte> {
    if 0 <= p.y < |lines| && 0 <= p.x < |lines[p.y]| then Some(lines[p.y][p.x]) else None
  }

  /** Loading leaves alone what is under spaces. */
  ghost function LoadedAt(f: Plane, lines: seq<seq<Byte>>, offset: Vector, w: Vector): int {
    var c := TextAt(lines, w.Minus(offset));
    if c.Some? && c.value != SPACE then c.value else f[w]
  }

  ghost predicate Loaded(space: Space, f: Plane, lines: seq<seq<Byte>>, offset: Vector)
    requires space.cells.Length == STATIC_X * STATIC_Y
    reads space`entries, space.cells
  {
    forall w :: space.Get(w) == LoadedAt(f, lines, offset, w)
  }

  function EndOf(lines: seq<seq<Byte>>): Vector
    requires lines != []
  {
    Vector(|lines[|lines| - 1]|, |lines| - 1)
  }

  function Widest(lines: seq<seq<Byte>>): nat {
    if lines == [] then 0 else Max(Widest(lines[..|lines| - 1]), |lines[|lines| - 1]|)
  }

  function Pending(cr: bool): seq<Byte> { if cr then [CR] else [] }

  /** One byte of the text, with or without a CR before it. */
  lemma UnifyStep(cr: bool, c: Byte, rest: seq<Byte>)
    ensures c == LF ==> Unified(Pending(cr) + [c] + rest) == [LF] + Unified(rest)
    ensures c == CR && cr ==> Unified(Pending(cr) + [c] + rest) == [LF] + Unified([CR] + rest)
    ensures c != LF && c != CR ==> Unified(Pending(cr) + [c] + rest) == (if cr then [LF] else []) + [c] + Unified(rest)
  {
    hide Unified;
    var t, u := Pending(cr) + [c] + rest, [c] + rest;
    UnifiedUnfold(t);
    UnifiedUnfold(u);
    assert u[1..] == rest;
    if cr {
      assert t[1..] == u && t[2..] == rest;
      assert [LF] + ([c] + Unified(rest)) == [LF] + [c] + Unified(rest);
    } else {
      assert t == u;
      assert [] + [c] == [c];
    }
  }

  lemma UnifiedUnfold(t: seq<Byte>)
    requires t != []
    ensures Unified(t) ==
      if t[0] == CR then [LF] + Unified(if |t| > 1 && t[1] == LF then t[2..] else t[1..])
      else [t[0]] + Unified(t[1..])
  {
  }

  lemma NoFormFeedsStep(t: seq<Byte>, i: nat)
    requires i < |t|
    ensures NoFormFeeds(t[i..]) == (if t[i] == FF then [] else [t[i]]) + NoFormFeeds(t[i + 1..])
  {
    assert t[i..][1..] == t[i + 1..];
  }

  /** One byte more of unified text, laid out. */
  lemma LinesStep(t: seq<Byte>, c: Byte)
    ensures Lines(t + [c]) == if c == LF then Lines(t) + [[]]
                              else Lines(t)[..|Lines(t)| - 1] + [Lines(t)[|Lines(t)| - 1] + [c]]
    ensures EndOf(Lines(t + [c])) == if c == LF then Vector(0, EndOf(Lines(t)).y + 1) else EndOf(Lines(t)).Plus(Vector(1, 0))
  {
    hide Lines, EndOf;
    var u := t + [c];
    assert u != [] && u[..|u| - 1] == t && u[|u| - 1] == c;
    LinesUnfold(u);
    EndStep(Lines(t), c);
  }

  lemma LinesUnfold(u: seq<Byte>)
    requires u != []
    ensures var l, c := Lines(u[..|u| - 1]), u[|u| - 1];
      Lines(u) == if c == LF then l + [[]] else l[..|l| - 1] + [l[|l| - 1] + [c]]
  {
  }

  lemma EndStep(l: seq<seq<Byte>>, c: Byte)
    requires l != []
    ensures EndOf(l + [[]]) == Vector(0, EndOf(l).y + 1)
    ensures EndOf(l[..|l| - 1] + [l[|l| - 1] + [c]]) == EndOf(l).Plus(Vector(1, 0))
  {
  }

  lemma TextStep(t: seq<Byte>, c: Byte, p: Vector)
    ensures TextAt(Lines(t + [c]), p) == if c != LF && p == EndOf(Lines(t)) then Some(c) else TextAt(Lines(t), p)
  {
    LinesStep(t, c);
  }

  lemma LoadedStep(f: Plane, t: seq<Byte>, c: Byte, offset: Vector, w: Vector)
    ensures LoadedAt(f, Lines(t + [c]), offset, w) ==
      if c != LF && c != SPACE && w == EndOf(Lines(t)).Plus(offset) then c else LoadedAt(f, Lines(t), offset, w)
  {
    hide Lines, TextAt, EndOf;
    TextStep(t, c, w.Minus(offset));
    NothingAtEnd(Lines(t));
    assert w == EndOf(Lines(t)).Plus(offset) <==> w.Minus(offset) == EndOf(Lines(t));
  }

  lemma NothingAtEnd(lines: seq<seq<Byte>>)
    requires lines != []
    ensures TextAt(lines, EndOf(lines)) == None
  {
  }

  /** The state of a loading loop: the bytes before i, form feeds dropped and line ends
    * unified, are done, but for a CR that may yet be half of a CR LF. */
  ghost predicate Progress(t: seq<Byte>, i: nat, cr: bool, done: seq<Byte>) {
    i <= |t| && Unified(NoFormFeeds(t)) == done + Unified(Pending(cr) + NoFormFeeds(t[i..]))
  }

  lemma ProgressStep(t: seq<Byte>, i: nat, cr: bool, done: seq<Byte>)
    requires i < |t| && Progress(t, i, cr, done)
    ensures t[i] == FF ==> Progress(t, i + 1, cr, done)
    ensures t[i] == LF ==> Progress(t, i + 1, false, done + [LF])
    ensures t[i] == CR ==> Progress(t, i + 1, true, if cr then done + [LF] else done)
    ensures t[i] != FF && t[i] != LF && t[i] != CR ==>
      Progress(t, i + 1, false, (if cr then done + [LF] else done) + [t[i]])
  {
    hide Unified, NoFormFeeds;
    NoFormFeedsStep(t, i);
    var rest := NoFormFeeds(t[i + 1..]);
    UnifyStep(cr, t[i], rest);
    assert Pending(cr) + ([t[i]] + rest) == Pending(cr) + [t[i]] + rest;
    assert Pending(true) + rest == [CR] + rest;
    assert !cr && t[i] == CR ==> Pending(cr) + ([t[i]] + rest) == Pending(true) + rest;
    assert Pending(false) + rest == rest;
    assert done + ([LF] + Unified(rest)) == done + [LF] + Unified(rest);
    assert done + ([LF] + Unified([CR] + rest)) == done + [LF] + Unified([CR] + rest);
    assert done + ((if cr then [LF] else []) + [t[i]] + Unified(rest))
        == (if cr then done + [LF] else done) + [t[i]] + Unified(rest);
  }

  lemma ProgressEnds(t: seq<Byte>, cr: bool, done: seq<Byte>)
    ensures Progress(t, 0, false, [])
    ensures Progress(t, |t|, cr, done) ==> Unified(NoFormFeeds(t)) == if cr then done + [LF] else done
  {
    assert t[0..] == t && Pending(false) + NoFormFeeds(t) == NoFormFeeds(t);
    assert [] + Unified(NoFormFeeds(t)) == Unified(NoFormFeeds(t));
    assert Pending(cr) + [] == Pending(cr);
    assert done + [] == done;
  }

  /** The done part of the text, laid over the plane f, gives g. */
  ghost predicate Placed(g: Plane, f: Plane, done: seq<Byte>, offset: Vector, pos: Vector) {
    pos == EndOf(Lines(done)) && forall w :: g[w] == LoadedAt(f, Lines(done), offset, w)
  }

  /** fungespace_load_string, run on a space where nothing has been set yet: the text is laid
    * out from the origin, and the box fits it exactly. */
  method LoadString(space: Space, t: seq<Byte>)
    requires space.Valid() && space.filled == {} && !space.boundsValid && space.boundsExact
    modifies space.Repr()
    ensures space.Valid() && Loaded(space, old(PlaneOf(space)), Layout(t), Vector(0, 0))
    ensures space.boundsExact && space.Truthful()
  {
    hide Space.Get, Space.Valid, Placed, Lines, Progress, Loaded, IsHullOf;
    HasCells(space);
    ghost var f := PlaneOf(space);
    var lastWasCr := false;
    var pos := Vector(0, 0);
    ghost var done: seq<Byte> := [];
    PlacedStarts(f, Vector(0, 0));
    ProgressEnds(t, false, []);
    var i := 0;
    while i < |t|
      invariant i <= |t| && Progress(t, i, lastWasCr, done)
      invariant space.Valid() && Placed(PlaneOf(space), f, done, Vector(0, 0), pos)
      invariant space.boundsExact && (if space.boundsValid then space.filled != {} else space.filled == {}) && space.Truthful()
    {
      var c := t[i];
      ProgressStep(t, i, lastWasCr, done);
      if c == SPACE {
        if lastWasCr {
          lastWasCr := false;
          pos, done := NewLine(PlaneOf(space), f, done, Vector(0, 0), pos);
        }
        PlacedSpace(PlaneOf(space), f, done, Vector(0, 0), pos);
        pos, done := Vector(pos.x + 1, pos.y), done + [c];
      } else if c == CR {
        if lastWasCr {
          pos, done := NewLine(PlaneOf(space), f, done, Vector(0, 0), pos);
        }
        lastWasCr := true;
      } else if c == LF {
        lastWasCr := false;
        pos, done := NewLine(PlaneOf(space), f, done, Vector(0, 0), pos);
      } else if c != FF {
        if lastWasCr {
          lastWasCr := false;
          pos, done := NewLine(PlaneOf(space), f, done, Vector(0, 0), pos);
        }
        ghost var g := PlaneOf(space);
        space.SetInitial(c, pos);
        PlacedByte(f, g, PlaneOf(space), done, Vector(0, 0), pos, c);
        pos, done := Vector(pos.x + 1, pos.y), done + [c];
      }
      i := i + 1;
    }
    ProgressEnds(t, lastWasCr, done);
    PlacedAll(space, f, done, Vector(0, 0), pos, lastWasCr);
  }

  /** FUNGE_INITIAL_NEWLINE */
  method NewLine(ghost g: Plane, ghost f: Plane, ghost done: seq<Byte>, ghost offset: Vector, pos: Vector)
    returns (pos': Vector, ghost done': seq<Byte>)
    requires Placed(g, f, done, offset, pos)
    ensures pos' == Vector(0, pos.y + 1) && done' == done + [LF]
    ensures Placed(g, f, done', offset, pos')
  {
    hide LoadedAt, Lines;
    LinesStep(done, LF);
    forall w { LoadedStep(f, done, LF, offset, w); }
    pos', done' := Vector(0, pos.y + 1), done + [LF];
  }

  lemma PlacedStarts(f: Plane, offset: Vector)
    ensures Placed(f, f, [], offset, Vector(0, 0))
  {
  }

  lemma PlacedSpace(g: Plane, f: Plane, done: seq<Byte>, offset: Vector, pos: Vector)
    requires Placed(g, f, done, offset, pos)
    ensures Placed(g, f, done + [SPACE], offset, Vector(pos.x + 1, pos.y))
  {
    hide LoadedAt, Lines;
    LinesStep(done, SPACE);
    forall w { LoadedStep(f, done, SPACE, offset, w); }
  }

  lemma PlacedByte(f: Plane, g: Plane, h: Plane, done: seq<Byte>, offset: Vector, pos: Vector, c: Byte)
    requires c != LF && c != SPACE && Placed(g, f, done, offset, pos)
    requires forall w :: h[w] == if w == pos.Plus(offset) then c else g[w]
    ensures Placed(h, f, done + [c], offset, Vector(pos.x + 1, pos.y))
  {
    hide LoadedAt, Lines;
    LinesStep(done, c);
    forall w { LoadedStep(f, done, c, offset, w); }
  }

  lemma PlacedAll(space: Space, f: Plane, done: seq<Byte>, offset: Vector, pos: Vector, cr: bool)
    requires space.cells.Length == STATIC_X * STATIC_Y && Placed(PlaneOf(space), f, done, offset, pos)
    ensures Loaded(space, f, Lines(if cr then done + [LF] else done), offset)
  {
    hide Space.Get, LoadedAt, Lines;
    forall w { LoadedStep(f, done, LF, offset, w); }
  }

  /** Unified text without form feeds lays out as it is, so a program and its unified form
    * load alike. */
  lemma LayoutOfUnified(t: seq<Byte>)
    ensures Layout(Unified(NoFormFeeds(t))) == Layout(t)
  {
    NoFeedsLeft(t);
    UnifiedIsPlain(NoFormFeeds(t));
    PlainIsUnchanged(Unified(NoFormFeeds(t)));
  }

  predicate IsPlain(t: seq<Byte>) { forall k | 0 <= k < |t| :: t[k] != CR && t[k] != FF }

  lemma {:induction false} NoFeedsLeft(t: seq<Byte>)
    ensures forall k | 0 <= k < |NoFormFeeds(t)| :: NoFormFeeds(t)[k] != FF
  {
    if t != [] {
      NoFeedsLeft(t[1..]);
    }
  }

  lemma {:induction false} UnifiedIsPlain(t: seq<Byte>)
    requires forall k | 0 <= k < |t| :: t[k] != FF
    ensures IsPlain(Unified(t))
    decreases |t|
  {
    if t != [] {
      UnifiedIsPlain(if t[0] == CR && |t| > 1 && t[1] == LF then t[2..] else t[1..]);
    }
  }

  lemma {:induction false} PlainIsUnchanged(t: seq<Byte>)
    requires IsPlain(t)
    ensures NoFormFeeds(t) == t && Unified(t) == t
  {
    if t != [] {
      PlainIsUnchanged(t[1..]);
      assert [t[0]] + t[1..] == t;
    }
  }

  predicate EndsInCr(t: seq<Byte>) { t != [] && t[|t| - 1] == CR }

  /** The layout, byte by byte: a form feed changes nothing, a CR ends the line, an LF ends it
    * too unless a CR just has, and any other byte goes on with it. */
  lemma LayoutByByte(t: seq<Byte>, c: Byte)
    ensures Layout([]) == [[]]
    ensures var l := Layout(t);
      Layout(t + [c]) ==
        if c == FF || (c == LF && EndsInCr(NoFormFeeds(t))) then l
        else if c == CR || c == LF then l + [[]]
        else l[..|l| - 1] + [l[|l| - 1] + [c]]
  {
    hide Lines, Unified, NoFormFeeds, EndsInCr;
    EmptyTexts();
    NoFormFeedsAppend(t, c);
    assert NoFormFeeds(t) + [] == NoFormFeeds(t);
    if c != FF {
      UnifiedAppend(NoFormFeeds(t), c);
      LinesStep(Unified(NoFormFeeds(t)), c);
      LinesStep(Unified(NoFormFeeds(t)), LF);
    }
  }

  lemma EmptyTexts()
    ensures NoFormFeeds([]) == [] && Unified([]) == [] && Lines([]) == [[]]
  {
  }

  lemma {:induction false} NoFormFeedsAppend(t: seq<Byte>, c: Byte)
    ensures NoFormFeeds(t + [c]) == NoFormFeeds(t) + if c == FF then [] else [c]
  {
    hide NoFormFeeds;
    var u := t + [c];
    assert u[0] == if t == [] then c else t[0];
    FeedsUnfold(u);
    FeedsUnfold([]);
    if t == [] {
      assert u[1..] == [];
    } else {
      assert u[1..] == t[1..] + [c];
      FeedsUnfold(t);
      NoFormFeedsAppend(t[1..], c);
    }
  }

  lemma FeedsUnfold(t: seq<Byte>)
    ensures NoFormFeeds(t) == if t == [] then [] else (if t[0] == FF then [] else [t[0]]) + NoFormFeeds(t[1..])
  {
  }

  lemma {:induction false} UnifiedAppend(t: seq<Byte>, c: Byte)
    ensures Unified(t + [c]) ==
      if c == LF && EndsInCr(t) then Unified(t) else Unified(t) + [if c == CR then LF else c]
    decreases |t|
  {
    hide Unified;
    var u := t + [c];
    EmptyTexts();
    UnifiedUnfold(u);
    if t == [] {
      assert u == [c] && u[1..] == [];
    } else {
      UnifiedUnfold(t);
      assert u[0] == t[0] && (|t| > 1 ==> u[1] == t[1]);
      if t[0] == CR && |t| == 1 {
        assert u[1] == c && u[1..] == [] + [c] && u[2..] == [] && t[1..] == [];
        UnifiedAppend([], c);
      } else {
        var n := if t[0] == CR && t[1] == LF then 2 else 1;
        assert u[n..] == t[n..] + [c];
        UnifiedAppend(t[n..], c);
        assert EndsInCr(t[n..]) == EndsInCr(t);
      }
    }
  }

  /** A load puts every byte of the layout but the spaces in its place, and changes no other
    * cell. */
  lemma LoadedCells(f: Plane, lines: seq<seq<Byte>>, o: Vector, w: Vector)
    ensures var (x, y) := (w.x - o.x, w.y - o.y);
      if 0 <= y < |lines| && 0 <= x < |lines[y]| && lines[y][x] != SPACE then LoadedAt(f, lines, o, w) == lines[y][x]
      else LoadedAt(f, lines, o, w) == f[w]
  {
  }

  lemma {:induction false} WidestIsMax(lines: seq<seq<Byte>>) returns (k: nat)
    requires lines != []
    ensures k < |lines| && Widest(lines) == |lines[k]|
    ensures forall y | 0 <= y < |lines| :: |lines[y]| <= Widest(lines)
  {
    k := 0;
    if |lines| > 1 {
      k := WidestIsMax(lines[..|lines| - 1]);
      if |lines[|lines| - 1]| > |lines[k]| {
        k := |lines| - 1;
      }
    }
  }

  /** FUNGE_OFFSET_NEWLINE: also widens the size read so far. */
  method OffsetNewLine(ghost g: Plane, ghost f: Plane, ghost done: seq<Byte>, ghost offset: Vector, pos: Vector, sizeX: int)
    returns (pos': Vector, sizeX': int, ghost done': seq<Byte>)
    requires Placed(g, f, done, offset, pos) && sizeX == WidestBefore(Lines(done))
    ensures pos' == Vector(0, pos.y + 1) && done' == done + [LF]
    ensures Placed(g, f, done', offset, pos') && sizeX' == WidestBefore(Lines(done'))
  {
    WidthStep(done, LF);
    hide *;
    sizeX' := sizeX;
    if pos.x > sizeX {
      sizeX' := pos.x;
    }
    EndOfPlaced(g, f, done, offset, pos);
    pos', done' := NewLine(g, f, done, offset, pos);
  }

  lemma EndOfPlaced(g: Plane, f: Plane, done: seq<Byte>, offset: Vector, pos: Vector)
    requires Placed(g, f, done, offset, pos)
    ensures pos == EndOf(Lines(done))
  {
  }

  /** The widest line but the last. */
  function WidestBefore(lines: seq<seq<Byte>>): nat
    requires lines != []
  {
    Widest(lines[..|lines| - 1])
  }

  lemma WidthStep(t: seq<Byte>, c: Byte)
    ensures var w := WidestBefore(Lines(t));
      WidestBefore(Lines(t + [c])) == if c == LF && EndOf(Lines(t)).x > w then EndOf(Lines(t)).x else w
    ensures Widest(Lines(t)) == Max(EndOf(Lines(t)).x, WidestBefore(Lines(t)))
    ensures Widest(Lines(t + [LF])) == Widest(Lines(t)) && |Lines(t + [LF])| == |Lines(t)| + 1
  {
    hide Lines, EndOf;
    LinesStep(t, c);
    LinesStep(t, LF);
    WidthOf(Lines(t), c);
  }

  lemma WidthOf(l: seq<seq<Byte>>, c: Byte)
    requires l != []
    ensures WidestBefore(l + [[]]) == Widest(l) == Widest(l + [[]]) == Max(EndOf(l).x, WidestBefore(l))
    ensures WidestBefore(l[..|l| - 1] + [l[|l| - 1] + [c]]) == WidestBefore(l)
  {
    hide *;
    var short, last := l[..|l| - 1], l[|l| - 1];
    assert l == short + [last];
    WidestWith(short, last);
    WidestWith(short, last + [c]);
    WidestWith(l, []);
    NoWider(l);
  }

  lemma NoWider(l: seq<seq<Byte>>)
    requires l != []
    ensures EndOf(l).x == |l[|l| - 1]|
    ensures forall w: nat :: Max(0, w) == w && Max(|l[|l| - 1]|, w) == Max(EndOf(l).x, w)
  {
  }

  lemma WidestWith(l: seq<seq<Byte>>, row: seq<Byte>)
    ensures Widest(l + [row]) == Max(|row|, Widest(l)) && WidestBefore(l + [row]) == Widest(l)
  {
    assert (l + [row])[..|l|] == l;
  }

  /** fungespace_load_at_offset, for text: the text is laid over what is there, and the size
    * is the longest line and the number of line ends. */
  method LoadAtOffset(space: Space, t: seq<Byte>, offset: Vector) returns (size: Vector)
    requires space.Valid()
    modifies space.Repr()
    ensures space.Valid() && Loaded(space, old(PlaneOf(space)), Layout(t), offset)
    ensures size == Vector(Widest(Layout(t)), |Layout(t)| - 1)
  {
    hide Space.Get, Space.Valid, Placed, Lines, Progress, Loaded, Widest, WidestBefore, Space.Truthful, Unified, NoFormFeeds;
    HasCells(space);
    ghost var f := PlaneOf(space);
    var lastWasCr := false;
    var pos := Vector(0, 0);
    var sizeX, sizeY := 0, 0;
    ghost var done: seq<Byte> := [];
    PlacedStarts(f, offset);
    NoWidth();
    ProgressEnds(t, false, []);
    var i := 0;
    while i < |t|
      invariant i <= |t| && Progress(t, i, lastWasCr, done) && sizeX == WidestBefore(Lines(done))
      invariant space.Valid() && Placed(PlaneOf(space), f, done, offset, pos)
    {
      var c := t[i];
      ProgressStep(t, i, lastWasCr, done);
      if c == CR {
        if lastWasCr {
          pos, sizeX, done := OffsetNewLine(PlaneOf(space), f, done, offset, pos, sizeX);
        }
        lastWasCr := true;
      } else if c == LF {
        pos, sizeX, done := OffsetNewLine(PlaneOf(space), f, done, offset, pos, sizeX);
        lastWasCr := false;
      } else if c != FF {
        if lastWasCr {
          lastWasCr := false;
          pos, sizeX, done := OffsetNewLine(PlaneOf(space), f, done, offset, pos, sizeX);
        }
        ghost var g := PlaneOf(space);
        WidthStep(done, c);
        if c != SPACE {
          space.Set(c, pos.Plus(offset));
          PlacedByte(f, g, PlaneOf(space), done, offset, pos, c);
        } else {
          PlacedSpace(g, f, done, offset, pos);
        }
        pos, done := Vector(pos.x + 1, pos.y), done + [c];
      }
      i := i + 1;
    }
    ProgressEnds(t, lastWasCr, done);
    PlacedAll(space, f, done, offset, pos, lastWasCr);
    EndOfPlaced(PlaneOf(space), f, done, offset, pos);
    WidthStep(done, LF);
    if lastWasCr {
      pos := Vector(pos.x, pos.y + 1);
    }
    if pos.x > sizeX { sizeX := pos.x; }
    if pos.y > sizeY { sizeY := pos.y; }
    size := Vector(sizeX, sizeY);
  }

  lemma NoWidth()
    ensures WidestBefore(Lines([])) == 0
  {
  }

  // ----- saving

  ghost function RowCells(f: Plane, o: Vector, w: nat, y: int): (r: seq<int>)
    ensures |r| == w && forall x | 0 <= x < w :: r[x] == f[Vector(o.x + x, y)]
  {
    seq(w, (x: int) => f[Vector(o.x + x, y)])
  }

  /** Without the run of c at the end. */
  function StripRight<T(==)>(s: seq<T>, c: T): (r: seq<T>)
    ensures |r| <= |s| && r == s[..|r|] && (r != [] ==> r[|r| - 1] != c)
    ensures forall k | |r| <= k < |s| :: s[k] == c
  {
    if s != [] && s[|s| - 1] == c then StripRight(s[..|s| - 1], c) else s
  }

  /** The cast to unsigned char. */
  function ToByte(c: int): (b: Byte)
    ensures (c - b) % 256 == 0
  {
    c % 256
  }

  function ToBytes(s: seq<int>): (t: seq<Byte>)
    ensures |t| == |s| && forall k | 0 <= k < |s| :: t[k] == ToByte(s[k])
  {
    seq(|s|, k requires 0 <= k < |s| => ToByte(s[k]))
  }

  ghost function RowText(f: Plane, o: Vector, w: nat, y: int): seq<Byte> {
    ToBytes(StripRight(RowCells(f, o, w, y), SPACE))
  }

  /** n rows, each with a line end. */
  ghost function Rows(f: Plane, o: Vector, w: nat, n: nat): seq<Byte> {
    if n == 0 then [] else Rows(f, o, w, n - 1) + RowText(f, o, w, o.y + n - 1) + [LF]
  }

  /** The text of a rectangle; a single byte is not written. */
  ghost function SavedText(f: Plane, o: Vector, d: Vector): seq<Byte>
    requires d.x > 0 && d.y > 0
  {
    var t := StripRight(Rows(f, o, d.x, d.y), LF);
    if |t| > 1 then t else []
  }

  lemma StripStep<T>(s: seq<T>, c: T)
    ensures s != [] && s[|s| - 1] == c ==> StripRight(s, c) == StripRight(s[..|s| - 1], c)
    ensures !(s != [] && s[|s| - 1] == c) ==> StripRight(s, c) == s
  {
  }

  /** Scans back over the run of c that ends a[..n]. */
  method ScanBack(a: array<int>, n: nat, c: int) returns (last: int)
    requires n <= a.Length
    ensures -1 <= last < n && a[..last + 1] == StripRight(a[..n], c)
  {
    hide StripRight;
    last := n - 1;
    while last >= 0 && a[last] == c
      invariant -1 <= last < n && StripRight(a[..last + 1], c) == StripRight(a[..n], c)
    {
      StripStep(a[..last + 1], c);
      assert a[..last + 1][..last] == a[..last];
      last := last - 1;
    }
    StripStep(a[..last + 1], c);
  }

  lemma RoomForRows(w: int, h: int)
    requires w > 0 && h > 0
    ensures w * h + h >= 0 && 0 * (w + 1) == 0
  {
  }

  lemma RoomForRow(w: int, h: int, k: int)
    requires w > 0 && 0 <= k < h
    ensures k * (w + 1) + w + 1 == (k + 1) * (w + 1) <= w * h + h
  {
    assert (h - k - 1) * (w + 1) >= 0;
    assert h * (w + 1) == (h - k - 1) * (w + 1) + (k + 1) * (w + 1);
  }

  method ReadRow(space: Space, ghost f: Plane, offset: Vector, size: Vector, y: int, row: array<int>)
    requires space.Valid() && f == PlaneOf(space) && size.x > 0 && row.Length == size.x && row !in space.Repr()
    modifies row
    ensures row[..] == RowCells(f, offset, size.x, y)
  {
    hide Space.Get, Space.Valid;
    HasCells(space);
    var x := offset.x;
    while x < offset.x + size.x
      invariant offset.x <= x <= offset.x + size.x
      invariant forall k | 0 <= k < x - offset.x :: row[k] == f[Vector(offset.x + k, y)]
    {
      row[x - offset.x] := space.Get(Vector(x, y));
      x := x + 1;
    }
  }

  method CopyRow(row: array<int>, n: nat, towrite: array<int>, index: nat)
    requires row != towrite && n <= row.Length && index + n <= towrite.Length
    modifies towrite
    ensures towrite[..index + n] == old(towrite[..index]) + ToBytes(row[..n])
  {
    var i := 0;
    while i < n
      invariant 0 <= i <= n
      invariant towrite[..index] == old(towrite[..index])
      invariant forall k | 0 <= k < i :: towrite[index + k] == ToByte(row[k])
    {
      towrite[index + i] := ToByte(row[i]);
      i := i + 1;
    }
  }

  /** One row of the rectangle, appended to the buffer without its trailing spaces. */
  method SaveRow(space: Space, ghost f: Plane, offset: Vector, size: Vector, y: int, row: array<int>,
                 towrite: array<int>, index: nat) returns (index': nat)
    requires space.Valid() && f == PlaneOf(space) && size.x > 0 && row.Length == size.x && offset.y <= y
    requires index + size.x + 1 <= towrite.Length && row !in space.Repr() && row != towrite
    requires towrite[..index] == Rows(f, offset, size.x, y - offset.y)
    modifies row, towrite
    ensures index' <= index + size.x + 1 && index' <= towrite.Length
    ensures towrite[..index'] == Rows(f, offset, size.x, y - offset.y + 1)
  {
    hide StripRight, RowCells, Space.Valid, ToBytes, PlaneOf, Rows;
    ReadRow(space, f, offset, size, y, row);
    var lastspace := ScanBack(row, size.x, SPACE);
    assert row[..size.x] == row[..];
    CopyRow(row, lastspace + 1, towrite, index);
    index' := index + lastspace + 1;
    RowSaved(f, offset, size.x, y - offset.y, ToBytes(row[..lastspace + 1]));
    EndRow(towrite, index');
    index' := index' + 1;
  }

  method EndRow(towrite: array<int>, index: nat)
    requires index < towrite.Length
    modifies towrite
    ensures towrite[..index + 1] == old(towrite[..index]) + [LF]
  {
    towrite[index] := LF;
  }

  lemma RowSaved(f: Plane, o: Vector, w: nat, n: nat, added: seq<int>)
    ensures added == ToBytes(StripRight(RowCells(f, o, w, o.y + n), SPACE)) ==>
      Rows(f, o, w, n + 1) == Rows(f, o, w, n) + added + [LF]
  {
    hide StripRight, RowCells, ToBytes;
  }

  // ----- saving, then loading into blank space

  function Blankness(w: Vector): int { SPACE }

  ghost function Blank(): Plane {
    imap w: Vector | true :: Blankness(w)
  }

  /** What the round trip should give: the rectangle, and nothing else. */
  ghost function KeptAt(f: Plane, o: Vector, d: Vector, w: Vector): int {
    if InRect(d, w.Minus(o)) then f[w] else SPACE
  }

  /** Loaded at o into blank space, the text gives the rectangle and nothing else. */
  ghost predicate LoadsAs(t: seq<Byte>, f: Plane, o: Vector, d: Vector) {
    forall w :: LoadedAt(Blank(), Layout(t), o, w) == KeptAt(f, o, d, w)
  }

  predicate IsTextCell(c: int) { 0 <= c < 256 && c != LF && c != CR && c != FF }

  ghost predicate AllText(f: Plane, o: Vector, d: Vector) {
    forall p | InRect(d, p) :: IsTextCell(f[o.Plus(p)])
  }

  ghost predicate OnlyCornerFilled(f: Plane, o: Vector, d: Vector) {
    f[o] != SPACE && forall p | InRect(d, p) && p != Vector(0, 0) :: f[o.Plus(p)] == SPACE
  }

  predicate IsLine(row: seq<Byte>) { forall k | 0 <= k < |row| :: row[k] != LF }

  /** Text without line ends extends the last line. */
  lemma {:induction false} LineExtends(t: seq<Byte>, row: seq<Byte>)
    requires IsLine(row)
    ensures Lines(t + row) == Lines(t)[..|Lines(t)| - 1] + [Lines(t)[|Lines(t)| - 1] + row]
  {
    hide Lines, EndOf;
    if row == [] {
      assert t + row == t && Lines(t)[|Lines(t)| - 1] + row == Lines(t)[|Lines(t)| - 1];
    } else {
      var short, c := row[..|row| - 1], row[|row| - 1];
      LineExtends(t, short);
      LinesStep(t + short, c);
      assert t + row == t + short + [c];
      assert Lines(t)[|Lines(t)| - 1] + short + [c] == Lines(t)[|Lines(t)| - 1] + row;
    }
  }

  /** A text cell survives the cast. */
  lemma RowTextOf(f: Plane, o: Vector, d: Vector, y: nat)
    requires d.x > 0 && y < d.y && AllText(f, o, d)
    ensures var r := RowText(f, o, d.x, o.y + y);
      && |r| <= d.x && IsLine(r) && IsPlain(r)
      && (r != [] ==> f[o.Plus(Vector(|r| - 1, y))] != SPACE)
      && forall x | 0 <= x < d.x :: f[o.Plus(Vector(x, y))] == if x < |r| then r[x] else SPACE
  {
    var cells := RowCells(f, o, d.x, o.y + y);
    forall x | 0 <= x < d.x
      ensures cells[x] == f[o.Plus(Vector(x, y))] && IsTextCell(cells[x]) && ToByte(cells[x]) == cells[x]
    {
      assert InRect(d, Vector(x, y));
    }
  }

  /** The lines of the rows are the rows, and an empty line after the last line end. */
  lemma {:induction false} LinesOfRows(f: Plane, o: Vector, d: Vector, n: nat)
    requires d.x > 0 && n <= d.y && AllText(f, o, d)
    ensures var t := Rows(f, o, d.x, n);
      && IsPlain(t) && |Lines(t)| == n + 1 && Lines(t)[n] == []
      && forall y | 0 <= y < n :: Lines(t)[y] == RowText(f, o, d.x, o.y + y)
  {
    hide RowText, AllText, Lines, IsPlain, IsLine;
    if n == 0 {
      EmptyLayout();
    } else {
      LinesOfRows(f, o, d, n - 1);
      RowTextIsLine(f, o, d, n - 1);
      var t, row := Rows(f, o, d.x, n - 1), RowText(f, o, d.x, o.y + n - 1);
      RowAppended(t, row);
    }
  }

  lemma EmptyLayout()
    ensures Lines([]) == [[]] && IsPlain([])
  {
  }

  lemma RowTextIsLine(f: Plane, o: Vector, d: Vector, y: nat)
    requires d.x > 0 && y < d.y && AllText(f, o, d)
    ensures var r := RowText(f, o, d.x, o.y + y); IsLine(r) && IsPlain(r)
  {
    RowTextOf(f, o, d, y);
  }

  lemma RowAppended(t: seq<Byte>, row: seq<Byte>)
    requires IsLine(row) && Lines(t)[|Lines(t)| - 1] == []
    ensures Lines(t + row + [LF]) == Lines(t)[..|Lines(t)| - 1] + [row, []]
    ensures IsPlain(t) && IsPlain(row) ==> IsPlain(t + row + [LF])
  {
    hide Lines, EndOf, IsLine;
    LineExtends(t, row);
    LinesStep(t + row, LF);
    LastReplaced(Lines(t), row);
  }

  lemma LastReplaced(l: seq<seq<Byte>>, row: seq<Byte>)
    requires l != [] && l[|l| - 1] == []
    ensures l[..|l| - 1] + [l[|l| - 1] + row] + [[]] == l[..|l| - 1] + [row, []]
  {
    assert [] + row == row;
  }

  /** Line ends at the end of a text place nothing. */
  lemma {:induction false} StrippedText(t: seq<Byte>, p: Vector)
    ensures TextAt(Lines(StripRight(t, LF)), p) == TextAt(Lines(t), p)
  {
    if t != [] && t[|t| - 1] == LF {
      var u := t[..|t| - 1];
      StrippedText(u, p);
      TextStep(u, LF, p);
      assert t == u + [LF];
    }
  }

  /** Before the check for a single byte, the text would load as the rectangle. */
  lemma StrippedRowsLoad(f: Plane, o: Vector, d: Vector, w: Vector)
    requires d.x > 0 && d.y > 0 && AllText(f, o, d)
    ensures LoadedAt(Blank(), Layout(StripRight(Rows(f, o, d.x, d.y), LF)), o, w) == KeptAt(f, o, d, w)
  {
    hide Rows, Lines, StripRight, RowText, Unified, NoFormFeeds, AllText;
    var t, p := Rows(f, o, d.x, d.y), w.Minus(o);
    LinesOfRows(f, o, d, d.y);
    PlainIsUnchanged(StripRight(t, LF));
    StrippedText(t, p);
    if 0 <= p.y < d.y {
      RowTextOf(f, o, d, p.y);
      assert o.Plus(p) == w && p == Vector(p.x, p.y);
    }
  }

  /** Whatever the text, a loaded cell is a text cell. */
  lemma LoadsTextCells(t: seq<Byte>, o: Vector, w: Vector)
    ensures IsTextCell(LoadedAt(Blank(), Layout(t), o, w))
  {
    hide Lines, Unified, NoFormFeeds;
    NoFeedsLeft(t);
    UnifiedIsPlain(NoFormFeeds(t));
    PlainLines(Unified(NoFormFeeds(t)));
  }

  predicate TextLines(lines: seq<seq<Byte>>) {
    forall y, x | 0 <= y < |lines| && 0 <= x < |lines[y]| :: IsTextCell(lines[y][x])
  }

  lemma TextLinesStep(lines: seq<seq<Byte>>, c: Byte)
    requires lines != [] && TextLines(lines)
    ensures TextLines(lines + [[]])
    ensures IsTextCell(c) ==> TextLines(lines[..|lines| - 1] + [lines[|lines| - 1] + [c]])
  {
    hide IsTextCell;
  }

  lemma {:induction false} PlainLines(t: seq<Byte>)
    requires IsPlain(t)
    ensures TextLines(Lines(t))
  {
    hide TextLines, EndOf;
    if t == [] {
      OnlyEmptyLine();
    } else {
      var u, c := t[..|t| - 1], t[|t| - 1];
      PlainLines(u);
      hide Lines;
      LinesStep(u, c);
      TextLinesStep(Lines(u), c);
      assert t == u + [c];
    }
  }

  lemma OnlyEmptyLine()
    ensures TextLines(Lines([]))
  {
  }

  /** One byte is left to write exactly when only the corner of the rectangle is filled. */
  lemma SingleByte(f: Plane, o: Vector, d: Vector)
    requires d.x > 0 && d.y > 0 && AllText(f, o, d)
    ensures |StripRight(Rows(f, o, d.x, d.y), LF)| == 1 <==> OnlyCornerFilled(f, o, d)
  {
    hide Rows, Lines, RowText, Layout, LoadedAt, KeptAt, AllText;
    var t := Rows(f, o, d.x, d.y);
    var s := StripRight(t, LF);
    RowTextOf(f, o, d, 0);
    FirstRow(f, o, d, d.y);
    var r := RowText(f, o, d.x, o.y);
    if |s| == 1 {
      assert r != [] && t[0] == s[0];
      forall p | InRect(d, p) && p != Vector(0, 0)
        ensures f[o.Plus(p)] == SPACE
      {
        OneByteText(f, o, d, p, s);
      }
      assert f[o.Plus(Vector(|r| - 1, 0))] != SPACE;
      assert InRect(d, Vector(|r| - 1, 0)) && o.Plus(Vector(0, 0)) == o;
    } else if OnlyCornerFilled(f, o, d) {
      CornerRows(f, o, d, d.y);
      FirstIsLast(t);
    }
  }

  lemma FirstIsLast(t: seq<Byte>)
    requires t != [] && t[0] != LF && forall k | 1 <= k < |t| :: t[k] == LF
    ensures |StripRight(t, LF)| == 1
  {
  }

  lemma {:induction false} FirstRow(f: Plane, o: Vector, d: Vector, n: nat)
    requires d.x > 0 && 0 < n
    ensures var t, r := Rows(f, o, d.x, n), RowText(f, o, d.x, o.y); |t| > |r| && t[..|r| + 1] == r + [LF]
  {
    hide RowText;
    var r := RowText(f, o, d.x, o.y);
    if n == 1 {
      assert Rows(f, o, d.x, 0) == [] && Rows(f, o, d.x, 1) == [] + r + [LF] == r + [LF];
    } else {
      FirstRow(f, o, d, n - 1);
    }
  }

  lemma OneByteText(f: Plane, o: Vector, d: Vector, p: Vector, s: seq<Byte>)
    requires d.x > 0 && d.y > 0 && AllText(f, o, d) && InRect(d, p) && p != Vector(0, 0)
    requires s == StripRight(Rows(f, o, d.x, d.y), LF) && |s| == 1 && s[0] != LF
    ensures f[o.Plus(p)] == SPACE
  {
    hide Rows, RowText, StripRight, AllText, Unified, NoFormFeeds;
    StrippedRowsLoad(f, o, d, o.Plus(p));
    LinesOfRows(f, o, d, d.y);
    PlainIsUnchanged(s);
    assert o.Plus(p).Minus(o) == p;
    OneLine(s[0]);
    assert s == [s[0]];
  }

  lemma OneLine(c: Byte)
    requires c != LF
    ensures Lines([c]) == [[c]]
  {
    hide Lines, EndOf;
    EmptyLayout();
    LinesStep([], c);
    assert [] + [c] == [c];
  }

  lemma {:induction false} CornerRows(f: Plane, o: Vector, d: Vector, n: nat)
    requires d.x > 0 && 0 < n <= d.y && AllText(f, o, d) && OnlyCornerFilled(f, o, d)
    ensures var t := Rows(f, o, d.x, n); |t| == n + 1 && t[0] != LF && forall k | 1 <= k <= n :: t[k] == LF
  {
    hide RowText, AllText;
    RowTextOf(f, o, d, n - 1);
    var r := RowText(f, o, d.x, o.y + n - 1);
    if r != [] {
      assert InRect(d, Vector(|r| - 1, n - 1));
    }
    if n == 1 {
      assert o.Plus(Vector(0, 0)) == o && |r| == 1;
      assert Rows(f, o, d.x, 0) == [] && Rows(f, o, d.x, 1) == [] + r + [LF];
    } else {
      CornerRows(f, o, d, n - 1);
      assert r == [];
    }
  }

  /** Saving a rectangle as text and loading it at the same place into blank space gives it
    * back exactly when every cell is a byte other than CR, LF and FF, and the rectangle is
    * not filled in its corner only. */
  lemma SaveThenLoad(f: Plane, o: Vector, d: Vector)
    requires d.x > 0 && d.y > 0
    ensures LoadsAs(SavedText(f, o, d), f, o, d) <==> AllText(f, o, d) && !OnlyCornerFilled(f, o, d)
  {
    hide Rows, LoadedAt, Layout, StripRight, IsTextCell;
    var s := StripRight(Rows(f, o, d.x, d.y), LF);
    forall w {
      LoadsTextCells(SavedText(f, o, d), o, w);
    }
    if AllText(f, o, d) {
      forall w { StrippedRowsLoad(f, o, d, w); }
      SingleByte(f, o, d);
      if |s| == 1 {
        NothingLoads(o, o);
        assert KeptAt(f, o, d, o) == f[o] != SPACE;
      }
    } else {
      var p :| InRect(d, p) && !IsTextCell(f[o.Plus(p)]);
      assert o.Plus(p).Minus(o) == p;
      assert KeptAt(f, o, d, o.Plus(p)) == f[o.Plus(p)];
    }
  }

  lemma NothingLoads(o: Vector, w: Vector)
    ensures LoadedAt(Blank(), Layout([]), o, w) == SPACE
  {
    assert Layout([]) == [[]];
  }

  // ----- what is saved is tidy, and as short as can be

  /** The bytes of a text with these lines, and one more. */
  function Size(lines: seq<seq<Byte>>): nat {
    if lines == [] then 0 else Size(lines[..|lines| - 1]) + |lines[|lines| - 1]| + 1
  }

  lemma {:induction false} SizeOfLines(t: seq<Byte>)
    ensures Size(Lines(t)) == |t| + 1
  {
    if t == [] {
      assert Lines([]) == [[]] && Size([[]][..0]) == 0;
    } else {
      hide Lines, EndOf, Size;
      var u, c := t[..|t| - 1], t[|t| - 1];
      SizeOfLines(u);
      LinesStep(u, c);
      SizeStep(Lines(u), c);
      assert t == u + [c];
    }
  }

  lemma SizeStep(l: seq<seq<Byte>>, c: Byte)
    requires l != []
    ensures Size(l + [[]]) == Size(l) + 1
    ensures Size(l[..|l| - 1] + [l[|l| - 1] + [c]]) == Size(l) + 1
  {
    assert (l + [[]])[..|l|] == l;
    assert (l[..|l| - 1] + [l[|l| - 1] + [c]])[..|l| - 1] == l[..|l| - 1];
  }

  lemma {:induction false} SizeGrows(a: seq<seq<Byte>>, b: seq<seq<Byte>>)
    requires |a| <= |b| && forall y | 0 <= y < |a| :: |a[y]| <= |b[y]|
    ensures Size(a) <= Size(b)
    decreases |b|
  {
    if |a| < |b| {
      SizeGrows(a, b[..|b| - 1]);
    } else if a != [] {
      SizeGrows(a[..|a| - 1], b[..|b| - 1]);
    }
  }

  lemma {:induction false} FeedsDropped(t: seq<Byte>)
    ensures |NoFormFeeds(t)| <= |t|
  {
    if t != [] {
      FeedsDropped(t[1..]);
    }
  }

  lemma {:induction false} EndsUnified(t: seq<Byte>)
    ensures |Unified(t)| <= |t|
    decreases |t|
  {
    if t != [] {
      EndsUnified(if t[0] == CR && |t| > 1 && t[1] == LF then t[2..] else t[1..]);
    }
  }

  /** Where a line of the saved text ends, the rectangle has a last filled cell of its row. */
  lemma LineEnds(f: Plane, o: Vector, d: Vector, y: nat)
    requires d.x > 0 && d.y > 0 && AllText(f, o, d)
    requires y < |Lines(StripRight(Rows(f, o, d.x, d.y), LF))|
    ensures var line := Lines(StripRight(Rows(f, o, d.x, d.y), LF))[y]; var p := Vector(|line| - 1, y);
      line != [] ==> InRect(d, p) && f[o.Plus(p)] == line[|line| - 1] != SPACE
  {
    hide Rows, Lines, StripRight, RowText, AllText;
    var t := Rows(f, o, d.x, d.y);
    var line := Lines(StripRight(t, LF))[y];
    if line != [] {
      LinesOfRows(f, o, d, d.y);
      StrippedText(t, Vector(|line| - 1, y));
      StrippedText(t, Vector(|line|, y));
      RowTextOf(f, o, d, y);
    }
  }

  lemma LastLineFilled(t: seq<Byte>)
    requires t != [] && t[|t| - 1] != LF
    ensures var l := Lines(t); l[|l| - 1] != []
  {
  }

  predicate NoTrailingSpaces(t: seq<Byte>) {
    forall y | 0 <= y < |Lines(t)| :: Lines(t)[y] != [] ==> Lines(t)[y][|Lines(t)[y]| - 1] != SPACE
  }

  /** No text that loads as the rectangle is shorter. */
  lemma ShortestText(f: Plane, o: Vector, d: Vector, u: seq<Byte>)
    requires d.x > 0 && d.y > 0 && AllText(f, o, d) && LoadsAs(u, f, o, d)
    ensures |SavedText(f, o, d)| <= |u|
  {
    hide Rows, Lines, StripRight, AllText, Unified, NoFormFeeds, Size;
    var s := StripRight(Rows(f, o, d.x, d.y), LF);
    if |s| > 1 {
      var v := Unified(NoFormFeeds(u));
      FeedsDropped(u);
      EndsUnified(NoFormFeeds(u));
      forall y | 0 <= y < |Lines(s)| && Lines(s)[y] != []
        ensures y < |Lines(v)| && |Lines(s)[y]| <= |Lines(v)[y]|
      {
        LineCovered(f, o, d, u, y);
      }
      LastLineFilled(s);
      SizeOfLines(s);
      SizeOfLines(v);
      SizeGrows(Lines(s), Lines(v));
    }
  }

  lemma LineCovered(f: Plane, o: Vector, d: Vector, u: seq<Byte>, y: nat)
    requires d.x > 0 && d.y > 0 && AllText(f, o, d) && LoadsAs(u, f, o, d)
    requires y < |Lines(StripRight(Rows(f, o, d.x, d.y), LF))|
    ensures var line := Lines(StripRight(Rows(f, o, d.x, d.y), LF))[y];
      line != [] ==> y < |Layout(u)| && |line| <= |Layout(u)[y]|
  {
    hide Rows, Lines, StripRight, AllText, Layout;
    LineEnds(f, o, d, y);
    var line := Lines(StripRight(Rows(f, o, d.x, d.y), LF))[y];
    if line != [] {
      var p := Vector(|line| - 1, y);
      assert o.Plus(p).Minus(o) == p;
      assert LoadedAt(Blank(), Layout(u), o, o.Plus(p)) == KeptAt(f, o, d, o.Plus(p));
    }
  }

  /** What is saved does not end in a line end; for text cells no line of it ends in a space,
    * every line end is a single LF, and no text that loads as the rectangle is shorter. */
  lemma SavedIsTidy(f: Plane, o: Vector, d: Vector)
    requires d.x > 0 && d.y > 0
    ensures var t := SavedText(f, o, d);
      && (t != [] ==> t[|t| - 1] != LF)
      && (AllText(f, o, d) ==> NoTrailingSpaces(t) && IsPlain(t) && forall u | LoadsAs(u, f, o, d) :: |t| <= |u|)
  {
    hide Rows, StripRight, AllText, LoadsAs, Lines;
    var s := StripRight(Rows(f, o, d.x, d.y), LF);
    if AllText(f, o, d) {
      LinesOfRows(f, o, d, d.y);
      EmptyLayout();
      forall y | 0 <= y < |Lines(s)|
        ensures Lines(s)[y] != [] ==> Lines(s)[y][|Lines(s)[y]| - 1] != SPACE
      {
        LineEnds(f, o, d, y);
      }
      forall u | LoadsAs(u, f, o, d) { ShortestText(f, o, d, u); }
    }
  }

  /** Every row of the rectangle, one after the other, each with its line end. */
  method SaveRows(space: Space, ghost f: Plane, offset: Vector, size: Vector, towrite: array<int>) returns (index: nat)
    requires space.Valid() && f == PlaneOf(space) && size.x > 0 && size.y > 0
    requires towrite.Length == size.x * size.y + size.y && towrite !in space.Repr()
    modifies towrite
    ensures index <= towrite.Length && towrite[..index] == Rows(f, offset, size.x, size.y)
  {
    hide StripRight, Space.Counted, PlaneOf, Rows, Space.Get;
    HasCells(space);
    RoomForRows(size.x, size.y);
    index := 0;
    var row := new int[size.x];
    NoRows(f, offset, size.x);
    var y := offset.y;
    while y < offset.y + size.y
      invariant offset.y <= y <= offset.y + size.y && space.Valid() && f == PlaneOf(space)
      invariant index <= towrite.Length && index <= (y - offset.y) * (size.x + 1)
      invariant towrite[..index] == Rows(f, offset, size.x, y - offset.y)
    {
      RoomForRow(size.x, size.y, y - offset.y);
      index := SaveRow(space, f, offset, size, y, row, towrite, index);
      y := y + 1;
    }
  }

  /** fungespace_save_to_file in text mode, returning what is written to the file. The buffer
    * has room for every row and its line end. */
  method SaveText(space: Space, offset: Vector, size: Vector) returns (written: seq<Byte>)
    requires space.Valid() && size.x > 0 && size.y > 0
    ensures written == SavedText(PlaneOf(space), offset, size)
    ensures written != [] ==> written[|written| - 1] != LF
    ensures var f := PlaneOf(space);
      && (LoadsAs(written, f, offset, size) <==> AllText(f, offset, size) && !OnlyCornerFilled(f, offset, size))
      && (AllText(f, offset, size) ==> NoTrailingSpaces(written) && IsPlain(written))
      && (AllText(f, offset, size) ==> forall u | LoadsAs(u, f, offset, size) :: |written| <= |u|)
  {
    hide StripRight, Space.Counted, PlaneOf, Rows, Space.Get, LoadsAs, AllText, OnlyCornerFilled, NoTrailingSpaces, IsPlain;
    HasCells(space);
    RoomForRows(size.x, size.y);
    ghost var f := PlaneOf(space);
    SavedIsTidy(f, offset, size);
    SaveThenLoad(f, offset, size);
    var towrite := new int[size.x * size.y + size.y];
    var index := SaveRows(space, f, offset, size, towrite);
    var lastnewline := ScanBack(towrite, index, LF);
    ghost var t := StripRight(Rows(f, offset, size.x, size.y), LF);
    if lastnewline > 0 {
      written := BytesOf(towrite, lastnewline + 1, t);
    } else {
      written := [];
    }
  }

  lemma NoRows(f: Plane, o: Vector, w: nat)
    ensures Rows(f, o, w, 0) == []
  {
  }

  method BytesOf(a: array<int>, n: nat, ghost t: seq<Byte>) returns (written: seq<Byte>)
    requires n <= a.Length && a[..n] == t
    ensures written == t
  {
    assert forall k | 0 <= k < n :: a[k] == t[k];
    written := a[..n];
  }
}
