/**
 * The pattern-lock gesture engine as values: hit testing against per-row and per-column bands,
 * the gap-fill rule, and the down / move / up / cancel handlers with the listener notifications
 * they emit, recorded as an event log. The view class in pattern_lock_view.dfy is proved to
 * update its state exactly as these functions say.
 */
module Gesture {
  import opened Results
  import opened Dots

  /** `PatternViewMode` values. Modes are plain integers in the view, so other values can occur. */
  const CORRECT := 0
  const AUTO_DRAW := 1
  const WRONG := 2

  /** One listener notification: `onStarted`, `onProgress`, `onComplete`, `onCleared`. */
  datatype Event = Started | Progress(dots: seq<Dot>) | Complete(dots: seq<Dot>) | Cleared

  /** What hit testing reads: the grid size, the hit factor, the cell size from `onSizeChanged`
      and the view's left and top padding. */
  datatype Geometry = Geometry(
    count: nat, hitFactor: real,
    cellWidth: real, cellHeight: real,
    paddingLeft: real, paddingTop: real)

  /** The recognition state: the pattern list, the set of dots marked in the lookup table,
      the in-progress flag, the view mode, and every notification sent so far. */
  datatype Engine = Engine(
    pattern: seq<Dot>, marked: set<Dot>, inProgress: bool, mode: int, events: seq<Event>)

  datatype Point = Point(x: real, y: real)

  /** A touch event as the view receives it: a move carries its historical samples. */
  datatype Action =
    | ActionDown(x: real, y: real)
    | ActionMove(history: seq<Point>, x: real, y: real)
    | ActionUp
    | ActionCancel
    | ActionOther

  // ---------------------------------------------------------------- hit testing

  /** Band `i` of an axis: the central `hitFactor` part of cell `i`, both ends included. */
  predicate InBand(v: real, padding: real, cell: real, hitFactor: real, i: int) {
    var hitSize := cell * hitFactor;
    var start := padding + (cell - hitSize) / 2.0 + cell * (i as real);
    start <= v <= start + hitSize
  }

  /** The scan of `getRowHit` / `getColumnHit` from index `from`: the first band holding `v`, or -1. */
  function FirstBand(v: real, padding: real, cell: real, hitFactor: real, from: nat, n: nat): int
    decreases n - from
  {
    if from >= n then -1
    else if InBand(v, padding, cell, hitFactor, from) then from
    else FirstBand(v, padding, cell, hitFactor, from + 1, n)
  }

  /** The scan finds -1 exactly when no band holds `v`, and otherwise the least band that does. */
  lemma {:induction false} FirstBandMeaning(v: real, padding: real, cell: real, hitFactor: real, from: nat, n: nat)
    ensures var r := FirstBand(v, padding, cell, hitFactor, from, n);
      (r == -1 <==> forall j :: from <= j < n ==> !InBand(v, padding, cell, hitFactor, j)) &&
      (r != -1 ==> from <= r < n && InBand(v, padding, cell, hitFactor, r) &&
                   forall j :: from <= j < r ==> !InBand(v, padding, cell, hitFactor, j))
    decreases n - from
  {
    if from < n && !InBand(v, padding, cell, hitFactor, from) {
      FirstBandMeaning(v, padding, cell, hitFactor, from + 1, n);
    }
  }

  /** With a positive cell and a hit factor below 1, no coordinate lies in two bands. */
  lemma BandsDisjoint(v: real, padding: real, cell: real, hitFactor: real, i: int, j: int)
    requires cell > 0.0 && 0.0 <= hitFactor < 1.0
    requires InBand(v, padding, cell, hitFactor, i) && InBand(v, padding, cell, hitFactor, j)
    ensures i == j
  {
    if i < j {
      BandGap(padding, cell, hitFactor, i, j);
    } else if j < i {
      BandGap(padding, cell, hitFactor, j, i);
    }
  }

  /** A later band starts after an earlier one ends. */
  lemma BandGap(padding: real, cell: real, hitFactor: real, i: int, j: int)
    requires cell > 0.0 && 0.0 <= hitFactor < 1.0 && i < j
    ensures padding + (cell - cell * hitFactor) / 2.0 + cell * (i as real) + cell * hitFactor
          < padding + (cell - cell * hitFactor) / 2.0 + cell * (j as real)
  {
    assert cell * hitFactor < cell;
    assert cell * (j as real) - cell * (i as real) == cell * ((j - i) as real);
    assert cell * ((j - i) as real) >= cell * 1.0;
  }

  /** So a coordinate inside band `i` resolves to `i`. */
  lemma FirstBandFindsBand(v: real, padding: real, cell: real, hitFactor: real, i: nat, n: nat)
    requires cell > 0.0 && 0.0 <= hitFactor < 1.0 && i < n
    requires InBand(v, padding, cell, hitFactor, i)
    ensures FirstBand(v, padding, cell, hitFactor, 0, n) == i
  {
    FirstBandMeaning(v, padding, cell, hitFactor, 0, n);
    var r := FirstBand(v, padding, cell, hitFactor, 0, n);
    BandsDisjoint(v, padding, cell, hitFactor, r, i);
  }

  /** The edges of a band are hits; the boundary between two cells is a miss. */
  lemma BandEdges(padding: real, cell: real, hitFactor: real, i: nat, n: nat)
    requires cell > 0.0 && 0.0 <= hitFactor < 1.0 && i < n
    ensures var start := padding + (cell - cell * hitFactor) / 2.0 + cell * (i as real);
      FirstBand(start, padding, cell, hitFactor, 0, n) == i &&
      FirstBand(start + cell * hitFactor, padding, cell, hitFactor, 0, n) == i &&
      FirstBand(padding + cell * (i as real), padding, cell, hitFactor, 0, n) == -1
  {
    var start := padding + (cell - cell * hitFactor) / 2.0 + cell * (i as real);
    FirstBandFindsBand(start, padding, cell, hitFactor, i, n);
    FirstBandFindsBand(start + cell * hitFactor, padding, cell, hitFactor, i, n);
    var edge := padding + cell * (i as real);
    FirstBandMeaning(edge, padding, cell, hitFactor, 0, n);
    forall j | 0 <= j < n ensures !InBand(edge, padding, cell, hitFactor, j) {
      CellEdgeOutside(padding, cell, hitFactor, i, j);
    }
  }

  lemma CellEdgeOutside(padding: real, cell: real, hitFactor: real, i: int, j: int)
    requires cell > 0.0 && 0.0 <= hitFactor < 1.0
    ensures !InBand(padding + cell * (i as real), padding, cell, hitFactor, j)
  {
    var hitSize := cell * hitFactor;
    assert hitSize < cell;
    var margin := (cell - hitSize) / 2.0;
    assert margin > 0.0;
    if j < i {
      assert cell * (i as real) - cell * (j as real) == cell * ((i - j) as real);
      assert cell * ((i - j) as real) >= cell * 1.0;
    } else if j > i {
      assert cell * (j as real) - cell * (i as real) == cell * ((j - i) as real);
      assert cell * ((j - i) as real) >= cell * 1.0;
    }
  }

  function RowHit(g: Geometry, y: real): int {
    FirstBand(y, g.paddingTop, g.cellHeight, g.hitFactor, 0, g.count)
  }

  function ColumnHit(g: Geometry, x: real): int {
    FirstBand(x, g.paddingLeft, g.cellWidth, g.hitFactor, 0, g.count)
  }

  /** `checkForNewHit`: the dot under the point, unless an axis misses or the dot is already marked. */
  function NewHit(g: Geometry, marked: set<Dot>, x: real, y: real): Option<Dot> {
    var row := RowHit(g, y);
    if row < 0 then None
    else
      var column := ColumnHit(g, x);
      if column < 0 then None
      else if Dot(row, column) in marked then None
      else Some(Dot(row, column))
  }

  /** A new hit is an unmarked dot of the grid whose row band holds `y` and whose column band
      holds `x`; there is none exactly when an axis misses or that dot is marked. */
  lemma NewHitMeaning(g: Geometry, marked: set<Dot>, x: real, y: real)
    ensures var hit := NewHit(g, marked, x, y);
      (hit.Some? <==> RowHit(g, y) >= 0 && ColumnHit(g, x) >= 0 && Dot(RowHit(g, y), ColumnHit(g, x)) !in marked) &&
      (hit.Some? ==>
         hit.value == Dot(RowHit(g, y), ColumnHit(g, x)) && hit.value !in marked &&
         InGrid(hit.value, g.count) &&
         InBand(y, g.paddingTop, g.cellHeight, g.hitFactor, hit.value.row) &&
         InBand(x, g.paddingLeft, g.cellWidth, g.hitFactor, hit.value.column))
  {
    FirstBandMeaning(y, g.paddingTop, g.cellHeight, g.hitFactor, 0, g.count);
    FirstBandMeaning(x, g.paddingLeft, g.cellWidth, g.hitFactor, 0, g.count);
  }

  // ---------------------------------------------------------------- gap fill

  function Abs(n: int): nat {
    if n < 0 then -n else n
  }

  /** The drag moved exactly two rows, and any column distance other than one. */
  predicate RowSkipped(last: Dot, hit: Dot) {
    Abs(hit.row - last.row) == 2 && Abs(hit.column - last.column) != 1
  }

  /** The drag moved exactly two columns, and any row distance other than one. */
  predicate ColumnSkipped(last: Dot, hit: Dot) {
    Abs(hit.column - last.column) == 2 && Abs(hit.row - last.row) != 1
  }

  /** The fill-in dot of `detectAndAddHit`: the last dot, stepped one toward the hit on each
      axis the drag skipped over. */
  function FillIn(last: Dot, hit: Dot): Dot {
    Dot(if RowSkipped(last, hit) then last.row + (if hit.row - last.row > 0 then 1 else -1) else last.row,
        if ColumnSkipped(last, hit) then last.column + (if hit.column - last.column > 0 then 1 else -1) else last.column)
  }

  /** On a skipped axis the fill-in sits halfway between the last dot and the hit; on any other
      axis it stays on the last dot's line. It is never more than one step from the last dot,
      always between the two, hence inside the grid, and it is never the hit itself. */
  lemma FillInMeaning(last: Dot, hit: Dot, count: int)
    ensures var f := FillIn(last, hit);
      (RowSkipped(last, hit) ==> 2 * f.row == last.row + hit.row) &&
      (!RowSkipped(last, hit) ==> f.row == last.row) &&
      (ColumnSkipped(last, hit) ==> 2 * f.column == last.column + hit.column) &&
      (!ColumnSkipped(last, hit) ==> f.column == last.column) &&
      Abs(f.row - last.row) <= 1 && Abs(f.column - last.column) <= 1 &&
      (last.row <= f.row <= hit.row || hit.row <= f.row <= last.row) &&
      (last.column <= f.column <= hit.column || hit.column <= f.column <= last.column) &&
      (InGrid(last, count) && InGrid(hit, count) ==> InGrid(f, count)) &&
      (hit != last ==> f != hit)
  {
  }

  /** The worked cases: a straight skip, a diagonal skip, and a knight's move (no fill-in). */
  lemma FillInExamples()
    ensures FillIn(Dot(0, 0), Dot(0, 2)) == Dot(0, 1)
    ensures FillIn(Dot(0, 0), Dot(2, 2)) == Dot(1, 1)
    ensures FillIn(Dot(0, 0), Dot(2, 1)) == Dot(0, 0)
    ensures FillIn(Dot(1, 1), Dot(1, 3)) == Dot(1, 2)
    ensures FillIn(Dot(2, 2), Dot(0, 2)) == Dot(1, 2)
  {
  }

  // ---------------------------------------------------------------- pattern growth

  function Last(p: seq<Dot>): Dot
    requires p != []
  {
    p[|p| - 1]
  }

  function Elems(p: seq<Dot>): set<Dot> {
    set d | d in p
  }

  predicate NoDuplicates(p: seq<Dot>) {
    forall i, j :: 0 <= i < j < |p| ==> p[i] != p[j]
  }

  predicate AllInGrid(p: seq<Dot>, count: int) {
    forall i :: 0 <= i < |p| ==> InGrid(p[i], count)
  }

  /** Every dot the engine holds or has marked is inside the grid. */
  predicate WellFormed(g: Geometry, e: Engine) {
    AllInGrid(e.pattern, g.count) && forall d :: d in e.marked ==> InGrid(d, g.count)
  }

  /** The live-gesture invariant: the lookup table marks exactly the pattern's dots, and the
      pattern holds no dot twice. */
  predicate Consistent(g: Geometry, e: Engine) {
    WellFormed(g, e) && e.marked == Elems(e.pattern) && NoDuplicates(e.pattern)
  }

  /** One `onProgress` per dot of `p` from index `from` on, each carrying the pattern up to that dot. */
  function ProgressTrail(p: seq<Dot>, from: nat): seq<Event>
    decreases |p| - from
  {
    if from >= |p| then [] else [Progress(p[..from + 1])] + ProgressTrail(p, from + 1)
  }

  /** `addCellToPattern`: mark the dot, append it, notify progress. */
  function AddCell(e: Engine, d: Dot): Engine {
    e.(marked := e.marked + {d}, pattern := e.pattern + [d], events := e.events + [Progress(e.pattern + [d])])
  }

  /** `detectAndAddHit`: on a new hit, first the unmarked fill-in dot (if the pattern is not
      empty), then the hit itself. Returns the new state and the hit. */
  function DetectAndAddHit(g: Geometry, e: Engine, x: real, y: real): (Engine, Option<Dot>) {
    match NewHit(g, e.marked, x, y)
    case None => (e, None)
    case Some(d) =>
      var withFill :=
        if e.pattern != [] && FillIn(Last(e.pattern), d) !in e.marked
        then AddCell(e, FillIn(Last(e.pattern), d)) else e;
      (AddCell(withFill, d), Some(d))
  }

  /** A successful hit grows the pattern by one or two dots, by two exactly when there is an
      unmarked fill-in dot, which then comes first; the hit is the new last dot; the marked set
      grows by the added dots; one progress notification is sent per added dot. A miss changes nothing. */
  lemma DetectAndAddHitGrowth(g: Geometry, e: Engine, x: real, y: real)
    ensures var r := DetectAndAddHit(g, e, x, y);
      var e', hit, n := r.0, r.1, |e.pattern|;
      hit == NewHit(g, e.marked, x, y) &&
      (hit.None? ==> e' == e) &&
      (hit.Some? ==>
         (|e'.pattern| == n + 1 || |e'.pattern| == n + 2) &&
         (|e'.pattern| == n + 2 <==> e.pattern != [] && FillIn(Last(e.pattern), hit.value) !in e.marked) &&
         e'.pattern[..n] == e.pattern &&
         Last(e'.pattern) == hit.value &&
         (|e'.pattern| == n + 2 ==> e'.pattern[n] == FillIn(Last(e.pattern), hit.value)) &&
         e'.marked == e.marked + Elems(e'.pattern[n..]) &&
         e'.events == e.events + ProgressTrail(e'.pattern, n) &&
         e'.inProgress == e.inProgress && e'.mode == e.mode)
  {
    var r := DetectAndAddHit(g, e, x, y);
    var e', n := r.0, |e.pattern|;
    if r.1.Some? {
      var d := r.1.value;
      var p' := e'.pattern;
      if e.pattern != [] && FillIn(Last(e.pattern), d) !in e.marked {
        var f := FillIn(Last(e.pattern), d);
        assert p' == e.pattern + [f] + [d];
        assert p'[n..] == [f, d];
        assert p'[..n + 1] == e.pattern + [f];
        assert ProgressTrail(p', n + 2) == [];
        assert ProgressTrail(p', n) == [Progress(p'[..n + 1]), Progress(p'[..n + 2])];
      } else {
        assert p' == e.pattern + [d];
        assert p'[n..] == [d];
        assert ProgressTrail(p', n + 1) == [];
        assert ProgressTrail(p', n) == [Progress(p'[..n + 1])];
      }
      assert p'[..|p'|] == p';
    }
  }

  /** From a consistent state, a hit keeps the state consistent: neither the hit nor the
      fill-in can already be in the pattern, and they differ from each other. */
  lemma DetectAndAddHitKeepsConsistent(g: Geometry, e: Engine, x: real, y: real)
    requires Consistent(g, e)
    ensures Consistent(g, DetectAndAddHit(g, e, x, y).0)
  {
    var r := DetectAndAddHit(g, e, x, y);
    NewHitMeaning(g, e.marked, x, y);
    if r.1.Some? {
      var d := r.1.value;
      assert d !in e.pattern;
      var withFill := e;
      if e.pattern != [] {
        var last := Last(e.pattern);
        var f := FillIn(last, d);
        FillInMeaning(last, d, g.count);
        assert last in e.marked;
        if f !in e.marked {
          withFill := AddCell(e, f);
          AddCellKeepsConsistent(g, e, f);
        }
      }
      assert d !in withFill.marked;
      AddCellKeepsConsistent(g, withFill, d);
    }
  }

  lemma AddCellKeepsConsistent(g: Geometry, e: Engine, d: Dot)
    requires Consistent(g, e) && InGrid(d, g.count) && d !in e.marked
    ensures Consistent(g, AddCell(e, d))
  {
    var p := e.pattern + [d];
    assert Elems(p) == Elems(e.pattern) + {d};
  }

  /** A duplicate-free pattern of in-grid dots has at most `count * count` dots. */
  lemma PatternBounded(p: seq<Dot>, count: nat)
    requires NoDuplicates(p) && AllInGrid(p, count)
    ensures |p| <= count * count
  {
    var ids := Ids(p, count);
    IdsDistinct(p, count);
    forall k | k in ids ensures k in Below(count * count) {
      var i :| 0 <= i < |p| && Id(p[i], count) == k;
      IdInRange(p[i], count);
      BelowMeaning(count * count, k);
    }
    BelowSize(count * count);
    SubsetSize(ids, Below(count * count));
  }

  /** The ids of a pattern's dots. */
  function Ids(p: seq<Dot>, count: int): set<int> {
    set i | 0 <= i < |p| :: Id(p[i], count)
  }

  /** The integers from 0 up to but excluding `n`. */
  function Below(n: nat): set<int> {
    if n == 0 then {} else Below(n - 1) + {n - 1}
  }

  lemma {:induction false} BelowMeaning(n: nat, k: int)
    ensures k in Below(n) <==> 0 <= k < n
  {
    if n > 0 {
      BelowMeaning(n - 1, k);
    }
  }

  lemma {:induction false} BelowSize(n: nat)
    ensures |Below(n)| == n
  {
    if n > 0 {
      BelowSize(n - 1);
      BelowMeaning(n - 1, n - 1);
    }
  }

  lemma {:induction false} IdsDistinct(p: seq<Dot>, count: nat)
    requires NoDuplicates(p) && AllInGrid(p, count)
    ensures |Ids(p, count)| == |p|
    decreases |p|
  {
    if p != [] {
      var p' := p[..|p| - 1];
      IdsDistinct(p', count);
      var d := Last(p);
      assert Ids(p, count) == Ids(p', count) + {Id(d, count)};
      forall k | 0 <= k < |p'| ensures Id(p'[k], count) != Id(d, count) {
        IdsDiffer(p'[k], d, count);
      }
    }
  }

  lemma IdsDiffer(a: Dot, b: Dot, count: int)
    requires InGrid(a, count) && InGrid(b, count) && a != b
    ensures Id(a, count) != Id(b, count)
  {
    if Id(a, count) == Id(b, count) {
      IdInjective(a, b, count);
    }
  }

  lemma SubsetSize(a: set<int>, b: set<int>)
    requires a <= b
    ensures |a| <= |b|
  {
    assert b == a + (b - a);
  }

  // ---------------------------------------------------------------- handlers

  /** One sample of `handleActionMove`: detect a hit; if it leaves the pattern with exactly one
      dot, the gesture starts. */
  function MoveSample(g: Geometry, e: Engine, p: Point): Engine {
    var r := DetectAndAddHit(g, e, p.x, p.y);
    if r.1.Some? && |r.0.pattern| == 1 then r.0.(inProgress := true, events := r.0.events + [Started])
    else r.0
  }

  /** `handleActionMove` over its samples in order: the historical ones, then the current one. */
  function Move(g: Geometry, e: Engine, samples: seq<Point>): Engine
    decreases |samples|
  {
    if samples == [] then e
    else MoveSample(g, Move(g, e, samples[..|samples| - 1]), samples[|samples| - 1])
  }

  /** `resetPattern`: empty list, cleared table, mode CORRECT. */
  function Reset(e: Engine): Engine {
    e.(pattern := [], marked := {}, mode := CORRECT)
  }

  /** `handleActionDown`. */
  function Down(g: Geometry, e: Engine, x: real, y: real): Engine {
    var r := DetectAndAddHit(g, Reset(e), x, y);
    if r.1.Some? then r.0.(inProgress := true, mode := CORRECT, events := r.0.events + [Started])
    else r.0.(inProgress := false, events := r.0.events + [Cleared])
  }

  /** `handleActionUp`. */
  function Up(e: Engine): Engine {
    if e.pattern != [] then e.(inProgress := false, events := e.events + [Complete(e.pattern)]) else e
  }

  /** The ACTION_CANCEL branch of `onTouchEvent`. */
  function Cancel(e: Engine): Engine {
    var r := Reset(e.(inProgress := false));
    r.(events := r.events + [Cleared])
  }

  /** `onTouchEvent` once input is enabled. */
  function Touch(g: Geometry, e: Engine, a: Action): Engine {
    match a
    case ActionDown(x, y) => Down(g, e, x, y)
    case ActionMove(history, x, y) => Move(g, e, history + [Point(x, y)])
    case ActionUp => Up(e)
    case ActionCancel => Cancel(e)
    case ActionOther => e
  }

  /** A sequence of touch events handled in order. */
  function Run(g: Geometry, e: Engine, actions: seq<Action>): Engine
    decreases |actions|
  {
    if actions == [] then e else Run(g, Touch(g, e, actions[0]), actions[1..])
  }

  /** A move sample sends one progress notification per added dot and then `onStarted` exactly
      when it hit and the pattern now holds a single dot; only then does the gesture become in progress. */
  lemma MoveSampleMeaning(g: Geometry, e: Engine, p: Point)
    ensures var e' := MoveSample(g, e, p);
      var grew := |e'.pattern| > |e.pattern|;
      var started := grew && |e'.pattern| == 1;
      e'.pattern[..|e.pattern|] == e.pattern &&
      e'.events == e.events + ProgressTrail(e'.pattern, |e.pattern|) + (if started then [Started] else []) &&
      e'.inProgress == (e.inProgress || started) &&
      e'.mode == e.mode &&
      (grew <==> NewHit(g, e.marked, p.x, p.y).Some?)
  {
    DetectAndAddHitGrowth(g, e, p.x, p.y);
  }

  /** Handling samples in one batch is handling them one after another. */
  lemma {:induction false} MoveConcat(g: Geometry, e: Engine, s: seq<Point>, t: seq<Point>)
    ensures Move(g, e, s + t) == Move(g, Move(g, e, s), t)
    decreases |t|
  {
    if t == [] {
      assert s + t == s;
    } else {
      var t' := t[..|t| - 1];
      assert (s + t)[..|s + t| - 1] == s + t';
      MoveConcat(g, e, s, t');
    }
  }

  /** Moves keep a consistent state consistent and only ever extend the pattern. */
  lemma {:induction false} MoveKeepsConsistent(g: Geometry, e: Engine, samples: seq<Point>)
    requires Consistent(g, e)
    ensures Consistent(g, Move(g, e, samples))
    ensures |Move(g, e, samples).pattern| >= |e.pattern|
    ensures Move(g, e, samples).pattern[..|e.pattern|] == e.pattern
    decreases |samples|
  {
    if samples != [] {
      var prev := Move(g, e, samples[..|samples| - 1]);
      var p := samples[|samples| - 1];
      MoveKeepsConsistent(g, e, samples[..|samples| - 1]);
      DetectAndAddHitKeepsConsistent(g, prev, p.x, p.y);
      MoveSampleMeaning(g, prev, p);
      var next := MoveSample(g, prev, p);
      assert next.pattern[..|prev.pattern|] == prev.pattern;
      assert next.pattern[..|e.pattern|] == prev.pattern[..|e.pattern|];
    }
  }

  /** A down event always leaves a consistent state in mode CORRECT with at most one dot: the hit
      dot with `onProgress` then `onStarted` and the gesture in progress, or nothing with `onCleared`. */
  lemma DownMeaning(g: Geometry, e: Engine, x: real, y: real)
    ensures var e' := Down(g, e, x, y);
      Consistent(g, e') && e'.mode == CORRECT && |e'.pattern| <= 1 &&
      match NewHit(g, {}, x, y)
      case Some(d) =>
        e'.pattern == [d] && e'.inProgress && e'.events == e.events + [Progress([d]), Started]
      case None =>
        e'.pattern == [] && !e'.inProgress && e'.events == e.events + [Cleared]
  {
    var e0 := Reset(e);
    NewHitMeaning(g, {}, x, y);
    assert Consistent(g, e0);
    DetectAndAddHitKeepsConsistent(g, e0, x, y);
    DetectAndAddHitGrowth(g, e0, x, y);
    var r := DetectAndAddHit(g, e0, x, y);
    if r.1.Some? {
      assert r.0.pattern == [r.1.value];
      assert ProgressTrail(r.0.pattern, 0) == [Progress(r.0.pattern[..1])] + ProgressTrail(r.0.pattern, 1);
    }
  }

  /** Up with a non-empty pattern ends the gesture and reports the pattern unchanged; up with an
      empty pattern does nothing. Cancel empties the pattern and reports `onCleared`. Both keep or
      restore consistency. */
  lemma EndOfGesture(g: Geometry, e: Engine)
    ensures var u := Up(e);
      u.pattern == e.pattern && u.marked == e.marked &&
      (e.pattern != [] ==> !u.inProgress && u.events == e.events + [Complete(e.pattern)]) &&
      (e.pattern == [] ==> u == e) &&
      (Consistent(g, e) ==> Consistent(g, u))
    ensures var c := Cancel(e);
      c.pattern == [] && !c.inProgress && c.mode == CORRECT &&
      c.events == e.events + [Cleared] && Consistent(g, c)
  {
  }

  /** Resetting twice is resetting once, and a reset state is consistent. */
  lemma ResetIdempotent(g: Geometry, e: Engine)
    ensures Reset(Reset(e)) == Reset(e)
    ensures Consistent(g, Reset(e))
  {
  }

  /** Every touch event keeps a consistent state consistent, and a down event makes any state consistent. */
  lemma TouchKeepsConsistent(g: Geometry, e: Engine, a: Action)
    requires Consistent(g, e) || a.ActionDown?
    ensures Consistent(g, Touch(g, e, a))
  {
    match a
    case ActionDown(x, y) => DownMeaning(g, e, x, y);
    case ActionMove(history, x, y) => MoveKeepsConsistent(g, e, history + [Point(x, y)]);
    case ActionUp => EndOfGesture(g, e);
    case ActionCancel => EndOfGesture(g, e);
    case ActionOther =>
  }

  /** After any run of touch events that begins with a down event, the pattern has no duplicate,
      the lookup table marks exactly its dots, and it has at most `count * count` dots. */
  lemma {:induction false} GestureRunConsistent(g: Geometry, e: Engine, actions: seq<Action>)
    requires Consistent(g, e) || (actions != [] && actions[0].ActionDown?)
    ensures Consistent(g, Run(g, e, actions))
    ensures |Run(g, e, actions).pattern| <= g.count * g.count
    decreases |actions|
  {
    if actions != [] {
      TouchKeepsConsistent(g, e, actions[0]);
      GestureRunConsistent(g, Touch(g, e, actions[0]), actions[1..]);
    } else {
      PatternBounded(e.pattern, g.count);
    }
  }
  // ---------------------------------------------------------------- a worked gesture

  /** A 3x3 grid of 100-unit cells with no padding: with hit factor 0.6, band `i` is
      `[20 + 100 i, 80 + 100 i]` on both axes. */
  const SampleGrid := Geometry(3, 0.6, 100.0, 100.0, 0.0, 0.0)
  const Idle := Engine([], {}, false, AUTO_DRAW, [])

  lemma SampleHits()
    ensures RowHit(SampleGrid, 50.0) == 0 && ColumnHit(SampleGrid, 50.0) == 0
    ensures RowHit(SampleGrid, 250.0) == 2
    ensures RowHit(SampleGrid, 100.0) == -1
  {
    FirstBandFindsBand(50.0, 0.0, 100.0, 0.6, 0, 3);
    FirstBandFindsBand(250.0, 0.0, 100.0, 0.6, 2, 3);
    BandEdges(0.0, 100.0, 0.6, 1, 3);
  }

  /** Pressing on the top-left dot and dragging straight down to the bottom-left dot selects the
      skipped middle dot on the way, and lifting reports all three in order. */
  lemma StraightDragFillsGap()
    ensures var e := Run(SampleGrid, Idle, [ActionDown(50.0, 50.0), ActionMove([], 50.0, 250.0), ActionUp]);
      e.pattern == [Dot(0, 0), Dot(1, 0), Dot(2, 0)] && !e.inProgress &&
      e.events == [Progress([Dot(0, 0)]), Started,
                   Progress([Dot(0, 0), Dot(1, 0)]), Progress([Dot(0, 0), Dot(1, 0), Dot(2, 0)]),
                   Complete([Dot(0, 0), Dot(1, 0), Dot(2, 0)])]
  {
    var e1 := Down(SampleGrid, Idle, 50.0, 50.0);
    PressTopLeft();
    var e2 := Move(SampleGrid, e1, [Point(50.0, 250.0)]);
    DragToBottomLeft(e1);
    assert Run(SampleGrid, Idle, [ActionDown(50.0, 50.0), ActionMove([], 50.0, 250.0), ActionUp])
        == Run(SampleGrid, e2, [ActionUp]);
  }

  lemma PressTopLeft()
    ensures var e := Down(SampleGrid, Idle, 50.0, 50.0);
      e.pattern == [Dot(0, 0)] && e.marked == {Dot(0, 0)} && e.events == [Progress([Dot(0, 0)]), Started]
  {
    SampleHits();
    DownMeaning(SampleGrid, Idle, 50.0, 50.0);
  }

  lemma DragToBottomLeft(e: Engine)
    requires e.pattern == [Dot(0, 0)] && e.marked == {Dot(0, 0)}
    ensures var e' := Move(SampleGrid, e, [Point(50.0, 250.0)]);
      e'.pattern == [Dot(0, 0), Dot(1, 0), Dot(2, 0)] && e'.inProgress == e.inProgress &&
      e'.events == e.events + [Progress([Dot(0, 0), Dot(1, 0)]), Progress([Dot(0, 0), Dot(1, 0), Dot(2, 0)])]
  {
    SampleHits();
    var e2 := Move(SampleGrid, e, [Point(50.0, 250.0)]);
    assert e2 == MoveSample(SampleGrid, e, Point(50.0, 250.0));
    assert FillIn(Dot(0, 0), Dot(2, 0)) == Dot(1, 0);
    DetectAndAddHitGrowth(SampleGrid, e, 50.0, 250.0);
    assert e2.pattern == [Dot(0, 0), Dot(1, 0), Dot(2, 0)];
    var p := e2.pattern;
    assert p[..2] == [Dot(0, 0), Dot(1, 0)] && p[..3] == p;
    assert ProgressTrail(p, 1) == [Progress(p[..2])] + ([Progress(p[..3])] + ProgressTrail(p, 3));
  }

  /** Pressing on the top-left dot and dragging a knight's move away, to the bottom-middle dot,
      selects no fill-in dot: the drag skipped two rows but moved one column, so the fill-in is
      the starting dot itself, already marked. Lifting reports the two dots. */
  lemma KnightMoveNoFill()
    ensures var e := Run(SampleGrid, Idle, [ActionDown(50.0, 50.0), ActionMove([], 150.0, 250.0), ActionUp]);
      e.pattern == [Dot(0, 0), Dot(2, 1)] && !e.inProgress &&
      e.events == [Progress([Dot(0, 0)]), Started, Progress([Dot(0, 0), Dot(2, 1)]),
                   Complete([Dot(0, 0), Dot(2, 1)])]
  {
    var e1 := Down(SampleGrid, Idle, 50.0, 50.0);
    PressTopLeft();
    var e2 := Move(SampleGrid, e1, [Point(150.0, 250.0)]);
    DragKnightMove(e1);
    assert Run(SampleGrid, Idle, [ActionDown(50.0, 50.0), ActionMove([], 150.0, 250.0), ActionUp])
        == Run(SampleGrid, e2, [ActionUp]);
  }

  lemma DragKnightMove(e: Engine)
    requires e.pattern == [Dot(0, 0)] && e.marked == {Dot(0, 0)}
    ensures var e' := Move(SampleGrid, e, [Point(150.0, 250.0)]);
      e'.pattern == [Dot(0, 0), Dot(2, 1)] && e'.inProgress == e.inProgress &&
      e'.events == e.events + [Progress([Dot(0, 0), Dot(2, 1)])]
  {
    SampleHits();
    FirstBandFindsBand(150.0, 0.0, 100.0, 0.6, 1, 3);
    var e2 := Move(SampleGrid, e, [Point(150.0, 250.0)]);
    assert e2 == MoveSample(SampleGrid, e, Point(150.0, 250.0));
    assert FillIn(Dot(0, 0), Dot(2, 1)) == Dot(0, 0);
    DetectAndAddHitGrowth(SampleGrid, e, 150.0, 250.0);
    assert e2.pattern == [Dot(0, 0), Dot(2, 1)];
    var p := e2.pattern;
    assert p[..2] == p;
    assert ProgressTrail(p, 1) == [Progress(p[..2])] + ProgressTrail(p, 2);
  }

  /** Pressing between two rows selects nothing and reports `onCleared`; cancelling a started
      gesture empties it and reports `onCleared` again. */
  lemma MissAndCancel()
    ensures Down(SampleGrid, Idle, 50.0, 100.0).events == [Cleared]
    ensures var e := Run(SampleGrid, Idle, [ActionDown(50.0, 50.0), ActionCancel]);
      e.pattern == [] && !e.inProgress && e.events == [Progress([Dot(0, 0)]), Started, Cleared]
  {
    SampleHits();
    DownMeaning(SampleGrid, Idle, 50.0, 100.0);
    DownMeaning(SampleGrid, Idle, 50.0, 50.0);
  }
}
