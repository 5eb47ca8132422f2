/**
 * The pattern-lock view as a mutable object: the pattern list, the N x N draw-lookup table, the
 * gesture flags and the listener log. Every state-changing method is proved to move the view's
 * engine state exactly as the pure functions of module Gesture say, so the properties proved
 * there (consistency of the lookup table, no duplicate dot, the notification order) hold for it.
 */
module PatternLock {
  import opened Results
  import opened Dots
  import Gesture

  /** What `getCurrentColor` and `onMeasure` throw `IllegalStateException` for. */
  datatype ViewError = UnknownViewMode(mode: int) | UnknownAspectRatio(ratio: int)

  /** `AspectRatio` values. */
  const ASPECT_RATIO_SQUARE := 0
  const ASPECT_RATIO_WIDTH_BIAS := 1
  const ASPECT_RATIO_HEIGHT_BIAS := 2

  /** Android's `MeasureSpec` modes; a spec is given here already split into mode and size. */
  const UNSPECIFIED := 0
  const EXACTLY := 0x4000_0000
  /** Android's `MeasureSpec.AT_MOST` is this bit pattern as a 32-bit `Int`, a negative value;
      modes are only compared for equality, so its sign plays no part here. */
  const AT_MOST := 0x8000_0000
  datatype MeasureSpec = MeasureSpec(mode: int, size: int)

  /** The length of one auto-draw step, in milliseconds. */
  const MILLIS_PER_CIRCLE_ANIMATING := 700

  /** The settings the gesture handlers never touch. */
  datatype ViewSettings = ViewSettings(
    inputEnabled: bool, stealth: bool, animatingPeriodStart: int,
    normalColor: int, wrongColor: int, correctColor: int,
    aspectRatioEnabled: bool, aspectRatio: int)

  /** Scan the bands of one axis the way `getRowHit` and `getColumnHit` do. */
  method ScanBands(v: real, padding: real, cell: real, hitFactor: real, n: nat) returns (hit: int)
    ensures hit == Gesture.FirstBand(v, padding, cell, hitFactor, 0, n)
  {
    var hitSize := cell * hitFactor;
    var offset := padding + (cell - hitSize) / 2.0;
    var i := 0;
    while i < n
      invariant 0 <= i <= n
      invariant Gesture.FirstBand(v, padding, cell, hitFactor, 0, n) == Gesture.FirstBand(v, padding, cell, hitFactor, i, n)
    {
      var hitTop := offset + cell * (i as real);
      if v >= hitTop && v <= hitTop + hitSize {
        return i;
      }
      i := i + 1;
    }
    return -1;
  }

  /** The fill-in computation of `detectAndAddHit`, written as the view performs it: start from
      the last dot and step one toward the hit on each axis the drag skipped. It is proved equal
      to `Gesture.FillIn`, the definition that the engine and its lemmas (`FillInMeaning`) are
      stated over, so what is proved there holds for the dot the view adds. */
  method FillInGapDot(last: Dot, hit: Dot) returns (fill: Dot)
    ensures fill == Gesture.FillIn(last, hit)
  {
    var dRow := hit.row - last.row;
    var dColumn := hit.column - last.column;
    var fillRow := last.row;
    var fillColumn := last.column;
    if Gesture.Abs(dRow) == 2 && Gesture.Abs(dColumn) != 1 {
      fillRow := last.row + if dRow > 0 then 1 else -1;
    }
    if Gesture.Abs(dColumn) == 2 && Gesture.Abs(dRow) != 1 {
      fillColumn := last.column + if dColumn > 0 then 1 else -1;
    }
    fill := Dot(fillRow, fillColumn);
  }

  /** `resolveMeasured`: the desired size when unconstrained, at least the spec size under
      AT_MOST, and the spec size otherwise. */
  function ResolveMeasured(spec: MeasureSpec, desired: int): (r: int)
    ensures spec.mode == UNSPECIFIED ==> r == desired
    ensures spec.mode == AT_MOST ==> r >= spec.size && r >= desired && (r == spec.size || r == desired)
    ensures spec.mode != UNSPECIFIED && spec.mode != AT_MOST ==> r == spec.size
  {
    if spec.mode == UNSPECIFIED then desired
    else if spec.mode == AT_MOST then (if spec.size >= desired then spec.size else desired)
    else spec.size
  }

  /** The number of dots marked in an auto-draw frame, `elapsed` milliseconds into the
      animation of an `n`-dot pattern: one more dot every 700 ms over a cycle of `n + 1` steps,
      with the source's truncating `%` and `/`. Never more than the pattern holds, and never
      negative once the clock has not gone backwards. */
  function CirclesShown(n: nat, elapsed: int): (k: int)
    ensures k <= n
    ensures elapsed >= 0 ==> 0 <= k
  {
    var oneCycle := (n + 1) * MILLIS_PER_CIRCLE_ANIMATING;
    var spot := TruncRem(elapsed, oneCycle);
    var k := TruncDiv(spot, MILLIS_PER_CIRCLE_ANIMATING);
    assert spot < oneCycle && (spot >= 0 ==> k == spot / MILLIS_PER_CIRCLE_ANIMATING);
    k
  }

  /** The animation schedule: during the `j`-th 700 ms step of a cycle exactly `j` dots are shown,
      and the same count comes back in that step of every later cycle `m` (a cycle is `n + 1`
      steps). */
  lemma AutoDrawSchedule(n: nat, elapsed: int, j: nat, m: nat)
    requires j <= n && j * MILLIS_PER_CIRCLE_ANIMATING <= elapsed < (j + 1) * MILLIS_PER_CIRCLE_ANIMATING
    ensures CirclesShown(n, elapsed) == j
    ensures CirclesShown(n, elapsed + m * ((n + 1) * MILLIS_PER_CIRCLE_ANIMATING)) == j
  {
    var oneCycle := (n + 1) * MILLIS_PER_CIRCLE_ANIMATING;
    MulMonotone(j + 1, n + 1, MILLIS_PER_CIRCLE_ANIMATING);
    assert elapsed < oneCycle;
    DivModUnique(elapsed, oneCycle, 0, elapsed);
    MulMonotone(0, m, oneCycle);
    DivModUnique(elapsed + m * oneCycle, oneCycle, m, elapsed);
    DivModUnique(elapsed, MILLIS_PER_CIRCLE_ANIMATING, j, elapsed - j * MILLIS_PER_CIRCLE_ANIMATING);
  }

  class PatternLockView {
    const count: nat
    const hitFactor: real
    /** `mPatternDrawLookup[row][column]`. */
    const lookup: array2<bool>
    /** The dots `lookup` marks. */
    ghost var marked: set<Dot>

    var cellWidth: real
    var cellHeight: real
    var paddingLeft: real
    var paddingTop: real

    var pattern: seq<Dot>
    var inProgress: bool
    var mode: int
    /** The notifications every registered listener has received, oldest first. */
    var events: seq<Gesture.Event>

    var inputEnabled: bool
    var stealth: bool
    var animatingPeriodStart: int
    var normalColor: int
    var wrongColor: int
    var correctColor: int
    var aspectRatioEnabled: bool
    var aspectRatio: int

    /** The lookup table is `count` by `count` and marks exactly `marked`; every dot the view
        holds is in the grid. */
    ghost predicate Valid()
      reads this, lookup
    {
      lookup.Length0 == count && lookup.Length1 == count &&
      (forall r, c :: 0 <= r < count && 0 <= c < count ==> (lookup[r, c] <==> Dot(r, c) in marked)) &&
      (forall d :: d in marked ==> InGrid(d, count)) &&
      Gesture.AllInGrid(pattern, count)
    }

    ghost function State(): Gesture.Engine
      reads this
    {
      Gesture.Engine(pattern, marked, inProgress, mode, events)
    }

    function Geometry(): Gesture.Geometry
      reads this
    {
      Gesture.Geometry(count, hitFactor, cellWidth, cellHeight, paddingLeft, paddingTop)
    }

    function Settings(): ViewSettings
      reads this
    {
      ViewSettings(inputEnabled, stealth, animatingPeriodStart, normalColor, wrongColor, correctColor,
               aspectRatioEnabled, aspectRatio)
    }

    /** A fresh view: empty pattern and table, mode AUTO_DRAW, input enabled, no notification yet. */
    constructor(count: nat, hitFactor: real, normalColor: int, wrongColor: int, correctColor: int,
                aspectRatioEnabled: bool, aspectRatio: int)
      ensures Valid() && fresh(lookup)
      ensures this.count == count && this.hitFactor == hitFactor
      ensures State() == Gesture.Engine([], {}, false, Gesture.AUTO_DRAW, [])
      ensures Settings() == ViewSettings(true, false, 0, normalColor, wrongColor, correctColor,
                                     aspectRatioEnabled, aspectRatio)
      ensures Geometry() == Gesture.Geometry(count, hitFactor, 0.0, 0.0, 0.0, 0.0)
    {
      this.count := count;
      this.hitFactor := hitFactor;
      cellWidth, cellHeight := 0.0, 0.0;
      paddingLeft, paddingTop := 0.0, 0.0;
      lookup := new bool[count, count]((r, c) => false);
      marked := {};
      pattern := [];
      inProgress := false;
      mode := Gesture.AUTO_DRAW;
      events := [];
      inputEnabled := true;
      stealth := false;
      animatingPeriodStart := 0;
      this.normalColor := normalColor;
      this.wrongColor := wrongColor;
      this.correctColor := correctColor;
      this.aspectRatioEnabled := aspectRatioEnabled;
      this.aspectRatio := aspectRatio;
    }

    /** `onSizeChanged`: each cell is the padded-in size divided by the dot count. */
    method OnSizeChanged(width: int, height: int, padLeft: int, padTop: int, padRight: int, padBottom: int)
      requires Valid() && count > 0
      modifies this
      ensures Valid() && State() == old(State()) && Settings() == old(Settings())
      ensures cellWidth * (count as real) == (width - padLeft - padRight) as real
      ensures cellHeight * (count as real) == (height - padTop - padBottom) as real
      ensures paddingLeft == padLeft as real && paddingTop == padTop as real
    {
      cellWidth := ((width - padLeft - padRight) as real) / (count as real);
      cellHeight := ((height - padTop - padBottom) as real) / (count as real);
      paddingLeft := padLeft as real;
      paddingTop := padTop as real;
    }

    /** `getRowHit`. */
    method RowHit(y: real) returns (row: int)
      ensures row == Gesture.RowHit(Geometry(), y)
    {
      row := ScanBands(y, paddingTop, cellHeight, hitFactor, count);
    }

    /** `getColumnHit`. */
    method ColumnHit(x: real) returns (column: int)
      ensures column == Gesture.ColumnHit(Geometry(), x)
    {
      column := ScanBands(x, paddingLeft, cellWidth, hitFactor, count);
    }

    /** `checkForNewHit`. */
    method CheckForNewHit(x: real, y: real) returns (hit: Option<Dot>)
      requires Valid()
      ensures hit == Gesture.NewHit(Geometry(), marked, x, y)
    {
      var row := RowHit(y);
      if row < 0 {
        return None;
      }
      var column := ColumnHit(x);
      if column < 0 {
        return None;
      }
      Gesture.FirstBandMeaning(y, paddingTop, cellHeight, hitFactor, 0, count);
      Gesture.FirstBandMeaning(x, paddingLeft, cellWidth, hitFactor, 0, count);
      if lookup[row, column] {
        return None;
      }
      return Some(Dot(row, column));
    }

    /** `addCellToPattern`. */
    method AddCellToPattern(d: Dot)
      requires Valid() && InGrid(d, count)
      modifies this, lookup
      ensures Valid() && Geometry() == old(Geometry()) && Settings() == old(Settings())
      ensures State() == Gesture.AddCell(old(State()), d)
    {
      Mark(d);
      pattern := pattern + [d];
      events := events + [Gesture.Progress(pattern)];
    }

    /** Set one cell of the lookup table. */
    method Mark(d: Dot)
      requires Valid() && InGrid(d, count)
      modifies this, lookup
      ensures Valid() && Geometry() == old(Geometry()) && Settings() == old(Settings())
      ensures State() == old(State()).(marked := old(marked) + {d})
    {
      lookup[d.row, d.column] := true;
      marked := marked + {d};
    }

    /** Mark the first `k` dots of the pattern in a cleared table, one by one (the loops of
        `setPattern` and of the auto-draw frame). */
    method MarkPrefix(k: nat)
      requires Valid() && marked == {} && k <= |pattern|
      modifies this, lookup
      ensures Valid() && Geometry() == old(Geometry()) && Settings() == old(Settings())
      ensures pattern == old(pattern)
      ensures State() == old(State()).(marked := Gesture.Elems(pattern[..k]))
    {
      var i := 0;
      while i < k
        invariant 0 <= i <= k
        invariant Valid() && Geometry() == old(Geometry()) && Settings() == old(Settings())
        invariant pattern == old(pattern)
        invariant State() == old(State()).(marked := Gesture.Elems(pattern[..i]))
      {
        Mark(pattern[i]);
        assert pattern[..i + 1] == pattern[..i] + [pattern[i]];
        i := i + 1;
      }
    }

    /** `detectAndAddHit`: returns the hit dot, after adding the fill-in dot and the hit. */
    method DetectAndAddHit(x: real, y: real) returns (hit: Option<Dot>)
      requires Valid()
      modifies this, lookup
      ensures Valid() && Geometry() == old(Geometry()) && Settings() == old(Settings())
      ensures (State(), hit) == Gesture.DetectAndAddHit(old(Geometry()), old(State()), x, y)
    {
      hit := CheckForNewHit(x, y);
      if hit.None? {
        return;
      }
      var d := hit.value;
      Gesture.NewHitMeaning(Geometry(), marked, x, y);
      if pattern != [] {
        var last := pattern[|pattern| - 1];
        var fill := FillInGapDot(last, d);
        Gesture.FillInMeaning(last, d, count);
        if !lookup[fill.row, fill.column] {
          AddCellToPattern(fill);
        }
      }
      AddCellToPattern(d);
    }

    /** `resetPattern`. */
    method ResetPattern()
      requires Valid()
      modifies this, lookup
      ensures Valid() && Geometry() == old(Geometry()) && Settings() == old(Settings())
      ensures State() == Gesture.Reset(old(State()))
    {
      pattern := [];
      ClearPatternDrawLookup();
      mode := Gesture.CORRECT;
    }

    /** `clearPatternDrawLookup`: every cell of the table set to false, row by row. */
    method ClearPatternDrawLookup()
      requires Valid()
      modifies this, lookup
      ensures Valid() && Geometry() == old(Geometry()) && Settings() == old(Settings())
      ensures State() == old(State()).(marked := {})
      ensures forall r, c :: 0 <= r < count && 0 <= c < count ==> !lookup[r, c]
    {
      var i := 0;
      while i < count
        invariant 0 <= i <= count && unchanged(this)
        invariant forall r, c :: 0 <= r < i && 0 <= c < count ==> !lookup[r, c]
        invariant forall r, c :: i <= r < count && 0 <= c < count ==> lookup[r, c] == old(lookup[r, c])
      {
        var j := 0;
        while j < count
          invariant 0 <= j <= count && unchanged(this)
          invariant forall r, c :: 0 <= r < i && 0 <= c < count ==> !lookup[r, c]
          invariant forall c :: 0 <= c < j ==> !lookup[i, c]
          invariant forall r, c :: (i < r < count || (r == i && j <= c < count)) && 0 <= c < count ==> lookup[r, c] == old(lookup[r, c])
        {
          lookup[i, j] := false;
          j := j + 1;
        }
        i := i + 1;
      }
      marked := {};
    }

    /** `clearPattern`: the same as a reset, and no listener is told. */
    method ClearPattern()
      requires Valid()
      modifies this, lookup
      ensures Valid() && Geometry() == old(Geometry()) && Settings() == old(Settings())
      ensures State() == Gesture.Reset(old(State()))
      ensures events == old(events)
    {
      ResetPattern();
    }

    /** `setViewMode`: switching to AUTO_DRAW with a pattern restarts the animation clock at
        `now` and unmarks every dot. */
    method SetViewMode(newMode: int, now: int)
      requires Valid()
      modifies this, lookup
      ensures Valid() && Geometry() == old(Geometry())
      ensures var restart := newMode == Gesture.AUTO_DRAW && pattern != [];
        State() == old(State()).(mode := newMode, marked := if restart then {} else old(marked)) &&
        Settings() == old(Settings()).(animatingPeriodStart := if restart then now else old(animatingPeriodStart))
    {
      mode := newMode;
      if newMode == Gesture.AUTO_DRAW && pattern != [] {
        animatingPeriodStart := now;
        ClearPatternDrawLookup();
      }
    }

    /** `setPattern`: the pattern becomes `p` and the table marks exactly its dots, unless the new
        mode is AUTO_DRAW and `p` is not empty, in which case the table ends up empty and the
        animation restarts at `now`. */
    method SetPattern(newMode: int, p: seq<Dot>, now: int)
      requires Valid() && Gesture.AllInGrid(p, count)
      modifies this, lookup
      ensures Valid() && Geometry() == old(Geometry())
      ensures var restart := newMode == Gesture.AUTO_DRAW && p != [];
        State() == old(State()).(pattern := p, mode := newMode,
                                 marked := if restart then {} else Gesture.Elems(p)) &&
        Settings() == old(Settings()).(animatingPeriodStart := if restart then now else old(animatingPeriodStart))
    {
      pattern := p;
      ClearPatternDrawLookup();
      MarkPrefix(|p|);
      assert p[..|p|] == p;
      SetViewMode(newMode, now);
    }

    /** `handleActionDown`. */
    method HandleActionDown(x: real, y: real)
      requires Valid()
      modifies this, lookup
      ensures Valid() && Geometry() == old(Geometry()) && Settings() == old(Settings())
      ensures State() == Gesture.Down(old(Geometry()), old(State()), x, y)
    {
      ResetPattern();
      var hit := DetectAndAddHit(x, y);
      if hit.Some? {
        inProgress := true;
        mode := Gesture.CORRECT;
        events := events + [Gesture.Started];
      } else {
        inProgress := false;
        events := events + [Gesture.Cleared];
      }
    }

    /** `handleActionMove`: the historical samples in order, then the current position. */
    method HandleActionMove(history: seq<Gesture.Point>, x: real, y: real)
      requires Valid()
      modifies this, lookup
      ensures Valid() && Geometry() == old(Geometry()) && Settings() == old(Settings())
      ensures State() == Gesture.Move(old(Geometry()), old(State()), history + [Gesture.Point(x, y)])
    {
      ghost var samples := history + [Gesture.Point(x, y)];
      var i := 0;
      while i <= |history|
        invariant 0 <= i <= |history| + 1
        invariant Valid() && Geometry() == old(Geometry()) && Settings() == old(Settings())
        invariant State() == Gesture.Move(Geometry(), old(State()), samples[..i])
      {
        var px := if i < |history| then history[i].x else x;
        var py := if i < |history| then history[i].y else y;
        assert samples[i] == Gesture.Point(px, py);
        assert samples[..i + 1][..i] == samples[..i];
        MoveSampleStep(px, py);
        i := i + 1;
      }
      assert samples[..|history| + 1] == samples;
    }

    /** One pass of the `handleActionMove` loop: detect a hit, and start the gesture when it
        leaves a single dot. */
    method MoveSampleStep(x: real, y: real)
      requires Valid()
      modifies this, lookup
      ensures Valid() && Geometry() == old(Geometry()) && Settings() == old(Settings())
      ensures State() == Gesture.MoveSample(old(Geometry()), old(State()), Gesture.Point(x, y))
    {
      var hit := DetectAndAddHit(x, y);
      if hit.Some? && |pattern| == 1 {
        inProgress := true;
        events := events + [Gesture.Started];
      }
    }

    /** `handleActionUp`. */
    method HandleActionUp()
      requires Valid()
      modifies this
      ensures Valid() && Geometry() == old(Geometry()) && Settings() == old(Settings())
      ensures State() == Gesture.Up(old(State()))
    {
      if pattern != [] {
        inProgress := false;
        events := events + [Gesture.Complete(pattern)];
      }
    }

    /** `onTouchEvent`; `viewEnabled` is the framework's `isEnabled`. Nothing is handled and
        nothing changes while input or the view is disabled; otherwise the four gesture actions
        are handled and any other action is declined. */
    method OnTouchEvent(a: Gesture.Action, viewEnabled: bool) returns (handled: bool)
      requires Valid()
      modifies this, lookup
      ensures Valid() && Geometry() == old(Geometry()) && Settings() == old(Settings())
      ensures !(old(inputEnabled) && viewEnabled) ==> !handled && State() == old(State())
      ensures old(inputEnabled) && viewEnabled ==>
        handled == !a.ActionOther? && State() == Gesture.Touch(old(Geometry()), old(State()), a)
    {
      if !inputEnabled || !viewEnabled {
        return false;
      }
      match a
      case ActionDown(x, y) =>
        HandleActionDown(x, y);
        handled := true;
      case ActionUp =>
        HandleActionUp();
        handled := true;
      case ActionMove(history, x, y) =>
        HandleActionMove(history, x, y);
        handled := true;
      case ActionCancel =>
        inProgress := false;
        ResetPattern();
        events := events + [Gesture.Cleared];
        handled := true;
      case ActionOther =>
        handled := false;
    }

    /** The auto-draw part of `onDraw` at clock time `now`: in AUTO_DRAW mode the table is
        rewritten to mark the first `CirclesShown` dots of the pattern (none while that count is
        negative), and while the animation is between two dots the segment from the last shown dot
        to the next one is returned. Other modes leave everything as it is. */
    method AutoDrawFrame(now: int) returns (segment: Option<(Dot, Dot)>)
      requires Valid()
      modifies this, lookup
      ensures Valid() && Geometry() == old(Geometry()) && Settings() == old(Settings())
      ensures old(mode) != Gesture.AUTO_DRAW ==> State() == old(State()) && segment.None?
      ensures old(mode) == Gesture.AUTO_DRAW ==>
        var k := CirclesShown(|pattern|, now - animatingPeriodStart);
        State() == old(State()).(marked := Gesture.Elems(pattern[..if k < 0 then 0 else k])) &&
        segment == if 0 < k < |pattern| then Some((pattern[k - 1], pattern[k])) else None
    {
      segment := None;
      if mode != Gesture.AUTO_DRAW {
        return;
      }
      var n := |pattern|;
      var k := CirclesShown(n, now - animatingPeriodStart);
      ClearPatternDrawLookup();
      MarkPrefix(if k < 0 then 0 else k);
      if 0 < k < n {
        segment := Some((pattern[k - 1], pattern[k]));
      }
    }

    /** `getCurrentColor`. */
    function CurrentColor(partOfPattern: bool): (r: Result<int, ViewError>)
      reads this
      ensures r.Err? <==> partOfPattern && !stealth && !inProgress &&
                          mode != Gesture.CORRECT && mode != Gesture.AUTO_DRAW && mode != Gesture.WRONG
      ensures r.Err? ==> r.error == UnknownViewMode(mode)
      ensures !partOfPattern || stealth || inProgress ==> r == Ok(normalColor)
      ensures r == Ok(wrongColor) || r == Ok(correctColor) || r == Ok(normalColor) || r.Err?
      ensures partOfPattern && !stealth && !inProgress && mode == Gesture.WRONG ==> r == Ok(wrongColor)
      ensures partOfPattern && !stealth && !inProgress && (mode == Gesture.CORRECT || mode == Gesture.AUTO_DRAW) ==> r == Ok(correctColor)
    {
      if !partOfPattern || stealth || inProgress then Ok(normalColor)
      else if mode == Gesture.WRONG then Ok(wrongColor)
      else if mode == Gesture.CORRECT || mode == Gesture.AUTO_DRAW then Ok(correctColor)
      else Err(UnknownViewMode(mode))
    }

    /** `onMeasure` once the superclass has measured: `Ok(None)` keeps that measurement;
        otherwise both sides are the resolved sizes, the shorter side is never enlarged, and at
        least one side keeps its resolved length. */
    function Measure(widthSpec: MeasureSpec, heightSpec: MeasureSpec, minWidth: int, minHeight: int): (r: Result<Option<(int, int)>, ViewError>)
      reads this
      ensures !aspectRatioEnabled ==> r == Ok(None)
      ensures aspectRatioEnabled && r.Ok? ==> r.value.Some?
      ensures r.Err? <==> aspectRatioEnabled && aspectRatio != ASPECT_RATIO_SQUARE &&
                          aspectRatio != ASPECT_RATIO_WIDTH_BIAS && aspectRatio != ASPECT_RATIO_HEIGHT_BIAS
      ensures r.Err? ==> r.error == UnknownAspectRatio(aspectRatio)
      ensures r.Ok? && r.value.Some? ==>
        var w, h := ResolveMeasured(widthSpec, minWidth), ResolveMeasured(heightSpec, minHeight);
        var (w', h') := r.value.value;
        w' <= w && h' <= h && (w' == w || h' == h) &&
        (w' == w || w' == h) && (h' == w || h' == h) &&
        (aspectRatio == ASPECT_RATIO_SQUARE ==> w' == h') &&
        (aspectRatio == ASPECT_RATIO_WIDTH_BIAS ==> w' == w && h' <= w) &&
        (aspectRatio == ASPECT_RATIO_HEIGHT_BIAS ==> h' == h && w' <= h)
    {
      if !aspectRatioEnabled then Ok(None)
      else
        var w := ResolveMeasured(widthSpec, minWidth);
        var h := ResolveMeasured(heightSpec, minHeight);
        var shorter := if w <= h then w else h;
        if aspectRatio == ASPECT_RATIO_SQUARE then Ok(Some((shorter, shorter)))
        else if aspectRatio == ASPECT_RATIO_WIDTH_BIAS then Ok(Some((w, shorter)))
        else if aspectRatio == ASPECT_RATIO_HEIGHT_BIAS then Ok(Some((shorter, h)))
        else Err(UnknownAspectRatio(aspectRatio))
    }
  }
}
