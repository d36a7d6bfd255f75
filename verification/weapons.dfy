/** The ranged weapons: bullets, arrows, the spell, mines and the laser. */
module Weapons {
  import opened Settings
  import opened Lists
  import opened Characters
  import opened Effects

  // ---------------------------------------------------------------------------
  // Bresenham's line, the path a bullet follows
  // ---------------------------------------------------------------------------

  /** The coordinate n unit steps from `from` in the direction of `to`. */
  function Toward(from: int, to: int, n: int): int
  {
    if from > to then from - n else from + n
  }

  /**
   * How far the minor axis has advanced after i steps along the major axis of a line whose
   * extents are `major` >= `minor`: i * minor / major rounded to the nearest integer, halves down.
   */
  function MinorSteps(i: int, major: nat, minor: nat): int
  {
    if major == 0 then 0 else (2 * i * minor + major - 1) / (2 * major)
  }

  /** The number of cells on the line from (x0, y0) to (x1, y1), both ends included. */
  function LineLength(x0: int, y0: int, x1: int, y1: int): nat
  {
    var dx, dy := Abs(x1 - x0), Abs(y1 - y0);
    (if dx >= dy then dx else dy) + 1
  }

  /** The i-th cell of the line from (x0, y0) to (x1, y1), in closed form. */
  function LinePoint(x0: int, y0: int, x1: int, y1: int, i: int): Cell
  {
    var dx, dy := Abs(x1 - x0), Abs(y1 - y0);
    if dx >= dy then (Toward(x0, x1, i), Toward(y0, y1, MinorSteps(i, dx, dy)))
    else (Toward(x0, x1, MinorSteps(i, dy, dx)), Toward(y0, y1, i))
  }

  /** A positive multiple of d is at least d. */
  lemma {:induction false} MulAtLeast(d: int, m: int)
    requires d > 0 && m >= 1
    ensures d * m >= d
  {
    if m > 1 {
      MulAtLeast(d, m - 1);
      assert d * m == d * (m - 1) + d;
    }
  }

  /** Integer division is pinned down by the quotient's bounds. */
  lemma DivBetween(n: int, d: int, q: int)
    requires d > 0 && d * q <= n < d * q + d
    ensures n / d == q
  {
    var q', r' := n / d, n % d;
    assert n == d * q' + r' && 0 <= r' < d;
    assert d * (q' - q) == d * q' - d * q;
    if q' > q {
      MulAtLeast(d, q' - q);
      assert false;
    } else if q' < q {
      MulAtLeast(d, q - q');
      assert false;
    }
  }

  /** After `major` steps the minor axis has advanced by exactly `minor`. */
  lemma MinorStepsAtEnd(major: nat, minor: nat)
    requires minor <= major
    ensures MinorSteps(major, major, minor) == minor
  {
    if major > 0 {
      DivBetween(2 * major * minor + major - 1, 2 * major, minor);
    }
  }

  /** One more major step moves the minor axis by 0 or 1. */
  lemma MinorStepsStep(i: nat, major: nat, minor: nat)
    requires minor <= major
    ensures 0 <= MinorSteps(i + 1, major, minor) - MinorSteps(i, major, minor) <= 1
  {
    if major > 0 {
      var d := 2 * major;
      var a := 2 * i * minor + major - 1;
      var b := 2 * (i + 1) * minor + major - 1;
      var q, r := a / d, a % d;
      assert a == d * q + r && 0 <= r < d;
      assert 2 * (i + 1) * minor == 2 * i * minor + 2 * minor;
      assert d * (q + 1) == d * q + d;
      if b < d * q + d {
        DivBetween(b, d, q);
      } else {
        DivBetween(b, d, q + 1);
      }
    }
  }

  /** The line starts at (x0, y0) and ends at (x1, y1). */
  lemma LineEnds(x0: int, y0: int, x1: int, y1: int)
    ensures LinePoint(x0, y0, x1, y1, 0) == (x0, y0)
    ensures LinePoint(x0, y0, x1, y1, LineLength(x0, y0, x1, y1) - 1) == (x1, y1)
  {
    var dx, dy := Abs(x1 - x0), Abs(y1 - y0);
    if dx >= dy {
      MinorStepsAtEnd(dx, dy);
      if dx > 0 { DivBetween(dx - 1, 2 * dx, 0); }
    } else {
      MinorStepsAtEnd(dy, dx);
      DivBetween(dy - 1, 2 * dy, 0);
    }
  }

  /**
   * Consecutive cells of the line differ by exactly 1 along the longer axis and by at most 1
   * along the other, so the line has no gaps.
   */
  lemma LineStep(x0: int, y0: int, x1: int, y1: int, i: nat)
    ensures var p, q := LinePoint(x0, y0, x1, y1, i), LinePoint(x0, y0, x1, y1, i + 1);
            var dx, dy := Abs(x1 - x0), Abs(y1 - y0);
            if dx >= dy then Abs(q.0 - p.0) == 1 && Abs(q.1 - p.1) <= 1
            else Abs(q.1 - p.1) == 1 && Abs(q.0 - p.0) <= 1
  {
    var dx, dy := Abs(x1 - x0), Abs(y1 - y0);
    if dx >= dy {
      MinorStepsStep(i, dx, dy);
    } else {
      MinorStepsStep(i, dy, dx);
    }
  }

  /**
   * One step of the doubled error term along the major axis: if it holds twice the distance of the
   * drawn minor coordinate k below the ideal line, so does its update, and k is the rounded value.
   */
  lemma ErrorTermStep(major: nat, minor: nat, i: int, k: int, err: int)
    requires minor <= major && major > 0
    requires err == major + 2 * major * k - 2 * i * minor && 0 <= err < 2 * major
    ensures k == MinorSteps(i, major, minor)
    ensures var e := err - 2 * minor;
            if e < 0 then e + 2 * major == major + 2 * major * (k + 1) - 2 * (i + 1) * minor &&
                          0 <= e + 2 * major < 2 * major
            else e == major + 2 * major * k - 2 * (i + 1) * minor && e < 2 * major
  {
    DivBetween(2 * i * minor + major - 1, 2 * major, k);
    assert 2 * (i + 1) * minor == 2 * i * minor + 2 * minor;
    assert 2 * major * (k + 1) == 2 * major * k + 2 * major;
  }

  /**
   * The cells from (x0, y0) to (x1, y1) by Bresenham's algorithm, stepping along the longer axis.
   * The source keeps the error term as the float dx / 2.0 (or dy / 2.0); here it is doubled, which
   * keeps it an integer and every comparison with 0 the same.
   */
  method GetLine(x0: int, y0: int, x1: int, y1: int) returns (points: seq<Cell>)
    ensures |points| == LineLength(x0, y0, x1, y1)
    ensures forall i :: 0 <= i < |points| ==> points[i] == LinePoint(x0, y0, x1, y1, i)
    ensures points[0] == (x0, y0) && points[|points| - 1] == (x1, y1)
  {
    if Abs(x1 - x0) >= Abs(y1 - y0) {
      points := LineAlongX(x0, y0, x1, y1);
    } else {
      points := LineAlongY(x0, y0, x1, y1);
    }
    LineEnds(x0, y0, x1, y1);
  }

  /** The branch of GetLine for lines at least as wide as they are tall. */
  method LineAlongX(x0: int, y0: int, x1: int, y1: int) returns (points: seq<Cell>)
    requires Abs(x1 - x0) >= Abs(y1 - y0)
    ensures |points| == LineLength(x0, y0, x1, y1)
    ensures forall i :: 0 <= i < |points| ==> points[i] == LinePoint(x0, y0, x1, y1, i)
  {
    points := [];
    var dx, dy := Abs(x1 - x0), Abs(y1 - y0);
    var x, y := x0, y0;
    var sx := if x0 > x1 then -1 else 1;
    var sy := if y0 > y1 then -1 else 1;
    var err := dx;
    ghost var k := 0;
    while x != x1
      invariant |points| <= dx
      invariant x == Toward(x0, x1, |points|) && y == Toward(y0, y1, k) && 0 <= k <= |points|
      invariant err == dx + 2 * dx * k - 2 * |points| * dy
      invariant 0 <= err && (err < 2 * dx || dx == 0)
      invariant forall j :: 0 <= j < |points| ==> points[j] == LinePoint(x0, y0, x1, y1, j)
      decreases dx - |points|
    {
      ErrorTermStep(dx, dy, |points|, k, err);
      points := points + [(x, y)];
      err := err - 2 * dy;
      if err < 0 {
        y := y + sy;
        err := err + 2 * dx;
        k := k + 1;
      }
      x := x + sx;
    }
    if dx > 0 { ErrorTermStep(dx, dy, |points|, k, err); }
    points := points + [(x, y)];
  }

  /** The branch of GetLine for lines taller than they are wide. */
  method LineAlongY(x0: int, y0: int, x1: int, y1: int) returns (points: seq<Cell>)
    requires Abs(x1 - x0) < Abs(y1 - y0)
    ensures |points| == LineLength(x0, y0, x1, y1)
    ensures forall i :: 0 <= i < |points| ==> points[i] == LinePoint(x0, y0, x1, y1, i)
  {
    points := [];
    var dx, dy := Abs(x1 - x0), Abs(y1 - y0);
    var x, y := x0, y0;
    var sx := if x0 > x1 then -1 else 1;
    var sy := if y0 > y1 then -1 else 1;
    var err := dy;
    ghost var k := 0;
    while y != y1
      invariant |points| <= dy
      invariant y == Toward(y0, y1, |points|) && x == Toward(x0, x1, k) && 0 <= k <= |points|
      invariant err == dy + 2 * dy * k - 2 * |points| * dx
      invariant 0 <= err < 2 * dy
      invariant forall j :: 0 <= j < |points| ==> points[j] == LinePoint(x0, y0, x1, y1, j)
      decreases dy - |points|
    {
      ErrorTermStep(dy, dx, |points|, k, err);
      points := points + [(x, y)];
      err := err - 2 * dx;
      if err < 0 {
        x := x + sx;
        err := err + 2 * dy;
        k := k + 1;
      }
      y := y + sy;
    }
    ErrorTermStep(dy, dx, |points|, k, err);
    points := points + [(x, y)];
  }

  // ---------------------------------------------------------------------------
  // Bullet
  // ---------------------------------------------------------------------------

  /** The cells of the line from (x0, y0) to (x1, y1), as GetLine computes them. */
  function Line(x0: int, y0: int, x1: int, y1: int): (r: seq<Cell>)
  {
    seq(LineLength(x0, y0, x1, y1), i => LinePoint(x0, y0, x1, y1, i))
  }

  /** The mutable part of a bullet: its cursor on the path, whether it stopped, its frame counter. */
  datatype BulletState = BulletState(currentStep: nat, finished: bool, frameCount: int)

  /**
   * One move of a bullet along `path` among enemies standing on `cells`: the new state and the
   * index of the enemy hit (|cells| for none).
   */
  function BulletMove(path: seq<Cell>, s: BulletState, cells: seq<Cell>): (BulletState, nat)
  {
    if s.currentStep < |path| then
      var k := FirstIndex(cells, path[s.currentStep]);
      if k < |cells| then (s.(finished := true), k)
      else (s.(currentStep := s.currentStep + 1), |cells|)
    else (s.(finished := true), |cells|)
  }

  /** One update of a bullet: nothing once finished, otherwise a move on every speed-th call. */
  function BulletTick(path: seq<Cell>, speed: int, s: BulletState, cells: seq<Cell>): (BulletState, nat)
  {
    if s.finished then (s, |cells|)
    else if s.frameCount + 1 >= speed then BulletMove(path, s.(frameCount := 0), cells)
    else (s.(frameCount := s.frameCount + 1), |cells|)
  }

  class Bullet {
    const path: seq<Cell>
    const speed: int
    var currentStep: nat
    var finished: bool
    var frameCount: int

    /** The cursor never leaves the path. */
    ghost predicate Valid()
      reads this
    {
      currentStep <= |path|
    }

    function State(): BulletState
      reads this
    {
      BulletState(currentStep, finished, frameCount)
    }

    /** A bullet fired from (startX, startY) at (targetX, targetY), at the start of its line. */
    constructor (startX: int, startY: int, targetX: int, targetY: int, speed: int := 5)
      ensures path == Line(startX, startY, targetX, targetY) && this.speed == speed
      ensures currentStep == 0 && !finished && frameCount == 0
      ensures Valid()
    {
      var p := GetLine(startX, startY, targetX, targetY);
      path := p;
      this.speed := speed;
      currentStep := 0;
      finished := false;
      frameCount := 0;
    }

    /** Count a frame and move on every speed-th one; a finished bullet does nothing. */
    method Update(enemies: seq<Character>)
      requires Distinct(enemies)
      modifies this, enemies
      ensures old(Valid()) ==> Valid()
      ensures var (s, k) := BulletTick(path, speed, old(State()), old(Cells(enemies)));
              State() == s &&
              forall j :: 0 <= j < |enemies| ==> enemies[j].health == old(enemies[j].health) - (if j == k then 2 else 0)
      ensures Cells(enemies) == old(Cells(enemies))
    {
      if finished {
        return;
      }
      frameCount := frameCount + 1;
      if frameCount >= speed {
        frameCount := 0;
        Move(enemies);
      }
    }

    /**
     * Look at the current cell of the path: an enemy there is hit and the bullet stops where it
     * is; otherwise the cursor advances; past the end of the path the bullet stops.
     */
    method Move(enemies: seq<Character>)
      requires Distinct(enemies)
      modifies this, enemies
      ensures old(Valid()) ==> Valid()
      ensures var (s, k) := BulletMove(path, old(State()), old(Cells(enemies)));
              State() == s &&
              forall j :: 0 <= j < |enemies| ==> enemies[j].health == old(enemies[j].health) - (if j == k then 2 else 0)
      ensures Cells(enemies) == old(Cells(enemies))
    {
      if currentStep < |path| {
        var (x, y) := path[currentStep];
        var hit := CheckCollision(x, y, enemies);
        if hit {
          finished := true;
          return;
        }
        currentStep := currentStep + 1;
      } else {
        finished := true;
      }
    }

    /** The first enemy standing on (x, y), if any, loses 2 health. */
    method CheckCollision(x: int, y: int, enemies: seq<Character>) returns (hit: bool)
      requires Distinct(enemies)
      modifies enemies
      ensures var k := FirstIndex(old(Cells(enemies)), (x, y));
              hit == (k < |enemies|) &&
              forall j :: 0 <= j < |enemies| ==> enemies[j].health == old(enemies[j].health) - (if j == k then 2 else 0)
      ensures Cells(enemies) == old(Cells(enemies))
    {
      ghost var cells := Cells(enemies);
      var i := 0;
      while i < |enemies|
        invariant 0 <= i <= |enemies|
        invariant forall j :: 0 <= j < i ==> cells[j] != (x, y)
      {
        if enemies[i].IsAt(x, y) {
          enemies[i].health := enemies[i].health - 2;
          return true;
        }
        i := i + 1;
      }
      return false;
    }

    predicate IsFinished()
      reads this
    {
      finished
    }
  }

  /** A move keeps the cursor on the path and advances it by at most one cell. */
  lemma BulletMoveBounds(path: seq<Cell>, s: BulletState, cells: seq<Cell>)
    requires s.currentStep <= |path|
    ensures var (t, k) := BulletMove(path, s, cells);
            s.currentStep <= t.currentStep <= s.currentStep + 1 && t.currentStep <= |path|
  {
  }

  /**
   * A move that hits an enemy hits the first one on the bullet's current cell, stops the bullet,
   * and leaves the cursor where it was; a move that hits nothing either advances the cursor or,
   * at the end of the path, stops the bullet.
   */
  lemma BulletMoveHit(path: seq<Cell>, s: BulletState, cells: seq<Cell>)
    requires s.currentStep <= |path|
    ensures var (t, k) := BulletMove(path, s, cells);
            k <= |cells| &&
            (k < |cells| ==> s.currentStep < |path| && cells[k] == path[s.currentStep] &&
                             (forall j :: 0 <= j < k ==> cells[j] != cells[k]) &&
                             t.finished && t.currentStep == s.currentStep) &&
            (k == |cells| && s.currentStep < |path| ==>
               path[s.currentStep] !in cells && t == s.(currentStep := s.currentStep + 1)) &&
            (s.currentStep == |path| ==> t.finished && k == |cells|)
  {
  }

  /** The bullet's state after n updates in a row. */
  function BulletTicks(path: seq<Cell>, speed: int, s: BulletState, cells: seq<Cell>, n: nat): BulletState
    requires s.currentStep <= |path|
    ensures BulletTicks(path, speed, s, cells, n).currentStep <= |path|
  {
    if n == 0 then s
    else
      var t := BulletTicks(path, speed, s, cells, n - 1);
      BulletMoveBounds(path, t.(frameCount := 0), cells);
      BulletTick(path, speed, t, cells).0
  }

  /**
   * A running bullet whose frame counter is at 0 makes exactly one move in its next `speed`
   * updates, on the last of them, and its counter is back at 0 afterwards.
   */
  lemma {:induction false} BulletMovesEverySpeedTicks(path: seq<Cell>, speed: nat, s: BulletState, cells: seq<Cell>, n: nat)
    requires s.currentStep <= |path| && !s.finished && s.frameCount == 0 && speed >= 1
    requires n <= speed
    ensures n < speed ==> BulletTicks(path, speed, s, cells, n) == s.(frameCount := n)
    ensures n == speed ==> BulletTicks(path, speed, s, cells, n) == BulletMove(path, s, cells).0
  {
    if n > 0 {
      BulletMovesEverySpeedTicks(path, speed, s, cells, n - 1);
    }
  }

  /**
   * A bullet fired at its own cell has the one-cell path [(x, y)]; with no enemy on that cell its
   * first move steps off the path and its second move finishes it.
   */
  lemma PointBlankBullet(x: int, y: int, cells: seq<Cell>)
    requires (x, y) !in cells
    ensures Line(x, y, x, y) == [(x, y)]
    ensures var s0 := BulletState(0, false, 0);
            var s1 := BulletMove(Line(x, y, x, y), s0, cells).0;
            !s1.finished && s1.currentStep == 1 &&
            BulletMove(Line(x, y, x, y), s1, cells).0.finished
  {
    LineEnds(x, y, x, y);
  }

  // ---------------------------------------------------------------------------
  // Arrow
  // ---------------------------------------------------------------------------

  /** The mutable part of an arrow: its cell, frame counter, whether it stopped, how far it went. */
  datatype ArrowState = ArrowState(x: int, y: int, frameCount: int, finished: bool, distanceTraveled: int)

  /**
   * One move of an arrow heading (dx, dy) with range `rangeLimit`: it stops once the range is
   * used up or the next cell is off the grid, and otherwise enters the next cell.
   */
  function ArrowMove(dx: int, dy: int, rangeLimit: int, s: ArrowState): ArrowState
  {
    if s.distanceTraveled >= rangeLimit then s.(finished := true)
    else if InGrid(s.x + dx, s.y + dy) then
      s.(x := s.x + dx, y := s.y + dy, distanceTraveled := s.distanceTraveled + 1)
    else s.(finished := true)
  }

  /**
   * One update of an arrow: nothing once finished, otherwise a move on every speed-th call. The
   * second component tells whether the arrow entered a new cell, whose enemies it then hits.
   */
  function ArrowTick(dx: int, dy: int, speed: int, rangeLimit: int, s: ArrowState): (ArrowState, bool)
  {
    if s.finished then (s, false)
    else if s.frameCount + 1 >= speed then
      var t := ArrowMove(dx, dy, rangeLimit, s.(frameCount := 0));
      (t, t.distanceTraveled != s.distanceTraveled)
    else (s.(frameCount := s.frameCount + 1), false)
  }

  /** An arrow on the grid that has not flown past its range. */
  predicate ArrowInBounds(rangeLimit: int, s: ArrowState)
  {
    InGrid(s.x, s.y) && 0 <= s.distanceTraveled <= rangeLimit
  }

  class Arrow {
    var x: int
    var y: int
    const dx: int
    const dy: int
    const speed: int
    var frameCount: int
    var finished: bool
    const rangeLimit: int
    var distanceTraveled: int

    function State(): ArrowState
      reads this
    {
      ArrowState(x, y, frameCount, finished, distanceTraveled)
    }

    /** An arrow leaving (startX, startY) in `direction`, not yet moved. */
    constructor (startX: int, startY: int, direction: (int, int), speed: int := 3, rangeLimit: int := 15)
      ensures x == startX && y == startY && (dx, dy) == direction
      ensures this.speed == speed && this.rangeLimit == rangeLimit
      ensures frameCount == 0 && !finished && distanceTraveled == 0
    {
      x, y := startX, startY;
      dx, dy := direction.0, direction.1;
      this.speed := speed;
      frameCount := 0;
      finished := false;
      this.rangeLimit := rangeLimit;
      distanceTraveled := 0;
    }

    /** Count a frame and move on every speed-th one; a finished arrow does nothing. */
    method Update(enemies: seq<Character>)
      requires Distinct(enemies)
      modifies this, enemies
      ensures State() == ArrowTick(dx, dy, speed, rangeLimit, old(State())).0
      ensures forall j :: 0 <= j < |enemies| ==>
                enemies[j].health == old(enemies[j].health) -
                  (if ArrowTick(dx, dy, speed, rangeLimit, old(State())).1 && old(Cells(enemies))[j] == (x, y) then 1 else 0)
      ensures Cells(enemies) == old(Cells(enemies))
    {
      if finished {
        return;
      }
      ghost var s0 := State();
      frameCount := frameCount + 1;
      if frameCount >= speed {
        frameCount := 0;
        Move(enemies);
        assert (State(), distanceTraveled != s0.distanceTraveled) == ArrowTick(dx, dy, speed, rangeLimit, s0);
      }
    }

    /** Stop when the range is used up or the next cell is off the grid; otherwise step and hit. */
    method Move(enemies: seq<Character>)
      requires Distinct(enemies)
      modifies this, enemies
      ensures State() == ArrowMove(dx, dy, rangeLimit, old(State()))
      ensures forall j :: 0 <= j < |enemies| ==>
                enemies[j].health == old(enemies[j].health) -
                  (if distanceTraveled != old(distanceTraveled) && old(Cells(enemies))[j] == (x, y) then 1 else 0)
      ensures Cells(enemies) == old(Cells(enemies))
    {
      if distanceTraveled >= rangeLimit {
        finished := true;
        return;
      }
      var newX, newY := x + dx, y + dy;
      if 0 <= newX < COLS && 0 <= newY < ROWS {
        x, y := newX, newY;
        distanceTraveled := distanceTraveled + 1;
        CheckCollision(enemies);
      } else {
        finished := true;
      }
    }

    /** Every enemy standing on the arrow's cell loses 1 health; the arrow flies on. */
    method CheckCollision(enemies: seq<Character>)
      requires Distinct(enemies)
      modifies enemies
      ensures forall j :: 0 <= j < |enemies| ==>
                enemies[j].health == old(enemies[j].health) - (if old(Cells(enemies))[j] == (x, y) then 1 else 0)
      ensures Cells(enemies) == old(Cells(enemies))
    {
      ghost var cells := Cells(enemies);
      var i := 0;
      while i < |enemies|
        invariant 0 <= i <= |enemies|
        invariant Cells(enemies) == cells
        invariant forall j :: 0 <= j < |enemies| ==>
                    enemies[j].health == old(enemies[j].health) - (if j < i && cells[j] == (x, y) then 1 else 0)
      {
        if enemies[i].IsAt(x, y) {
          enemies[i].health := enemies[i].health - 1;
        }
        i := i + 1;
      }
    }

    predicate IsFinished()
      reads this
    {
      finished
    }
  }

  /**
   * An update keeps an arrow on the grid and within its range; it finishes exactly when its range
   * is used up or the next cell is off the grid, and each move it makes is one step in its direction.
   */
  lemma ArrowMoveStaysInBounds(dx: int, dy: int, rangeLimit: int, s: ArrowState)
    requires ArrowInBounds(rangeLimit, s) && !s.finished
    ensures var t := ArrowMove(dx, dy, rangeLimit, s);
            ArrowInBounds(rangeLimit, t) &&
            (t.finished <==> s.distanceTraveled >= rangeLimit || !InGrid(s.x + dx, s.y + dy)) &&
            (!t.finished ==> t.x == s.x + dx && t.y == s.y + dy && t.distanceTraveled == s.distanceTraveled + 1)
  {
  }

  /** The state after n moves in a row. */
  function ArrowMoves(dx: int, dy: int, rangeLimit: int, s: ArrowState, n: nat): ArrowState
  {
    if n == 0 then s else ArrowMove(dx, dy, rangeLimit, ArrowMoves(dx, dy, rangeLimit, s, n - 1))
  }

  /** The arrow's state after n updates in a row. */
  function ArrowTicks(dx: int, dy: int, speed: int, rangeLimit: int, s: ArrowState, n: nat): ArrowState
  {
    if n == 0 then s else ArrowTick(dx, dy, speed, rangeLimit, ArrowTicks(dx, dy, speed, rangeLimit, s, n - 1)).0
  }

  /**
   * A flying arrow whose frame counter is at 0 makes exactly one move in its next `speed`
   * updates, on the last of them, and its counter is back at 0 afterwards.
   */
  lemma {:induction false} ArrowMovesEverySpeedTicks(dx: int, dy: int, speed: nat, rangeLimit: int, s: ArrowState, n: nat)
    requires !s.finished && s.frameCount == 0 && speed >= 1
    requires n <= speed
    ensures n < speed ==> ArrowTicks(dx, dy, speed, rangeLimit, s, n) == s.(frameCount := n)
    ensures n == speed ==> ArrowTicks(dx, dy, speed, rangeLimit, s, n) == ArrowMove(dx, dy, rangeLimit, s)
  {
    if n > 0 {
      ArrowMovesEverySpeedTicks(dx, dy, speed, rangeLimit, s, n - 1);
    }
  }

  /** An arrow shot right from (10, 10) with range 15 is at (10 + n, 10) after n <= 15 moves. */
  lemma {:induction false} ArrowFlight(n: nat)
    requires n <= 15
    ensures ArrowMoves(1, 0, 15, ArrowState(10, 10, 0, false, 0), n) == ArrowState(10 + n, 10, 0, false, n)
  {
    if n > 0 {
      ArrowFlight(n - 1);
    }
  }

  /**
   * An arrow shot right from (10, 10) with range 15 on the 30-wide grid crosses exactly 15 cells,
   * unobstructed, and finishes on its 16th move.
   */
  lemma ArrowRangeExample()
    ensures var s15 := ArrowMoves(1, 0, 15, ArrowState(10, 10, 0, false, 0), 15);
            s15 == ArrowState(25, 10, 0, false, 15) &&
            ArrowMoves(1, 0, 15, ArrowState(10, 10, 0, false, 0), 16).finished
  {
    ArrowFlight(15);
  }

  // ---------------------------------------------------------------------------
  // Spell
  // ---------------------------------------------------------------------------

  const SPELL_RADIUS: int := 2
  const SPELL_DAMAGE: int := 2

  /**
   * Whether an enemy on (ex, ey) is within the spell's radius of (tx, ty). The source compares the
   * Euclidean distance math.hypot(ex - tx, ey - ty) with 2; for integers that is the same as
   * comparing the squared distance with 4.
   */
  predicate InSpellRange(ex: int, ey: int, tx: int, ty: int)
  {
    (ex - tx) * (ex - tx) + (ey - ty) * (ey - ty) <= SPELL_RADIUS * SPELL_RADIUS
  }

  /** Every enemy within distance 2 of (targetX, targetY) loses 2 health; nobody else is touched. */
  method CastSpell(targetX: int, targetY: int, enemies: seq<Character>)
    requires Distinct(enemies)
    modifies enemies
    ensures forall j :: 0 <= j < |enemies| ==>
              enemies[j].health == old(enemies[j].health) -
                (if InSpellRange(old(enemies[j].x), old(enemies[j].y), targetX, targetY) then SPELL_DAMAGE else 0)
    ensures Cells(enemies) == old(Cells(enemies))
  {
    var spellRadius := SPELL_RADIUS;
    var spellDamage := SPELL_DAMAGE;
    var i := 0;
    while i < |enemies|
      invariant 0 <= i <= |enemies|
      invariant Cells(enemies) == old(Cells(enemies))
      invariant forall j :: 0 <= j < |enemies| ==>
                  enemies[j].health == old(enemies[j].health) -
                    (if j < i && InSpellRange(enemies[j].x, enemies[j].y, targetX, targetY) then SPELL_DAMAGE else 0)
    {
      var ddx, ddy := enemies[i].x - targetX, enemies[i].y - targetY;
      if ddx * ddx + ddy * ddy <= spellRadius * spellRadius {
        enemies[i].health := enemies[i].health - spellDamage;
      }
      i := i + 1;
    }
  }

  /** A square of at most 4 is the square of -2 .. 2. */
  lemma SmallSquare(a: int)
    ensures a * a <= 4 <==> -2 <= a <= 2
    ensures a * a >= Abs(a)
    ensures a * a == 0 <==> a == 0
  {
    if a > 2 {
      MulAtLeast(a, 3);
      assert a * a >= 3 * a;
    } else if a < -2 {
      MulAtLeast(-a, 3);
      assert a * a == (-a) * (-a);
    } else if a > 0 {
      MulAtLeast(a, a);
    } else if a < 0 {
      MulAtLeast(-a, -a);
      assert a * a == (-a) * (-a);
    }
  }

  /**
   * The spell's area is the 13 cells within Manhattan distance 2 of the target: the full cross of
   * radius 2 and the four diagonal neighbours.
   */
  lemma SpellAreaIsDiamond(ex: int, ey: int, tx: int, ty: int)
    ensures InSpellRange(ex, ey, tx, ty) <==> Abs(ex - tx) + Abs(ey - ty) <= 2
  {
    var a, b := ex - tx, ey - ty;
    SmallSquare(a);
    SmallSquare(b);
    if Abs(a) + Abs(b) <= 2 {
      assert -2 <= a <= 2 && -2 <= b <= 2;
      if Abs(a) == 2 {
        assert b == 0;
      } else if Abs(b) == 2 {
        assert a == 0;
      } else {
        assert a * a <= 1 && b * b <= 1 by {
          assert -1 <= a <= 1 && -1 <= b <= 1;
        }
      }
    } else if -2 <= a <= 2 && -2 <= b <= 2 {
      assert Abs(a) >= 1 && Abs(b) >= 1;
      if Abs(a) == 2 {
        assert a * a == 4;
      } else {
        assert b * b == 4;
      }
    }
  }

  // ---------------------------------------------------------------------------
  // Shared strike: every enemy on one cell loses the same amount
  // ---------------------------------------------------------------------------

  /** Every enemy standing on `c` loses `damage`; `hit` says whether there was one. */
  method StrikeAllAt(c: Cell, damage: int, enemies: seq<Character>) returns (hit: bool)
    requires Distinct(enemies)
    modifies enemies
    ensures hit <==> c in old(Cells(enemies))
    ensures forall j :: 0 <= j < |enemies| ==>
              enemies[j].health == old(enemies[j].health) - (if old(Cells(enemies))[j] == c then damage else 0)
    ensures Cells(enemies) == old(Cells(enemies))
  {
    ghost var cells := Cells(enemies);
    hit := false;
    var i := 0;
    while i < |enemies|
      invariant 0 <= i <= |enemies|
      invariant Cells(enemies) == cells
      invariant hit <==> c in cells[..i]
      invariant forall j :: 0 <= j < |enemies| ==>
                  enemies[j].health == old(enemies[j].health) - (if j < i && cells[j] == c then damage else 0)
    {
      if enemies[i].IsAt(c.0, c.1) {
        enemies[i].health := enemies[i].health - damage;
        hit := true;
      }
      assert cells[..i + 1] == cells[..i] + [cells[i]];
      i := i + 1;
    }
    assert cells[..i] == cells;
  }

  // ---------------------------------------------------------------------------
  // Mines
  // ---------------------------------------------------------------------------

  const MINE_DAMAGE: int := 3

  /** A mine as the game keeps it: a record of its cell and whether it is still armed. */
  datatype Mine = MineAt(x: int, y: int, active: bool)

  /** The mine list after placing an armed mine on (x, y): the old list with it appended. */
  function PlaceMine(x: int, y: int, mines: seq<Mine>): (r: seq<Mine>)
    ensures |r| == |mines| + 1 && r[..|mines|] == mines
    ensures r[|mines|].active && (r[|mines|].x, r[|mines|].y) == (x, y)
  {
    mines + [MineAt(x, y, true)]
  }

  /** 1 when `m` is an armed mine lying on `c`, else 0. */
  function ArmedOn(m: Mine, c: Cell): nat
  {
    if m.active && (m.x, m.y) == c then 1 else 0
  }

  /** How many armed mines of `mines` lie on `c`. */
  function ArmedAt(mines: seq<Mine>, c: Cell): nat
  {
    if |mines| == 0 then 0 else ArmedAt(mines[..|mines| - 1], c) + ArmedOn(mines[|mines| - 1], c)
  }

  /**
   * The mines left after one check against enemies standing on `cells`, in list order: spent
   * mines are gone, and each armed mine stays, disarmed exactly when an enemy stands on it.
   */
  function MinesAfter(mines: seq<Mine>, cells: seq<Cell>): seq<Mine>
  {
    if |mines| == 0 then [] else MinesAfter(mines[..|mines| - 1], cells) + CheckedMine(mines[|mines| - 1], cells)
  }

  /** What one check leaves of mine `m`: nothing if it is spent, else `m` disarmed iff an enemy is on it. */
  function CheckedMine(m: Mine, cells: seq<Cell>): seq<Mine>
  {
    if m.active then [m.(active := (m.x, m.y) !in cells)] else []
  }

  /**
   * One pass over a snapshot of the mine list: a spent mine is removed from the list (the first
   * record equal to it); an armed mine hits every enemy on its cell for 3 and, if there was one,
   * is disarmed in place. The records left are those of MinesAfter, though not necessarily in that
   * order, and each enemy loses 3 for every armed mine on its cell.
   */
  method CheckMines(mines: seq<Mine>, enemies: seq<Character>) returns (remaining: seq<Mine>)
    requires Distinct(enemies)
    modifies enemies
    ensures multiset(remaining) == multiset(MinesAfter(mines, old(Cells(enemies))))
    ensures forall j :: 0 <= j < |enemies| ==>
              enemies[j].health == old(enemies[j].health) - MINE_DAMAGE * ArmedAt(mines, old(Cells(enemies))[j])
    ensures Cells(enemies) == old(Cells(enemies))
    ensures forall b: Bullet {:trigger allocated(b)} :: old(allocated(b)) ==> unchanged(b)
    ensures forall a: Arrow {:trigger allocated(a)} :: old(allocated(a)) ==> unchanged(a)
    ensures forall e: SpellEffect {:trigger allocated(e)} :: old(allocated(e)) ==> unchanged(e)
    ensures forall l: LaserEffect {:trigger allocated(l)} :: old(allocated(l)) ==> unchanged(l)
  {
    ghost var cells := Cells(enemies);
    remaining := mines;
    var i := 0;
    while i < |mines|
      invariant 0 <= i <= |mines|
      invariant multiset(remaining) == multiset(MinesAfter(mines[..i], cells)) + multiset(mines[i..])
      invariant Cells(enemies) == cells
      invariant forall j :: 0 <= j < |enemies| ==>
                  enemies[j].health == old(enemies[j].health) - MINE_DAMAGE * ArmedAt(mines[..i], cells[j])
    {
      ghost var before := remaining;
      PassHolds(mines, i, cells, before);
      remaining := CheckMine(mines[i], remaining, enemies);
      PassStep(mines, i, cells, before, remaining);
      ArmedAtStep(mines, i, cells);
      i := i + 1;
    }
    assert mines[..i] == mines;
  }

  /**
   * The body of the pass for one mine record `mine` of `remaining`: a spent mine is removed (the
   * first equal record); an armed one hits each enemy on its cell for 3 and is disarmed in place if
   * it hit anyone.
   */
  method CheckMine(mine: Mine, remaining: seq<Mine>, enemies: seq<Character>) returns (r: seq<Mine>)
    requires mine in remaining
    requires Distinct(enemies)
    modifies enemies
    ensures multiset(r) == multiset(remaining) - multiset{mine} + multiset(CheckedMine(mine, old(Cells(enemies))))
    ensures forall j :: 0 <= j < |enemies| ==>
              enemies[j].health == old(enemies[j].health) - MINE_DAMAGE * ArmedOn(mine, old(Cells(enemies))[j])
    ensures Cells(enemies) == old(Cells(enemies))
  {
    if !mine.active {
      r := RemoveFirst(remaining, mine);
    } else {
      var hit := StrikeAllAt((mine.x, mine.y), MINE_DAMAGE, enemies);
      r := remaining;
      if hit {
        r := ReplaceFirst(remaining, mine, mine.(active := false));
      }
    }
  }

  /** Mine i of the snapshot is still among the records when the pass reaches it. */
  lemma PassHolds(mines: seq<Mine>, i: nat, cells: seq<Cell>, before: seq<Mine>)
    requires i < |mines|
    requires multiset(before) == multiset(MinesAfter(mines[..i], cells)) + multiset(mines[i..])
    ensures mines[i] in before
  {
    assert mines[i..] == [mines[i]] + mines[i + 1..];
    assert mines[i] in multiset(before);
  }

  /** Handling mine i moves it from the pending part of the records to the checked part. */
  lemma PassStep(mines: seq<Mine>, i: nat, cells: seq<Cell>, before: seq<Mine>, after: seq<Mine>)
    requires i < |mines|
    requires multiset(before) == multiset(MinesAfter(mines[..i], cells)) + multiset(mines[i..])
    requires multiset(after) == multiset(before) - multiset{mines[i]} + multiset(CheckedMine(mines[i], cells))
    ensures multiset(after) == multiset(MinesAfter(mines[..i + 1], cells)) + multiset(mines[i + 1..])
  {
    var checked := multiset(MinesAfter(mines[..i], cells));
    var step := multiset(CheckedMine(mines[i], cells));
    var rest := multiset(mines[i + 1..]);
    MinesAfterStep(mines, i, cells);
    PendingStep(mines, i);
    SwapOut(checked, rest, step, mines[i]);
  }

  /** Checking one more mine appends what became of it. */
  lemma MinesAfterStep(mines: seq<Mine>, i: nat, cells: seq<Cell>)
    requires i < |mines|
    ensures multiset(MinesAfter(mines[..i + 1], cells)) == multiset(MinesAfter(mines[..i], cells)) + multiset(CheckedMine(mines[i], cells))
  {
    var done := mines[..i + 1];
    assert done[..i] == mines[..i] && done[i] == mines[i];
    assert MinesAfter(done, cells) == MinesAfter(mines[..i], cells) + CheckedMine(mines[i], cells);
  }

  /** The pending mines are mine i and those after it. */
  lemma PendingStep(mines: seq<Mine>, i: nat)
    requires i < |mines|
    ensures multiset(mines[i..]) == multiset{mines[i]} + multiset(mines[i + 1..])
  {
    assert mines[i..] == [mines[i]] + mines[i + 1..];
  }

  /** Taking out the element just put in and adding `c` gives the other parts plus `c`. */
  lemma SwapOut<T>(a: multiset<T>, b: multiset<T>, c: multiset<T>, m: T)
    ensures a + multiset{m} + b - multiset{m} + c == a + c + b
  {
    assert a + multiset{m} + b - multiset{m} == a + b;
  }

  /** Mine i adds its own hit to the damage count of every enemy cell. */
  lemma ArmedAtStep(mines: seq<Mine>, i: nat, cells: seq<Cell>)
    requires i < |mines|
    ensures forall j :: 0 <= j < |cells| ==>
              ArmedAt(mines[..i + 1], cells[j]) == ArmedAt(mines[..i], cells[j]) + ArmedOn(mines[i], cells[j])
  {
    assert mines[..i + 1][..i] == mines[..i];
  }

  /** After a check, a mine is still armed exactly when no enemy stands on it. */
  lemma {:induction false} MinesAfterArmedIffClear(mines: seq<Mine>, cells: seq<Cell>)
    ensures forall k :: 0 <= k < |MinesAfter(mines, cells)| ==>
              (MinesAfter(mines, cells)[k].active <==> (MinesAfter(mines, cells)[k].x, MinesAfter(mines, cells)[k].y) !in cells)
  {
    if |mines| > 0 {
      MinesAfterArmedIffClear(mines[..|mines| - 1], cells);
    }
  }

  /** How many mines of `mines` are armed. */
  function ArmedCount(mines: seq<Mine>): nat
  {
    if |mines| == 0 then 0 else ArmedCount(mines[..|mines| - 1]) + (if mines[|mines| - 1].active then 1 else 0)
  }

  /** A check keeps one record per mine that was armed and drops every spent one. */
  lemma {:induction false} MinesAfterKeepsArmed(mines: seq<Mine>, cells: seq<Cell>)
    ensures |MinesAfter(mines, cells)| == ArmedCount(mines)
  {
    if |mines| > 0 {
      MinesAfterKeepsArmed(mines[..|mines| - 1], cells);
    }
  }

  /** An enemy takes mine damage exactly when some armed mine lies on its cell. */
  lemma {:induction false} ArmedAtPositive(mines: seq<Mine>, c: Cell)
    ensures ArmedAt(mines, c) > 0 <==> exists i :: 0 <= i < |mines| && mines[i].active && (mines[i].x, mines[i].y) == c
  {
    if |mines| > 0 {
      var n := |mines| - 1;
      ArmedAtPositive(mines[..n], c);
      if ArmedAt(mines[..n], c) > 0 {
        var i :| 0 <= i < n && mines[..n][i].active && (mines[..n][i].x, mines[..n][i].y) == c;
        assert mines[i] == mines[..n][i];
      }
      if exists i :: 0 <= i < |mines| && mines[i].active && (mines[i].x, mines[i].y) == c {
        var i :| 0 <= i < |mines| && mines[i].active && (mines[i].x, mines[i].y) == c;
        if i < n {
          assert mines[..n][i] == mines[i];
        }
      }
    }
  }

  /** Checking the survivors again against the same enemies only drops the mines just disarmed. */
  lemma {:induction false} SecondCheckDropsSpent(mines: seq<Mine>, cells: seq<Cell>)
    ensures |MinesAfter(MinesAfter(mines, cells), cells)| == ArmedCount(MinesAfter(mines, cells))
    ensures forall k :: 0 <= k < |MinesAfter(MinesAfter(mines, cells), cells)| ==>
              MinesAfter(MinesAfter(mines, cells), cells)[k].active
  {
    var once := MinesAfter(mines, cells);
    MinesAfterKeepsArmed(once, cells);
    MinesAfterArmedIffClear(mines, cells);
    MinesAfterStaysArmed(once, cells);
  }

  /** A check keeps armed only mines that were armed and whose cell is clear. */
  lemma {:induction false} MinesAfterStaysArmed(mines: seq<Mine>, cells: seq<Cell>)
    requires forall k :: 0 <= k < |mines| ==> (mines[k].active <==> (mines[k].x, mines[k].y) !in cells)
    ensures forall k :: 0 <= k < |MinesAfter(mines, cells)| ==> MinesAfter(mines, cells)[k].active
  {
    if |mines| > 0 {
      var n := |mines| - 1;
      assert forall k :: 0 <= k < n ==> mines[..n][k] == mines[k];
      MinesAfterStaysArmed(mines[..n], cells);
    }
  }

  // ---------------------------------------------------------------------------
  // Laser
  // ---------------------------------------------------------------------------

  const LASER_DAMAGE: int := 2

  /** One of the four unit steps of DIRECTIONS. */
  predicate IsDirection(dx: int, dy: int)
  {
    (dy == 0 && (dx == -1 || dx == 1)) || (dx == 0 && (dy == -1 || dy == 1))
  }

  /** How many more cells a ray heading (dx, dy) can cover from (x, y) before it leaves the grid. */
  function RayRoom(x: int, y: int, dx: int, dy: int): int
  {
    if dx == 1 then COLS - x else if dx == -1 then x + 1 else if dy == 1 then ROWS - y else y + 1
  }

  /** The cells a laser ray covers from (x, y) heading (dx, dy): every cell until it leaves the grid. */
  function Ray(x: int, y: int, dx: int, dy: int): seq<Cell>
    requires IsDirection(dx, dy)
    decreases RayRoom(x, y, dx, dy)
  {
    if InGrid(x, y) then [(x, y)] + Ray(x + dx, y + dy, dx, dy) else []
  }

  /** Ray d of a laser fired from `at`: from the neighbour in direction d of DIRECTIONS, heading that way. */
  function Beam(at: Cell, d: nat): seq<Cell>
    requires d < 4
  {
    Ray(Neighbour(at, d).0, Neighbour(at, d).1, DIRECTIONS[d].0, DIRECTIONS[d].1)
  }

  /** The first n rays of a laser fired from `at`, in the order of DIRECTIONS. */
  function Beams(at: Cell, n: nat): (r: seq<seq<Cell>>)
    requires n <= 4
    ensures |r| == n && forall d :: 0 <= d < n ==> r[d] == Beam(at, d)
  {
    if n == 0 then [] else Beams(at, n - 1) + [Beam(at, n - 1)]
  }

  /** How many of the first n rays of a laser fired from `at` cover `c`. */
  function Crossings(at: Cell, n: nat, c: Cell): nat
    requires n <= 4
  {
    if n == 0 then 0 else Crossings(at, n - 1, c) + (if c in Beam(at, n - 1) then 1 else 0)
  }

  /** One ray: walks it, striking every enemy on each cell it covers. */
  method FireRay(x0: int, y0: int, dx: int, dy: int, enemies: seq<Character>) returns (path: seq<Cell>)
    requires IsDirection(dx, dy)
    requires Distinct(enemies)
    modifies enemies
    ensures path == Ray(x0, y0, dx, dy)
    ensures forall j :: 0 <= j < |enemies| ==>
              enemies[j].health == old(enemies[j].health) - (if old(Cells(enemies))[j] in path then LASER_DAMAGE else 0)
    ensures Cells(enemies) == old(Cells(enemies))
  {
    ghost var cells := Cells(enemies);
    path := [];
    var x, y := x0, y0;
    while 0 <= x < COLS && 0 <= y < ROWS
      invariant path + Ray(x, y, dx, dy) == Ray(x0, y0, dx, dy)
      invariant forall p :: p in path ==> !OnRay(x, y, dx, dy, p)
      invariant Cells(enemies) == cells
      invariant forall j :: 0 <= j < |enemies| ==>
                  enemies[j].health == old(enemies[j].health) - (if cells[j] in path then LASER_DAMAGE else 0)
      decreases RayRoom(x, y, dx, dy)
    {
      ghost var rest := Ray(x + dx, y + dy, dx, dy);
      assert Ray(x, y, dx, dy) == [(x, y)] + rest;
      assert (path + [(x, y)]) + rest == path + ([(x, y)] + rest);
      forall p | p in path + [(x, y)] ensures !OnRay(x + dx, y + dy, dx, dy, p) {
        OnRayStep(x, y, dx, dy, p);
      }
      OnRayStep(x, y, dx, dy, (x, y));
      var _ := StrikeAllAt((x, y), LASER_DAMAGE, enemies);
      path := path + [(x, y)];
      x, y := x + dx, y + dy;
    }
  }

  /**
   * Fires the laser from the player's cell in all four directions: every enemy loses 2 health for
   * each ray crossing its cell, and the four paths are appended to `laserPaths`, in the order of
   * DIRECTIONS.
   */
  method FireLaser(player: Character, enemies: seq<Character>, laserPaths: seq<seq<Cell>>)
    returns (paths: seq<seq<Cell>>)
    requires Distinct(enemies)
    modifies enemies
    ensures paths == laserPaths + Beams((old(player.x), old(player.y)), 4)
    ensures forall j :: 0 <= j < |enemies| ==>
              enemies[j].health == old(enemies[j].health) -
                LASER_DAMAGE * Crossings((old(player.x), old(player.y)), 4, old(Cells(enemies))[j])
    ensures Cells(enemies) == old(Cells(enemies))
  {
    ghost var cells := Cells(enemies);
    var px, py := player.x, player.y;
    paths := laserPaths;
    var d := 0;
    while d < 4
      invariant 0 <= d <= 4
      invariant paths == laserPaths + Beams((px, py), d)
      invariant Cells(enemies) == cells
      invariant forall j :: 0 <= j < |enemies| ==>
                  enemies[j].health == old(enemies[j].health) - LASER_DAMAGE * Crossings((px, py), d, cells[j])
    {
      var (dx, dy) := DIRECTIONS[d];
      assert Neighbour((px, py), d) == (px + dx, py + dy);
      var path := FireRay(px + dx, py + dy, dx, dy, enemies);
      assert path == Beam((px, py), d);
      paths := paths + [path];
      d := d + 1;
    }
  }

  /** Which cells a ray from (x, y) heading (dx, dy) would pass over on an unbounded grid. */
  predicate OnRay(x: int, y: int, dx: int, dy: int, c: Cell)
  {
    if dx == 1 then c.1 == y && c.0 >= x
    else if dx == -1 then c.1 == y && c.0 <= x
    else if dy == 1 then c.0 == x && c.1 >= y
    else c.0 == x && c.1 <= y
  }

  /**
   * A ray that starts next to a cell of the grid covers each grid cell on its half-line exactly
   * once and nothing else.
   */
  lemma {:induction false} RayCovers(x: int, y: int, dx: int, dy: int, c: Cell)
    requires IsDirection(dx, dy)
    requires InGrid(x - dx, y - dy)
    ensures c in Ray(x, y, dx, dy) <==> CellInGrid(c) && OnRay(x, y, dx, dy, c)
    decreases RayRoom(x, y, dx, dy)
  {
    if InGrid(x, y) {
      var rest := Ray(x + dx, y + dy, dx, dy);
      assert Ray(x, y, dx, dy) == [(x, y)] + rest;
      RayCovers(x + dx, y + dy, dx, dy, c);
      OnRayStep(x, y, dx, dy, c);
    } else {
      OnRayLeavesGrid(x, y, dx, dy, c);
    }
  }

  /** The half-line from (x, y) is its first cell followed by the half-line from the next one. */
  lemma OnRayStep(x: int, y: int, dx: int, dy: int, c: Cell)
    requires IsDirection(dx, dy)
    ensures OnRay(x, y, dx, dy, c) <==> c == (x, y) || OnRay(x + dx, y + dy, dx, dy, c)
    ensures !(c == (x, y) && OnRay(x + dx, y + dy, dx, dy, c))
  {
  }

  /** Once a ray has stepped off the grid from a grid cell, nothing further along it is on the grid. */
  lemma OnRayLeavesGrid(x: int, y: int, dx: int, dy: int, c: Cell)
    requires IsDirection(dx, dy) && InGrid(x - dx, y - dy) && !InGrid(x, y)
    ensures !(CellInGrid(c) && OnRay(x, y, dx, dy, c))
  {
  }

  /** How often ray d of a laser fired from a grid cell covers a grid cell c. */
  lemma BeamCount(at: Cell, d: nat, c: Cell)
    requires d < 4 && CellInGrid(at) && CellInGrid(c)
    ensures c in Beam(at, d) <==>
              if d == 0 then c.1 == at.1 && c.0 < at.0
              else if d == 1 then c.1 == at.1 && c.0 > at.0
              else if d == 2 then c.0 == at.0 && c.1 < at.1
              else c.0 == at.0 && c.1 > at.1
  {
    var (dx, dy) := DIRECTIONS[d];
    assert Neighbour(at, d) == (at.0 + dx, at.1 + dy);
    RayCovers(at.0 + dx, at.1 + dy, dx, dy, c);
  }

  /**
   * The laser strikes an enemy on the grid exactly once when it shares the player's row or column
   * (and is not on the player's own cell), and not at all otherwise.
   */
  lemma LaserHitsRowAndColumn(at: Cell, c: Cell)
    requires CellInGrid(at) && CellInGrid(c)
    ensures Crossings(at, 4, c) == if c != at && (c.0 == at.0 || c.1 == at.1) then 1 else 0
  {
    BeamCount(at, 0, c);
    BeamCount(at, 1, c);
    BeamCount(at, 2, c);
    BeamCount(at, 3, c);
    assert Crossings(at, 1, c) == if c in Beam(at, 0) then 1 else 0;
    assert Crossings(at, 2, c) == Crossings(at, 1, c) + if c in Beam(at, 1) then 1 else 0;
    assert Crossings(at, 3, c) == Crossings(at, 2, c) + if c in Beam(at, 2) then 1 else 0;
    assert Crossings(at, 4, c) == Crossings(at, 3, c) + if c in Beam(at, 3) then 1 else 0;
  }

  /** A player in the middle of the board hits an enemy five cells to the right for 2. */
  lemma LaserExample()
    ensures LASER_DAMAGE * Crossings((15, 15), 4, (20, 15)) == 2
    ensures Crossings((15, 15), 4, (20, 16)) == 0
  {
    LaserHitsRowAndColumn((15, 15), (20, 15));
    LaserHitsRowAndColumn((15, 15), (20, 16));
  }
}
