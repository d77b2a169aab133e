/** Path interpolation inside volumetric structures: a 3-D Bresenham line
    between the voxels of consecutive waypoints, mapped back to rows of the
    voxel table (wbsurfer/volume.py). */
module Volume {
  import opened Outcomes
  import opened Voxels
  import opened PySeq
  import opened Scene

  /** `1 if to > from else -1`: the direction a coordinate moves in. */
  function Dir(from: int, to: int): int {
    if to > from then 1 else -1
  }

  /** The displacement of `n` unit steps in direction `s`. */
  function Off(s: int, n: int): int {
    if s > 0 then n else -n
  }

  /** The driving axis `a0` and the secondary axes `a1`, `a2`, with their
      absolute deltas `d0..d2` and step directions `s0..s2`. */
  datatype Drive = Drive(a0: Axis, a1: Axis, a2: Axis, d0: nat, d1: nat, d2: nat, s0: int, s1: int, s2: int)

  /** `dr` is a relabelling of the three axes of the segment `v0 -> v1`. */
  predicate Describes(dr: Drive, v0: Ijk, v1: Ijk) {
    && dr.a0 != dr.a1 && dr.a0 != dr.a2 && dr.a1 != dr.a2
    && dr.d0 == Abs(v1.At(dr.a0) - v0.At(dr.a0))
    && dr.d1 == Abs(v1.At(dr.a1) - v0.At(dr.a1))
    && dr.d2 == Abs(v1.At(dr.a2) - v0.At(dr.a2))
    && dr.s0 == Dir(v0.At(dr.a0), v1.At(dr.a0))
    && dr.s1 == Dir(v0.At(dr.a1), v1.At(dr.a1))
    && dr.s2 == Dir(v0.At(dr.a2), v1.At(dr.a2))
  }

  /** The drive is a permutation of the axes whose first axis has the
      largest delta. */
  predicate DriveOk(dr: Drive) {
    && dr.a0 != dr.a1 && dr.a0 != dr.a2 && dr.a1 != dr.a2
    && dr.d1 <= dr.d0 && dr.d2 <= dr.d0
    && (dr.s0 == 1 || dr.s0 == -1) && (dr.s1 == 1 || dr.s1 == -1) && (dr.s2 == 1 || dr.s2 == -1)
  }

  /** Choice of the driving axis: x, then y, then z wins ties. */
  function ChooseDrive(v0: Ijk, v1: Ijk): (dr: Drive)
    ensures Describes(dr, v0, v1) && DriveOk(dr)
    ensures dr.d0 == Cheb(v0, v1)
  {
    var dx := Abs(v1.i - v0.i);
    var dy := Abs(v1.j - v0.j);
    var dz := Abs(v1.k - v0.k);
    var xs := Dir(v0.i, v1.i);
    var ys := Dir(v0.j, v1.j);
    var zs := Dir(v0.k, v1.k);
    if dx >= dy && dx >= dz then Drive(X, Y, Z, dx, dy, dz, xs, ys, zs)
    else if dy >= dx && dy >= dz then Drive(Y, X, Z, dy, dx, dz, ys, xs, zs)
    else Drive(Z, X, Y, dz, dx, dy, zs, xs, ys)
  }

  /** The loop state: the last point written and the two error terms. */
  datatype Cursor = Cursor(c: Ijk, p1: int, p2: int)

  /** One iteration of the rasterising loop. */
  function Step(dr: Drive, cur: Cursor): Cursor {
    var c := cur.c.Shift(dr.a0, dr.s0);
    var c := if cur.p1 >= 0 then c.Shift(dr.a1, dr.s1) else c;
    var p1 := if cur.p1 >= 0 then cur.p1 - 2 * dr.d0 else cur.p1;
    var c := if cur.p2 >= 0 then c.Shift(dr.a2, dr.s2) else c;
    var p2 := if cur.p2 >= 0 then cur.p2 - 2 * dr.d0 else cur.p2;
    Cursor(c, p1 + 2 * dr.d1, p2 + 2 * dr.d2)
  }

  /** The points written by the remaining `n` iterations. */
  function Walk(dr: Drive, cur: Cursor, n: nat): (w: seq<Ijk>)
    ensures |w| == n
    decreases n
  {
    if n == 0 then []
    else
      var next := Step(dr, cur);
      [next.c] + Walk(dr, next, n - 1)
  }

  /** Coordinate `y` follows `x` either unchanged or one unit in the
      direction `x0 -> x1` (as the source computes it: -1 when equal). */
  predicate StepsToward(x: int, y: int, x0: int, x1: int) {
    y == x || y == x + Dir(x0, x1)
  }

  /** `b` is a 26-neighbour of `a`, reached by moving each coordinate at
      most one unit towards `v1`. */
  predicate UnitStepToward(a: Ijk, b: Ijk, v0: Ijk, v1: Ijk) {
    && Cheb(a, b) == 1
    && StepsToward(a.i, b.i, v0.i, v1.i)
    && StepsToward(a.j, b.j, v0.j, v1.j)
    && StepsToward(a.k, b.k, v0.k, v1.k)
  }

  /** `bresenham3d(v0, v1)`: the line has one point per unit of the largest
      delta plus one, starts at `v0`, ends at `v1`, its `n`-th point is
      exactly `n` away from `v0`, and each point is a unit step from the
      previous one towards `v1`. */
  function Line(v0: Ijk, v1: Ijk): (line: seq<Ijk>)
    ensures |line| == Cheb(v0, v1) + 1
    ensures line[0] == v0 && line[|line| - 1] == v1
    ensures forall n :: 0 <= n < |line| ==> Cheb(v0, line[n]) == n
    ensures forall n :: 0 <= n < |line| - 1 ==> UnitStepToward(line[n], line[n + 1], v0, v1)
  {
    var dr := ChooseDrive(v0, v1);
    var start := Cursor(v0, 2 * dr.d1 - dr.d0, 2 * dr.d2 - dr.d0);
    LineFacts(v0, v1, dr, start);
    [v0] + Walk(dr, start, dr.d0)
  }

  /** A point whose driving coordinate is `t` steps from `v0` and whose
      secondary coordinates are `k1`, `k2` steps from `v0`. */
  predicate Placed(v0: Ijk, dr: Drive, c: Ijk, t: int, k1: int, k2: int) {
    && c.At(dr.a0) == v0.At(dr.a0) + Off(dr.s0, t)
    && c.At(dr.a1) == v0.At(dr.a1) + Off(dr.s1, k1)
    && c.At(dr.a2) == v0.At(dr.a2) + Off(dr.s2, k2)
  }

  /** The loop invariant of one error term: after `t` iterations in which
      the secondary axis of delta `d` stepped `k` times, the error term is
      `2d(t+1) - d0(2k+1)` and lies in `[2d - 2d0, 2d)`. */
  predicate ErrorTerm(d0: nat, d: nat, t: nat, k: nat, p: int) {
    && k <= t
    && p == 2 * d * (t + 1) - d0 * (2 * k + 1)
    && (d0 > 0 ==> 2 * d - 2 * d0 <= p < 2 * d)
  }

  lemma ErrorStep(d0: nat, d: nat, t: nat, k: nat, p: int)
    requires d <= d0 && t < d0
    requires ErrorTerm(d0, d, t, k, p)
    ensures ErrorTerm(d0, d, t + 1, if p >= 0 then k + 1 else k, (if p >= 0 then p - 2 * d0 else p) + 2 * d)
  {
    assert 2 * d * (t + 2) == 2 * d * (t + 1) + 2 * d;
    assert d0 * (2 * (k + 1) + 1) == d0 * (2 * k + 1) + 2 * d0;
  }

  /** After `d0` iterations a secondary axis has stepped exactly its delta. */
  lemma FinalCount(d0: nat, d: nat, k: nat, p: int)
    requires d <= d0
    requires ErrorTerm(d0, d, d0, k, p)
    ensures k == d
  {
    if d0 > 0 {
      var u := 2 * d - 2 * k - 1;
      assert p - 2 * d == d0 * u;
    }
  }

  /** One iteration moves the driving coordinate one unit and each
      secondary coordinate by at most one unit, in their directions. */
  predicate Moves(dr: Drive, a: Ijk, b: Ijk) {
    && b.At(dr.a0) == a.At(dr.a0) + dr.s0
    && (b.At(dr.a1) == a.At(dr.a1) || b.At(dr.a1) == a.At(dr.a1) + dr.s1)
    && (b.At(dr.a2) == a.At(dr.a2) || b.At(dr.a2) == a.At(dr.a2) + dr.s2)
  }

  /** After `t` iterations the driving coordinate is `t` from `v0` and the
      secondary coordinates are at most `t` from `v0`. */
  predicate Spread(v0: Ijk, dr: Drive, q: Ijk, t: nat) {
    && q.At(dr.a0) == v0.At(dr.a0) + Off(dr.s0, t)
    && Abs(q.At(dr.a1) - v0.At(dr.a1)) <= t
    && Abs(q.At(dr.a2) - v0.At(dr.a2)) <= t
  }

  /** One iteration keeps the invariant and makes a `Moves` step. */
  lemma StepFacts(v0: Ijk, dr: Drive, cur: Cursor, t: nat, k1: nat, k2: nat)
    requires DriveOk(dr) && t < dr.d0
    requires Placed(v0, dr, cur.c, t, k1, k2)
    requires ErrorTerm(dr.d0, dr.d1, t, k1, cur.p1) && ErrorTerm(dr.d0, dr.d2, t, k2, cur.p2)
    ensures var next := Step(dr, cur);
      && Placed(v0, dr, next.c, t + 1, if cur.p1 >= 0 then k1 + 1 else k1, if cur.p2 >= 0 then k2 + 1 else k2)
      && ErrorTerm(dr.d0, dr.d1, t + 1, if cur.p1 >= 0 then k1 + 1 else k1, next.p1)
      && ErrorTerm(dr.d0, dr.d2, t + 1, if cur.p2 >= 0 then k2 + 1 else k2, next.p2)
      && Moves(dr, cur.c, next.c)
      && Spread(v0, dr, next.c, t + 1)
  {
    ErrorStep(dr.d0, dr.d1, t, k1, cur.p1);
    ErrorStep(dr.d0, dr.d2, t, k2, cur.p2);
  }

  /** The loop invariant carried to the end: after the remaining
      iterations every secondary axis has taken exactly its delta's worth
      of steps, so the last point written is `v0` displaced by the deltas. */
  lemma {:induction false} WalkEnd(v0: Ijk, dr: Drive, cur: Cursor, t: nat, k1: nat, k2: nat)
    requires DriveOk(dr) && t <= dr.d0
    requires Placed(v0, dr, cur.c, t, k1, k2)
    requires ErrorTerm(dr.d0, dr.d1, t, k1, cur.p1) && ErrorTerm(dr.d0, dr.d2, t, k2, cur.p2)
    ensures var w := [cur.c] + Walk(dr, cur, dr.d0 - t);
      Placed(v0, dr, w[|w| - 1], dr.d0, dr.d1, dr.d2)
    decreases dr.d0 - t
  {
    if t == dr.d0 {
      FinalCount(dr.d0, dr.d1, k1, cur.p1);
      FinalCount(dr.d0, dr.d2, k2, cur.p2);
    } else {
      var next := Step(dr, cur);
      var k1' := if cur.p1 >= 0 then k1 + 1 else k1;
      var k2' := if cur.p2 >= 0 then k2 + 1 else k2;
      StepFacts(v0, dr, cur, t, k1, k2);
      WalkEnd(v0, dr, next, t + 1, k1', k2');
      var rest := Walk(dr, next, dr.d0 - (t + 1));
      assert Walk(dr, cur, dr.d0 - t) == [next.c] + rest;
      assert ([next.c] + rest)[|rest|] == ([cur.c] + [next.c] + rest)[|rest| + 1];
    }
  }

  /** Each point of `w` is a `Moves` step from the one before it (the
      first from `prev`), and the `n`-th has spread `t + n + 1`. */
  predicate Steps(v0: Ijk, dr: Drive, prev: Ijk, w: seq<Ijk>, t: nat)
    decreases |w|
  {
    |w| == 0 || (Moves(dr, prev, w[0]) && Spread(v0, dr, w[0], t + 1) && Steps(v0, dr, w[0], w[1..], t + 1))
  }

  /** Every remaining iteration is a `Moves` step that widens the spread
      by one. */
  lemma {:induction false} WalkSteps(v0: Ijk, dr: Drive, cur: Cursor, t: nat, k1: nat, k2: nat)
    requires DriveOk(dr) && t <= dr.d0
    requires Placed(v0, dr, cur.c, t, k1, k2)
    requires ErrorTerm(dr.d0, dr.d1, t, k1, cur.p1) && ErrorTerm(dr.d0, dr.d2, t, k2, cur.p2)
    ensures Steps(v0, dr, cur.c, Walk(dr, cur, dr.d0 - t), t)
    decreases dr.d0 - t
  {
    if t < dr.d0 {
      var next := Step(dr, cur);
      var k1' := if cur.p1 >= 0 then k1 + 1 else k1;
      var k2' := if cur.p2 >= 0 then k2 + 1 else k2;
      StepFacts(v0, dr, cur, t, k1, k2);
      WalkSteps(v0, dr, next, t + 1, k1', k2');
      var rest := Walk(dr, next, dr.d0 - (t + 1));
      var w := Walk(dr, cur, dr.d0 - t);
      assert w == [next.c] + rest;
      assert w[1..] == rest;
    }
  }

  /** `Steps` read point by point. */
  lemma {:induction false} StepsIndexed(v0: Ijk, dr: Drive, prev: Ijk, w: seq<Ijk>, t: nat)
    requires Steps(v0, dr, prev, w, t)
    ensures forall n :: 0 <= n < |w| ==> Moves(dr, ([prev] + w)[n], w[n])
    ensures forall n :: 0 <= n < |w| ==> Spread(v0, dr, w[n], t + n + 1)
    decreases |w|
  {
    if |w| > 0 {
      StepsIndexed(v0, dr, w[0], w[1..], t + 1);
      forall n | 0 < n < |w|
        ensures Moves(dr, ([prev] + w)[n], w[n]) && Spread(v0, dr, w[n], t + n + 1)
      {
        assert w[n] == w[1..][n - 1];
        assert ([prev] + w)[n] == ([w[0]] + w[1..])[n - 1];
      }
    }
  }

  lemma AxesCovered(dr: Drive, b: Axis)
    requires DriveOk(dr)
    ensures b == dr.a0 || b == dr.a1 || b == dr.a2
  {
  }

  lemma SpreadCheb(v0: Ijk, dr: Drive, q: Ijk, t: nat)
    requires DriveOk(dr) && Spread(v0, dr, q, t)
    ensures Cheb(v0, q) == t
  {
    AxesCovered(dr, X);
    AxesCovered(dr, Y);
    AxesCovered(dr, Z);
  }

  /** Points whose spreads are `1, 2, ...` lie at those distances. */
  lemma SpreadLine(v0: Ijk, dr: Drive, w: seq<Ijk>)
    requires DriveOk(dr)
    requires forall n :: 0 <= n < |w| ==> Spread(v0, dr, w[n], n + 1)
    ensures forall n :: 0 <= n < |w| + 1 ==> Cheb(v0, ([v0] + w)[n]) == n
  {
    forall n | 0 < n < |w| + 1
      ensures Cheb(v0, ([v0] + w)[n]) == n
    {
      assert ([v0] + w)[n] == w[n - 1];
      SpreadCheb(v0, dr, w[n - 1], n);
    }
  }

  lemma MovesToward(v0: Ijk, v1: Ijk, dr: Drive, a: Ijk, b: Ijk)
    requires DriveOk(dr) && Describes(dr, v0, v1) && Moves(dr, a, b)
    ensures UnitStepToward(a, b, v0, v1)
  {
    AxesCovered(dr, X);
    AxesCovered(dr, Y);
    AxesCovered(dr, Z);
  }

  lemma EndIsTarget(v0: Ijk, v1: Ijk, dr: Drive, q: Ijk)
    requires DriveOk(dr) && Describes(dr, v0, v1)
    requires Placed(v0, dr, q, dr.d0, dr.d1, dr.d2)
    ensures q == v1
  {
    AxesCovered(dr, X);
    AxesCovered(dr, Y);
    AxesCovered(dr, Z);
    Coordinates(q, v1);
  }

  /** The loop's state before its first iteration. */
  predicate LineStart(v0: Ijk, v1: Ijk, dr: Drive, start: Cursor) {
    dr == ChooseDrive(v0, v1) && start == Cursor(v0, 2 * dr.d1 - dr.d0, 2 * dr.d2 - dr.d0)
  }

  /** Before the first iteration the loop invariants hold with no steps taken. */
  lemma InitialState(v0: Ijk, v1: Ijk, dr: Drive, start: Cursor)
    requires LineStart(v0, v1, dr, start)
    ensures DriveOk(dr) && Describes(dr, v0, v1) && start.c == v0
    ensures ErrorTerm(dr.d0, dr.d1, 0, 0, start.p1) && ErrorTerm(dr.d0, dr.d2, 0, 0, start.p2)
    ensures Placed(v0, dr, v0, 0, 0, 0)
  {
  }

  lemma LineEnd(v0: Ijk, v1: Ijk, dr: Drive, start: Cursor)
    requires LineStart(v0, v1, dr, start)
    ensures var line := [v0] + Walk(dr, start, dr.d0);
      line[|line| - 1] == v1
  {
    var w := Walk(dr, start, dr.d0);
    InitialState(v0, v1, dr, start);
    WalkEnd(v0, dr, start, 0, 0, 0);
    var line := [v0] + w;
    EndIsTarget(v0, v1, dr, line[|line| - 1]);
  }

  lemma LineSpreads(v0: Ijk, v1: Ijk, dr: Drive, start: Cursor)
    requires LineStart(v0, v1, dr, start)
    ensures var w := Walk(dr, start, dr.d0);
      forall n :: 0 <= n < |w| ==> Moves(dr, ([v0] + w)[n], w[n]) && Spread(v0, dr, w[n], n + 1)
  {
    var w := Walk(dr, start, dr.d0);
    InitialState(v0, v1, dr, start);
    WalkSteps(v0, dr, start, 0, 0, 0);
    StepsIndexed(v0, dr, v0, w, 0);
  }

  /** Everything `Line` promises, for the walk from the initial state. */
  lemma LineFacts(v0: Ijk, v1: Ijk, dr: Drive, start: Cursor)
    requires dr == ChooseDrive(v0, v1)
    requires start == Cursor(v0, 2 * dr.d1 - dr.d0, 2 * dr.d2 - dr.d0)
    ensures var line := [v0] + Walk(dr, start, dr.d0);
      && line[|line| - 1] == v1
      && (forall n :: 0 <= n < |line| ==> Cheb(v0, line[n]) == n)
      && (forall n :: 0 <= n < |line| - 1 ==> UnitStepToward(line[n], line[n + 1], v0, v1))
  {
    var w := Walk(dr, start, dr.d0);
    var line := [v0] + w;
    LineEnd(v0, v1, dr, start);
    LineSpreads(v0, v1, dr, start);
    SpreadLine(v0, dr, w);
    forall n | 0 <= n < |line| - 1
      ensures UnitStepToward(line[n], line[n + 1], v0, v1)
    {
      assert line[n] == ([v0] + w)[n] && line[n + 1] == w[n];
      MovesToward(v0, v1, dr, line[n], line[n + 1]);
    }
  }

  // ---------------------------------------------------------------------
  // volume_interpolation
  // ---------------------------------------------------------------------

  /** The number of points of `line` that some row of the table holds. */
  function CountIn(line: seq<Ijk>, table: seq<Ijk>): nat
    decreases |line|
  {
    if |line| == 0 then 0 else (if line[0] in table then 1 else 0) + CountIn(line[1..], table)
  }

  /** The comprehension over the line's points: each point some row holds
      becomes the first such row; points no row holds are skipped. */
  function RowsOnLine(table: seq<Ijk>, line: seq<Ijk>): (rows: seq<int>)
    ensures |rows| == CountIn(line, table)
    ensures forall k :: 0 <= k < |rows| ==>
      0 <= rows[k] < |table| && FirstIndexOf(table, table[rows[k]]) == Some(rows[k] as nat)
    ensures forall k :: 0 <= k < |rows| ==> table[rows[k]] in line
    ensures (forall k :: 0 <= k < |line| ==> line[k] in table) ==>
      |rows| == |line| && forall k :: 0 <= k < |line| ==> table[rows[k]] == line[k]
    decreases |line|
  {
    if |line| == 0 then []
    else
      var rest := RowsOnLine(table, line[1..]);
      var rows := match FirstIndexOf(table, line[0])
        case None => rest
        case Some(p) => [p as int] + rest;
      RowsOnLineStep(table, line, rest, rows);
      rows
  }

  /** One step of `RowsOnLine`: the facts about the rows of the line's tail
      carry over to the rows of the whole line. */
  lemma RowsOnLineStep(table: seq<Ijk>, line: seq<Ijk>, rest: seq<int>, rows: seq<int>)
    requires |line| > 0
    requires |rest| == CountIn(line[1..], table)
    requires forall k :: 0 <= k < |rest| ==>
      0 <= rest[k] < |table| && FirstIndexOf(table, table[rest[k]]) == Some(rest[k] as nat)
    requires forall k :: 0 <= k < |rest| ==> table[rest[k]] in line[1..]
    requires (forall k :: 0 <= k < |line[1..]| ==> line[1..][k] in table) ==>
      |rest| == |line[1..]| && forall k :: 0 <= k < |line[1..]| ==> table[rest[k]] == line[1..][k]
    requires rows == match FirstIndexOf(table, line[0])
      case None => rest
      case Some(p) => [p as int] + rest
    ensures |rows| == CountIn(line, table)
    ensures forall k :: 0 <= k < |rows| ==>
      0 <= rows[k] < |table| && FirstIndexOf(table, table[rows[k]]) == Some(rows[k] as nat)
    ensures forall k :: 0 <= k < |rows| ==> table[rows[k]] in line
    ensures (forall k :: 0 <= k < |line| ==> line[k] in table) ==>
      |rows| == |line| && forall k :: 0 <= k < |line| ==> table[rows[k]] == line[k]
  {
    var first := FirstIndexOf(table, line[0]);
    StepFirstRows(table, rest, rows, first);
    StepMembers(line, rest, rows, first, table);
    if (forall k :: 0 <= k < |line| ==> line[k] in table) {
      StepAllHeld(table, line, rest, rows, first);
    }
  }

  /** Prepending the first row of a point keeps every row a first row. */
  lemma StepFirstRows(table: seq<Ijk>, rest: seq<int>, rows: seq<int>, first: Option<nat>)
    requires forall k :: 0 <= k < |rest| ==>
      0 <= rest[k] < |table| && FirstIndexOf(table, table[rest[k]]) == Some(rest[k] as nat)
    requires first.Some? ==> first.value < |table| && FirstIndexOf(table, table[first.value]) == first
    requires rows == if first.Some? then [first.value as int] + rest else rest
    ensures forall k :: 0 <= k < |rows| ==>
      0 <= rows[k] < |table| && FirstIndexOf(table, table[rows[k]]) == Some(rows[k] as nat)
  {
  }

  /** Prepending the row of the line's first point keeps every row's point
      on the line. */
  lemma StepMembers(line: seq<Ijk>, rest: seq<int>, rows: seq<int>, first: Option<nat>, table: seq<Ijk>)
    requires |line| > 0
    requires forall k :: 0 <= k < |rest| ==> 0 <= rest[k] < |table| && table[rest[k]] in line[1..]
    requires first.Some? ==> first.value < |table| && table[first.value] == line[0]
    requires rows == if first.Some? then [first.value as int] + rest else rest
    ensures forall k :: 0 <= k < |rows| ==> 0 <= rows[k] < |table| && table[rows[k]] in line
  {
    assert forall x :: x in line[1..] ==> x in line;
  }

  /** When every point of the line is held, the rows hold the points in
      order. */
  lemma StepAllHeld(table: seq<Ijk>, line: seq<Ijk>, rest: seq<int>, rows: seq<int>, first: Option<nat>)
    requires |line| > 0
    requires forall k :: 0 <= k < |line| ==> line[k] in table
    requires forall k :: 0 <= k < |rest| ==> 0 <= rest[k] < |table|
    requires (forall k :: 0 <= k < |line[1..]| ==> line[1..][k] in table) ==>
      |rest| == |line[1..]| && forall k :: 0 <= k < |line[1..]| ==> table[rest[k]] == line[1..][k]
    requires first.Some? && first.value < |table| && table[first.value] == line[0]
    requires rows == [first.value as int] + rest
    ensures |rows| == |line| && forall k :: 0 <= k < |line| ==> table[rows[k]] == line[k]
  {
    var tail := line[1..];
    forall k | 0 <= k < |tail|
      ensures tail[k] in table
    {
      assert tail[k] == line[k + 1];
    }
    forall k | 0 <= k < |line|
      ensures table[rows[k]] == line[k]
    {
      if k > 0 {
        assert line[k] == tail[k - 1];
      }
    }
  }

  /** The comprehension works point by point: the rows of two pieces of a
      line are the rows of the first piece followed by those of the second. */
  lemma {:induction false} RowsOnLineAppend(table: seq<Ijk>, a: seq<Ijk>, b: seq<Ijk>)
    ensures RowsOnLine(table, a + b) == RowsOnLine(table, a) + RowsOnLine(table, b)
    decreases |a|
  {
    if |a| == 0 {
      assert a + b == b;
    } else {
      assert (a + b)[0] == a[0];
      assert (a + b)[1..] == a[1..] + b;
      RowsOnLineAppend(table, a[1..], b);
    }
  }

  /** One point gives the first row holding it, or nothing when no row does. */
  lemma RowsOnLinePoint(table: seq<Ijk>, p: Ijk)
    ensures p in table ==> RowsOnLine(table, [p]) == [FirstIndexOf(table, p).value as int]
    ensures p !in table ==> RowsOnLine(table, [p]) == []
  {
    assert [p][1..] == [];
  }

  /** Distinct points give distinct rows. */
  lemma {:induction false} RowsDistinct(table: seq<Ijk>, line: seq<Ijk>)
    requires Distinct(line)
    ensures Distinct(RowsOnLine(table, line))
    decreases |line|
  {
    if |line| > 0 {
      var rest := RowsOnLine(table, line[1..]);
      RowsDistinct(table, line[1..]);
      match FirstIndexOf(table, line[0])
      case None =>
      case Some(p) =>
        var rows := [p as int] + rest;
        forall k | 0 <= k < |rest|
          ensures rest[k] != p as int
        {
          var j :| 0 <= j < |line[1..]| && line[1..][j] == table[rest[k]];
          assert line[j + 1] == table[rest[k]];
        }
        forall i, j | 0 <= i < j < |rows|
          ensures rows[i] != rows[j]
        {
          if i > 0 {
            assert rows[i] == rest[i - 1] && rows[j] == rest[j - 1];
          } else {
            assert rows[j] == rest[j - 1];
          }
        }
    }
  }

  /** The points of a line are pairwise different: point `n` lies `n` away
      from the start. */
  lemma LineDistinct(v0: Ijk, v1: Ijk)
    ensures Distinct(Line(v0, v1))
  {
    var line := Line(v0, v1);
    forall i, j | 0 <= i < j < |line|
      ensures line[i] != line[j]
    {
      assert Cheb(v0, line[i]) == i && Cheb(v0, line[j]) == j;
    }
  }

  const CrossesStructures := ValueError("Path crosses structures")

  /** Both rows lie in the same (existing) structure. */
  predicate SameStructure(ax: BrainAxis, a: int, b: int) {
    StructureFromRow(ax, a).Ok? && StructureFromRow(ax, a) == StructureFromRow(ax, b)
  }

  /** Every consecutive pair of waypoints lies in one structure. */
  predicate Consistent(ax: BrainAxis, path: seq<int>) {
    forall k :: 0 <= k < |path| - 1 ==> SameStructure(ax, path[k], path[k + 1])
  }

  /** One iteration of the loop over waypoint pairs: both rows must lie in
      the same structure; the rows on the line between their voxels, less
      the last, are contributed. */
  function Hop(ax: BrainAxis, a: int, b: int): (r: Result<seq<int>>)
    ensures r.Ok? ==> SameStructure(ax, a, b)
    ensures StructureFromRow(ax, a).Ok? && StructureFromRow(ax, b).Ok? && !SameStructure(ax, a, b)
      ==> r == Err(CrossesStructures)
    ensures SameStructure(ax, a, b) ==> (r.Ok? <==> ArrayAt(ax.voxel, a).Ok? && ArrayAt(ax.voxel, b).Ok?)
    ensures r.Ok? ==>
      && ArrayAt(ax.voxel, a).Ok? && ArrayAt(ax.voxel, b).Ok?
      && r.value == DropLast(RowsOnLine(ax.voxel, Line(ArrayAt(ax.voxel, a).value, ArrayAt(ax.voxel, b).value)))
  {
    var s1 :- StructureFromRow(ax, a);
    var s2 :- StructureFromRow(ax, b);
    if s1 != s2 then Err(CrossesStructures)
    else
      var c1 :- ArrayAt(ax.voxel, a);
      var c2 :- ArrayAt(ax.voxel, b);
      Ok(DropLast(RowsOnLine(ax.voxel, Line(c1, c2))))
  }

  /** The loop over all consecutive waypoint pairs, stopping at the first
      error. */
  function Hops(ax: BrainAxis, path: seq<int>): (r: Result<seq<int>>)
    ensures r.Ok? ==> Consistent(ax, path)
    decreases |path|
  {
    if |path| < 2 then Ok([])
    else
      var head :- Hop(ax, path[0], path[1]);
      var tail :- Hops(ax, path[1..]);
      assert forall k :: 1 <= k < |path| ==> path[k] == path[1..][k - 1];
      Ok(head + tail)
  }

  /** The voxel a row looks up, for a row whose lookup succeeds. */
  function VoxelOf(ax: BrainAxis, row: int): Ijk
    requires ArrayAt(ax.voxel, row).Ok?
  {
    ArrayAt(ax.voxel, row).value
  }

  /** A hop that succeeds looked up both voxels and kept the rows of the
      line between them, less the last. */
  lemma HopValue(ax: BrainAxis, a: int, b: int)
    requires Hop(ax, a, b).Ok?
    ensures ArrayAt(ax.voxel, a).Ok? && ArrayAt(ax.voxel, b).Ok?
    ensures VoxelOf(ax, a) in ax.voxel && VoxelOf(ax, b) in ax.voxel
    ensures Hop(ax, a, b).value == DropLast(RowsOnLine(ax.voxel, Line(VoxelOf(ax, a), VoxelOf(ax, b))))
  {
  }

  /** Dropping the last row of a line whose end some row holds leaves the
      rows of the line without its end point. */
  lemma LineRowsInit(table: seq<Ijk>, c1: Ijk, c2: Ijk)
    requires c2 in table
    ensures var line := Line(c1, c2);
      DropLast(RowsOnLine(table, line)) == RowsOnLine(table, line[..|line| - 1])
  {
    var line := Line(c1, c2);
    var init := line[..|line| - 1];
    assert line == init + [c2];
    RowsOnLineAppend(table, init, [c2]);
    RowsOnLinePoint(table, c2);
  }

  /** The rows of a line less its end: distinct, none holding the end
      voxel, starting at the start voxel, and none exactly when the line is
      a single point. */
  lemma LineRowsFacts(table: seq<Ijk>, c1: Ijk, c2: Ijk)
    requires c1 in table && c2 in table
    ensures var h := DropLast(RowsOnLine(table, Line(c1, c2)));
      && Distinct(h)
      && (forall k :: 0 <= k < |h| ==> 0 <= h[k] < |table| && table[h[k]] != c2)
      && (h == [] <==> c1 == c2)
      && (h != [] ==> table[h[0]] == c1)
  {
    LineRowsInit(table, c1, c2);
    var init := LineInit(c1, c2);
    InitRowsFacts(table, init, c1, c2);
  }

  /** The line less its end: distinct points, none of them the end, starting
      at the start, and empty exactly when the line is a single point. */
  lemma LineInit(c1: Ijk, c2: Ijk) returns (init: seq<Ijk>)
    ensures init == Line(c1, c2)[..|Line(c1, c2)| - 1]
    ensures Distinct(init) && c2 !in init
    ensures init == [] <==> c1 == c2
    ensures init != [] ==> init[0] == c1
  {
    var line := Line(c1, c2);
    var n := |line|;
    init := line[..n - 1];
    LineDistinct(c1, c2);
    assert Distinct(init);
    assert c2 !in init by {
      forall k | 0 <= k < |init|
        ensures init[k] != c2
      {
        assert line[k] != line[n - 1];
      }
    }
    if c1 == c2 {
      assert n == 1;
    }
  }

  /** The rows of distinct points that avoid `c2` and start at `c1`: distinct,
      none holding `c2`, starting at `c1`'s first row. */
  lemma InitRowsFacts(table: seq<Ijk>, init: seq<Ijk>, c1: Ijk, c2: Ijk)
    requires c1 in table
    requires Distinct(init) && c2 !in init
    requires init == [] <==> c1 == c2
    requires init != [] ==> init[0] == c1
    ensures var h := RowsOnLine(table, init);
      && Distinct(h)
      && (forall k :: 0 <= k < |h| ==> 0 <= h[k] < |table| && table[h[k]] != c2)
      && (h == [] <==> c1 == c2)
      && (h != [] ==> table[h[0]] == c1)
  {
    RowsDistinct(table, init);
    if init != [] {
      assert init == [init[0]] + init[1..];
      RowsOnLineAppend(table, [init[0]], init[1..]);
      RowsOnLinePoint(table, init[0]);
    }
  }

  /** What one hop contributes: rows of distinct voxels, none of them the
      second waypoint's voxel, starting at the first waypoint's voxel;
      nothing exactly when both waypoints share a voxel. */
  lemma HopFacts(ax: BrainAxis, a: int, b: int)
    requires Hop(ax, a, b).Ok?
    ensures ArrayAt(ax.voxel, a).Ok? && ArrayAt(ax.voxel, b).Ok?
    ensures var h := Hop(ax, a, b).value;
      && NoAdjacent(h)
      && (forall k :: 0 <= k < |h| ==> 0 <= h[k] < |ax.voxel| && ax.voxel[h[k]] != VoxelOf(ax, b))
      && (h == [] <==> VoxelOf(ax, a) == VoxelOf(ax, b))
      && (h != [] ==> ax.voxel[h[0]] == VoxelOf(ax, a))
  {
    HopValue(ax, a, b);
    LineRowsFacts(ax.voxel, VoxelOf(ax, a), VoxelOf(ax, b));
  }

  /** A list of waypoints with two or more entries hops from its first to
      its second waypoint, then on from the second. */
  lemma HopsCons(ax: BrainAxis, path: seq<int>)
    requires |path| >= 2 && Hops(ax, path).Ok?
    ensures Hop(ax, path[0], path[1]).Ok? && Hops(ax, path[1..]).Ok?
    ensures Hops(ax, path).value == Hop(ax, path[0], path[1]).value + Hops(ax, path[1..]).value
  {
  }

  /** Rows that look up voxels and have no neighbouring duplicates. */
  predicate VoxelRun(ax: BrainAxis, S: seq<int>) {
    && NoAdjacent(S)
    && forall k :: 0 <= k < |S| ==> ArrayAt(ax.voxel, S[k]).Ok?
  }

  /** An in-range row looks up its own voxel. */
  lemma ArrayAtInRange<T>(a: seq<T>, i: int)
    requires 0 <= i < |a|
    ensures ArrayAt(a, i) == Ok(a[i])
  {
  }

  /** One hop from `a` to `b` followed by a run starting at `b`'s voxel is
      a run starting at `a`'s voxel. */
  /** The shape of what one hop from `a` to `b` contributes, as `HopFacts`
      states it. */
  predicate HopShape(ax: BrainAxis, a: int, b: int, head: seq<int>) {
    && ArrayAt(ax.voxel, a).Ok? && ArrayAt(ax.voxel, b).Ok?
    && NoAdjacent(head)
    && (forall k :: 0 <= k < |head| ==> 0 <= head[k] < |ax.voxel| && ax.voxel[head[k]] != VoxelOf(ax, b))
    && (head == [] <==> VoxelOf(ax, a) == VoxelOf(ax, b))
    && (head != [] ==> ax.voxel[head[0]] == VoxelOf(ax, a))
  }

  /** The loop's first hop has the shape of `HopFacts`, and the rest of the
      loop follows it. */
  lemma HopsSplit(ax: BrainAxis, path: seq<int>) returns (head: seq<int>)
    requires |path| >= 2 && Hops(ax, path).Ok?
    ensures Hops(ax, path[1..]).Ok?
    ensures HopShape(ax, path[0], path[1], head)
    ensures Hops(ax, path).value == head + Hops(ax, path[1..]).value
  {
    HopsCons(ax, path);
    HopFacts(ax, path[0], path[1]);
    head := Hop(ax, path[0], path[1]).value;
  }

  lemma JoinHop(ax: BrainAxis, a: int, b: int, head: seq<int>, T: seq<int>)
    requires HopShape(ax, a, b, head)
    requires |T| > 0 && VoxelRun(ax, T) && VoxelOf(ax, T[0]) == VoxelOf(ax, b)
    ensures VoxelRun(ax, head + T) && VoxelOf(ax, (head + T)[0]) == VoxelOf(ax, a)
  {
    var S := head + T;
    if |head| > 0 {
      ArrayAtInRange(ax.voxel, head[0]);
      ArrayAtInRange(ax.voxel, head[|head| - 1]);
      assert head[|head| - 1] != T[0];
    }
    NoAdjacentAppend(head, T);
    forall k | 0 <= k < |S|
      ensures ArrayAt(ax.voxel, S[k]).Ok?
    {
      if k < |head| {
        ArrayAtInRange(ax.voxel, head[k]);
      } else {
        assert S[k] == T[k - |head|];
      }
    }
  }

  lemma AppendLast<T>(a: seq<T>, b: seq<T>, x: T)
    ensures (a + b) + [x] == a + (b + [x])
  {
  }

  /** The hops from waypoint `path[0]` on, closed by the last waypoint,
      have no neighbouring duplicates, look up voxels throughout, and start
      at the first waypoint's voxel. */
  lemma {:induction false} HopsChain(ax: BrainAxis, path: seq<int>)
    requires |path| >= 1 && Hops(ax, path).Ok?
    requires |path| == 1 ==> ArrayAt(ax.voxel, path[0]).Ok?
    ensures ArrayAt(ax.voxel, path[0]).Ok?
    ensures var S := Hops(ax, path).value + [path[|path| - 1]];
      VoxelRun(ax, S) && VoxelOf(ax, S[0]) == VoxelOf(ax, path[0])
    decreases |path|
  {
    if |path| >= 2 {
      var tail := path[1..];
      var head := HopsSplit(ax, path);
      HopsChain(ax, tail);
      var rest := Hops(ax, tail).value;
      var last := path[|path| - 1];
      assert tail[|tail| - 1] == last;
      JoinHop(ax, path[0], path[1], head, rest + [last]);
      AppendLast(head, rest, last);
    }
  }

  /** `volume_interpolation(path, scene)`: every hop stays inside one
      structure, and the result ends with the last waypoint; an empty path
      fails on `path[-1]`. */
  function VolumeInterpolation(ax: BrainAxis, path: seq<int>): (r: Result<seq<int>>)
    ensures |path| == 0 ==> r == Err(IndexError("list index out of range"))
    ensures r.Ok? ==> |r.value| >= 1 && r.value[|r.value| - 1] == path[|path| - 1]
    ensures r.Ok? ==> Consistent(ax, path)
    ensures r.Ok? ==> NoAdjacent(r.value)
  {
    var rows :- Hops(ax, path);
    var last :- ListAt(path, -1);
    assert NoAdjacent(rows + [last]) by {
      if |path| >= 2 {
        HopsChain(ax, path);
      }
    }
    Ok(rows + [last])
  }

  /** A single waypoint is its own interpolation. */
  lemma SingleWaypoint(ax: BrainAxis, row: int)
    ensures VolumeInterpolation(ax, [row]) == Ok([row])
  {
    assert Hops(ax, [row]) == Ok([]);
    Closing(ax, [row]);
    assert [] + [row] == [row];
  }

  /** The last waypoint closes the interpolated path. */
  lemma Closing(ax: BrainAxis, path: seq<int>)
    requires |path| >= 1 && Hops(ax, path).Ok?
    ensures VolumeInterpolation(ax, path) == Ok(Hops(ax, path).value + [path[|path| - 1]])
  {
    assert ListAt(path, -1) == Ok(path[|path| - 1]);
  }

  /** Consecutive pairs sharing a structure put the whole path in the
      structure of its first waypoint. */
  lemma OneStructure(ax: BrainAxis, path: seq<int>)
    requires Consistent(ax, path)
    ensures forall k :: 0 <= k < |path| ==> StructureFromRow(ax, path[k]) == StructureFromRow(ax, path[0])
  {
    var k := 0;
    while k < |path| - 1
      invariant 0 <= k <= |path| - 1 || |path| == 0
      invariant forall j :: 0 <= j <= k && j < |path| ==> StructureFromRow(ax, path[j]) == StructureFromRow(ax, path[0])
    {
      assert SameStructure(ax, path[k], path[k + 1]);
      k := k + 1;
    }
  }

  /** When every waypoint's structure and voxel can be looked up, a path
      fails exactly when some consecutive pair lies in different structures,
      and then with the "Path crosses structures" error. */
  lemma {:induction false} CrossesExactly(ax: BrainAxis, path: seq<int>)
    requires forall k :: 0 <= k < |path| ==> StructureFromRow(ax, path[k]).Ok? && ArrayAt(ax.voxel, path[k]).Ok?
    ensures Hops(ax, path).Err? <==> !Consistent(ax, path)
    ensures Hops(ax, path).Err? ==> Hops(ax, path).error == CrossesStructures
    decreases |path|
  {
    if |path| >= 2 {
      assert forall k :: 1 <= k < |path| ==> path[k] == path[1..][k - 1];
      CrossesExactly(ax, path[1..]);
      if Hop(ax, path[0], path[1]).Ok? && Hops(ax, path[1..]).Err? {
        var k :| 0 <= k < |path[1..]| - 1 && !SameStructure(ax, path[1..][k], path[1..][k + 1]);
        assert !SameStructure(ax, path[k + 1], path[k + 2]);
      }
    }
  }

  /** Each waypoint is the first row holding its voxel. */
  predicate FirstRows(ax: BrainAxis, path: seq<int>) {
    forall k :: 0 <= k < |path| ==> FirstRow(ax, path[k])
  }

  predicate FirstRow(ax: BrainAxis, a: int) {
    0 <= a < |ax.voxel| && FirstIndexOf(ax.voxel, ax.voxel[a]) == Some(a as nat)
  }

  /** The rows of a hop start with its first waypoint, unless the two
      waypoints are the same row, in which case the hop contributes none. */
  lemma HopStart(ax: BrainAxis, a: int, b: int)
    requires FirstRow(ax, a) && FirstRow(ax, b) && Hop(ax, a, b).Ok?
    ensures a == b ==> Hop(ax, a, b).value == []
    ensures a != b ==> |Hop(ax, a, b).value| >= 1 && Hop(ax, a, b).value[0] == a
  {
    if a == b {
      HopToItself(ax, a);
    } else {
      HopBetween(ax, a, b);
    }
  }

  lemma HopToItself(ax: BrainAxis, a: int)
    requires FirstRow(ax, a) && Hop(ax, a, a).Ok?
    ensures Hop(ax, a, a).value == []
  {
    var c := ax.voxel[a];
    assert ArrayAt(ax.voxel, a) == Ok(c);
    var line := Line(c, c);
    assert |line| == 1 && line[0] == c;
    var rows := RowsOnLine(ax.voxel, line);
    assert rows == [a];
    assert Hop(ax, a, a).value == DropLast(rows);
  }

  lemma HopBetween(ax: BrainAxis, a: int, b: int)
    requires FirstRow(ax, a) && FirstRow(ax, b) && Hop(ax, a, b).Ok? && a != b
    ensures |Hop(ax, a, b).value| >= 1 && Hop(ax, a, b).value[0] == a
  {
    var c1 := ax.voxel[a];
    var c2 := ax.voxel[b];
    HopRows(ax, a, b);
    assert c1 != c2;
    var line := Line(c1, c2);
    RowsStart(ax.voxel, line, a);
  }

  /** A successful hop between rows with voxels is the line's rows less the last. */
  lemma HopRows(ax: BrainAxis, a: int, b: int)
    requires 0 <= a < |ax.voxel| && 0 <= b < |ax.voxel| && Hop(ax, a, b).Ok?
    ensures Hop(ax, a, b).value == DropLast(RowsOnLine(ax.voxel, Line(ax.voxel[a], ax.voxel[b])))
  {
    assert ArrayAt(ax.voxel, a) == Ok(ax.voxel[a]) && ArrayAt(ax.voxel, b) == Ok(ax.voxel[b]);
  }

  /** A line of two or more points, from the first row holding its start
      to a point the table holds, yields that row and at least one more. */
  lemma RowsStart(table: seq<Ijk>, line: seq<Ijk>, a: int)
    requires |line| >= 2 && 0 <= a < |table| && line[0] == table[a]
    requires FirstIndexOf(table, table[a]) == Some(a as nat) && line[|line| - 1] in table
    ensures var rows := RowsOnLine(table, line); |rows| >= 2 && rows[0] == a
  {
    CountInLine(line, table);
  }

  /** A line whose two ends the table holds has at least two rows. */
  lemma CountInLine(line: seq<Ijk>, table: seq<Ijk>)
    requires |line| >= 2 && line[0] in table && line[|line| - 1] in table
    ensures CountIn(line, table) >= 2
  {
    CountInLast(line[1..], table);
  }

  lemma {:induction false} CountInLast(line: seq<Ijk>, table: seq<Ijk>)
    requires |line| >= 1 && line[|line| - 1] in table
    ensures CountIn(line, table) >= 1
    decreases |line|
  {
    if line[0] !in table {
      CountInLast(line[1..], table);
    }
  }

  lemma {:induction false} HopsStart(ax: BrainAxis, path: seq<int>)
    requires |path| >= 1 && FirstRows(ax, path) && Hops(ax, path).Ok?
    ensures (Hops(ax, path).value + [path[|path| - 1]])[0] == path[0]
    decreases |path|
  {
    if |path| >= 2 {
      var tail := path[1..];
      assert FirstRow(ax, path[0]) && FirstRow(ax, path[1]);
      var head := Hop(ax, path[0], path[1]).value;
      var rest := Hops(ax, tail).value;
      assert Hops(ax, path).value == head + rest;
      HopStart(ax, path[0], path[1]);
      if head == [] {
        assert FirstRows(ax, tail) by {
          assert forall k :: 0 <= k < |tail| ==> tail[k] == path[k + 1];
        }
        HopsStart(ax, tail);
        assert tail[|tail| - 1] == path[|path| - 1];
      }
    }
  }

  /** When each waypoint is the first row holding its voxel, the
      interpolated path starts with the first waypoint. */
  lemma StartsAtFirstWaypoint(ax: BrainAxis, path: seq<int>)
    requires FirstRows(ax, path)
    requires VolumeInterpolation(ax, path).Ok?
    ensures VolumeInterpolation(ax, path).value[0] == path[0]
  {
    Closing(ax, path);
    HopsStart(ax, path);
  }
}
