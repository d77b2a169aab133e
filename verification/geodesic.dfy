/** Geodesic path post-processing on a cortical surface mesh
    (wbsurfer/geodesic.py): snapping the exact solver's edge points to mesh
    vertices, removing adjacent duplicates, the one-slot solver cache, and
    stitching waypoint rows into a continuous row path.

    The exact geodesic solver is not modelled: its answer for a source and
    a target, and the edge table of the mesh, are given as functions. */
module Geodesic {
  import opened Outcomes
  import opened PySeq
  import opened Scene

  // ---------------------------------------------------------------------
  // Duplicate removal
  // ---------------------------------------------------------------------

  /** The loop of `remove_dupicate_indices_from_path` with `last` the
      most recently kept value: an entry is kept when it differs from it. */
  function Dedup(path: seq<int>, last: int): (r: seq<int>)
    ensures |r| <= |path|
    ensures NoAdjacent(r)
    ensures |r| > 0 ==> r[0] != last
    ensures forall x :: x in r ==> x in path
    ensures |r| > 0 ==> |path| > 0 && r[|r| - 1] == path[|path| - 1]
    ensures |r| == 0 ==> forall k :: 0 <= k < |path| ==> path[k] == last
    decreases |path|
  {
    if |path| == 0 then []
    else if path[0] != last then
      var rest := Dedup(path[1..], path[0]);
      assert forall x :: x in rest ==> x in path[1..];
      [path[0]] + rest
    else
      Dedup(path[1..], last)
  }

  /** `remove_dupicate_indices_from_path(path)`: the sentinel `-1` starts
      as the last kept value. */
  function RemoveDuplicates(path: seq<int>): seq<int> {
    Dedup(path, -1)
  }

  /** An independent description of duplicate removal, read from the back:
      the first entry of every run of equal entries. */
  function Runs(s: seq<int>): seq<int>
    decreases |s|
  {
    if |s| == 0 then []
    else
      var init := s[..|s| - 1];
      Runs(init) + (if |init| > 0 && init[|init| - 1] == s[|s| - 1] then [] else [s[|s| - 1]])
  }

  /** Drop the first entry when it equals `x`. */
  function DropIf(c: seq<int>, x: int): seq<int> {
    if |c| > 0 && c[0] == x then c[1..] else c
  }

  lemma {:induction false} RunsHead(s: seq<int>)
    ensures |s| > 0 <==> |Runs(s)| > 0
    ensures |s| > 0 ==> Runs(s)[0] == s[0]
    decreases |s|
  {
    if |s| > 0 {
      var init := s[..|s| - 1];
      RunsHead(init);
      if |init| > 0 {
        assert init[0] == s[0];
      }
    }
  }

  /** `Runs` read from the front. */
  lemma {:induction false} RunsCons(x: int, t: seq<int>)
    ensures Runs([x] + t) == if |t| > 0 && t[0] == x then Runs(t) else [x] + Runs(t)
    decreases |t|
  {
    var s := [x] + t;
    if |t| == 0 {
      assert s[..0] == [];
    } else {
      var t' := t[..|t| - 1];
      var y := t[|t| - 1];
      assert s[..|s| - 1] == [x] + t';
      RunsCons(x, t');
      if |t'| == 0 {
        assert s == [x, y];
        assert Runs([x]) == [x] by {
          assert [x][..0] == [];
        }
        assert t == [y];
        assert Runs(t) == [y] by {
          assert t[..0] == [];
        }
      } else {
        assert ([x] + t')[|t'|] == t'[|t'| - 1];
        assert t[0] == t'[0];
      }
    }
  }

  /** The loop keeps exactly the first entry of every run, less a first
      run equal to the sentinel. */
  lemma {:induction false} DedupRuns(s: seq<int>, last: int)
    ensures Dedup(s, last) == DropIf(Runs(s), last)
    decreases |s|
  {
    if |s| > 0 {
      var x := s[0];
      var t := s[1..];
      assert s == [x] + t;
      RunsCons(x, t);
      RunsHead(t);
      DedupRuns(t, x);
      DedupRuns(t, last);
      if x != last && |t| > 0 && t[0] == x {
        assert [x] + Runs(t)[1..] == Runs(t);
      }
    }
  }

  /** `RemoveDuplicates` is run compression with a leading `-1` dropped. */
  lemma RemoveDuplicatesRuns(s: seq<int>)
    ensures RemoveDuplicates(s) == DropIf(Runs(s), -1)
  {
    DedupRuns(s, -1);
  }

  /** A path without neighbouring duplicates that does not start with the
      last kept value passes through unchanged. */
  lemma {:induction false} DedupFixed(r: seq<int>, last: int)
    requires NoAdjacent(r) && (|r| > 0 ==> r[0] != last)
    ensures Dedup(r, last) == r
    decreases |r|
  {
    if |r| > 0 {
      assert NoAdjacent(r[1..]) by {
        assert forall k :: 0 <= k < |r| - 1 ==> r[1..][k] == r[k + 1];
      }
      if |r| > 1 {
        assert r[1..][0] == r[1];
      }
      DedupFixed(r[1..], r[0]);
      assert [r[0]] + r[1..] == r;
    }
  }

  /** Removing duplicates twice is removing them once. */
  lemma RemoveDuplicatesIdempotent(s: seq<int>)
    ensures RemoveDuplicates(RemoveDuplicates(s)) == RemoveDuplicates(s)
  {
    DedupFixed(RemoveDuplicates(s), -1);
  }

  /** Because the sentinel is `-1`, leading `-1` entries disappear. */
  lemma LeadingSentinelDropped(s: seq<int>)
    ensures RemoveDuplicates([-1] + s) == RemoveDuplicates(s)
  {
    assert ([-1] + s)[1..] == s;
  }

  /** Only neighbouring duplicates go: a value may come back later. */
  lemma RepeatsKept()
    ensures RemoveDuplicates([1, 2, 2, 1]) == [1, 2, 1]
  {
    assert [1, 2, 2, 1][1..] == [2, 2, 1];
    assert [2, 2, 1][1..] == [2, 1];
    assert [2, 1][1..] == [1];
    assert [1][1..] == [];
  }

  // ---------------------------------------------------------------------
  // Snapping edge points to vertices
  // ---------------------------------------------------------------------

  /** A point of an exact geodesic path: a mesh vertex (`index` is the
      vertex) or a point of edge `index` at `proportion` of the way from
      the edge's left vertex to its right vertex. */
  datatype EdgePoint = EdgePoint(isVertex: bool, index: int, proportion: real)

  datatype Edge = Edge(left: int, right: int)

  /** The vertex nearest to an edge point: the vertex itself, or the edge
      end it is closer to, the left end on a tie. */
  function Snap(p: EdgePoint, e: Edge): (v: int)
    ensures p.isVertex ==> v == p.index
    ensures !p.isVertex && p.proportion < 1.0 - p.proportion ==> v == e.left
    ensures !p.isVertex && p.proportion > 1.0 - p.proportion ==> v == e.right
    ensures !p.isVertex && p.proportion == 1.0 - p.proportion ==> v == e.left
  {
    if p.isVertex then p.index
    else if p.proportion <= 0.5 then e.left
    else e.right
  }

  /** Every point of the path snapped to its nearest vertex. */
  function Nearest(path: seq<EdgePoint>, edgeOf: int -> Edge): (r: seq<int>)
    ensures |r| == |path|
    ensures forall k :: 0 <= k < |path| ==> r[k] == Snap(path[k], edgeOf(path[k].index))
  {
    seq(|path|, k requires 0 <= k < |path| => Snap(path[k], edgeOf(path[k].index)))
  }

  /** `as_nearest_index(path, remove_duplicates)`, with `edgeOf` standing
      for the mesh's edge table (`bmodel.Edge`): the snapped vertices, or,
      with duplicate removal, the first vertex of every run of equal
      snapped vertices (less a leading `-1`). */
  function AsNearestIndex(path: seq<EdgePoint>, edgeOf: int -> Edge, removeDuplicates: bool): (r: seq<int>)
    ensures !removeDuplicates ==> |r| == |path| && forall k :: 0 <= k < |path| ==> r[k] == Snap(path[k], edgeOf(path[k].index))
    ensures removeDuplicates ==> NoAdjacent(r) && |r| <= |path|
    ensures removeDuplicates ==> r == DropIf(Runs(Nearest(path, edgeOf)), -1)
  {
    var nearest := Nearest(path, edgeOf);
    RemoveDuplicatesRuns(nearest);
    if removeDuplicates then RemoveDuplicates(nearest) else nearest
  }

  // ---------------------------------------------------------------------
  // The solver and its one-slot cache
  // ---------------------------------------------------------------------

  /** The exact solver on one hemisphere's mesh: `trace(source, target)` is
      `FindSourceVertex(target)` after running from `source` (edge points
      from the target back to the source), `edgeOf` the edge table. */
  datatype Solver = Solver(trace: (int, int) -> seq<EdgePoint>, edgeOf: int -> Edge)

  /** The solver state a `GeodesicPath` keeps: the source it last ran from,
      if any, and how many times it has run. */
  datatype Cache = Cache(current: Option<int>, executions: nat)

  const Fresh := Cache(None, 0)

  /** `update_model(source)`: the solver runs again only for a new source. */
  function UpdateModel(c: Cache, source: int): (r: Cache)
    ensures r.current == Some(source)
    ensures c.current == Some(source) ==> r == c
    ensures c.current != Some(source) ==> r.executions == c.executions + 1
  {
    if c.current != Some(source) then Cache(Some(source), c.executions + 1) else c
  }

  /** The cache after asking for paths from each source in turn. */
  function Session(c: Cache, sources: seq<int>): Cache
    decreases |sources|
  {
    if |sources| == 0 then c else Session(UpdateModel(c, sources[0]), sources[1..])
  }

  /** The sources the solver has to run from, given the one it holds. */
  function Changes(current: Option<int>, sources: seq<int>): seq<int> {
    match current
    case Some(x) => Dedup(sources, x)
    case None => if |sources| == 0 then [] else [sources[0]] + Dedup(sources[1..], sources[0])
  }

  /** The one-slot cache runs the solver once per run of equal
      consecutive sources, and ends holding the last source. */
  lemma {:induction false} SessionExecutions(c: Cache, sources: seq<int>)
    ensures Session(c, sources).executions == c.executions + |Changes(c.current, sources)|
    ensures |sources| > 0 ==> Session(c, sources).current == Some(sources[|sources| - 1])
    ensures |sources| == 0 ==> Session(c, sources) == c
    decreases |sources|
  {
    if |sources| > 0 {
      var c' := UpdateModel(c, sources[0]);
      SessionExecutions(c', sources[1..]);
    }
  }

  /** `path(source, target)`: the solver's trace, reversed to run from the
      source to the target, with the cache updated for the source. */
  function SolverPath(s: Solver, c: Cache, source: int, target: int): (r: (Cache, seq<EdgePoint>))
    ensures r.0 == UpdateModel(c, source)
    ensures |r.1| == |s.trace(source, target)|
    ensures forall k :: 0 <= k < |r.1| ==> r.1[k] == s.trace(source, target)[|r.1| - 1 - k]
  {
    (UpdateModel(c, source), Reverse(s.trace(source, target)))
  }

  // ---------------------------------------------------------------------
  // Stitching waypoints
  // ---------------------------------------------------------------------

  const CrossesHemispheres := ValueError("Path crosses hemispheres")

  /** Both rows lie in the same cortical hemisphere. */
  predicate SameHemisphere(ax: BrainAxis, a: int, b: int) {
    HemisphereFromRow(ax, a).Ok? && HemisphereFromRow(ax, a) == HemisphereFromRow(ax, b)
  }

  /** Every consecutive pair of waypoints lies in one hemisphere. */
  predicate OneSide(ax: BrainAxis, path: seq<int>) {
    forall k :: 0 <= k < |path| - 1 ==> SameHemisphere(ax, path[k], path[k + 1])
  }

  /** The vertices of all hops, and the solver state afterwards. */
  datatype Stitched = Stitched(vertices: seq<int>, cache: Cache)

  /** One hop: the hemisphere check, then the snapped, deduplicated path
      between the two rows' vertices. */
  function Hop(ax: BrainAxis, s: Solver, c: Cache, a: int, b: int): (r: Result<Stitched>)
    ensures r.Ok? ==> SameHemisphere(ax, a, b)
    ensures HemisphereFromRow(ax, a).Ok? && HemisphereFromRow(ax, b).Ok? && !SameHemisphere(ax, a, b)
      ==> r == Err(CrossesHemispheres)
    ensures SameHemisphere(ax, a, b) ==> (r.Ok? <==> ArrayAt(ax.vertex, a).Ok? && ArrayAt(ax.vertex, b).Ok?)
    ensures r.Ok? ==> r.value.cache == UpdateModel(c, ArrayAt(ax.vertex, a).value)
    ensures r.Ok? ==>
      && ArrayAt(ax.vertex, a).Ok? && ArrayAt(ax.vertex, b).Ok?
      && r.value.vertices == AsNearestIndex(SolverPath(s, c, VertexOf(ax, a), VertexOf(ax, b)).1, s.edgeOf, true)
  {
    var h1 :- HemisphereFromRow(ax, a);
    var h2 :- HemisphereFromRow(ax, b);
    if h1 != h2 then Err(CrossesHemispheres)
    else
      var v1 :- ArrayAt(ax.vertex, a);
      var v2 :- ArrayAt(ax.vertex, b);
      var (c', points) := SolverPath(s, c, v1, v2);
      Ok(Stitched(AsNearestIndex(points, s.edgeOf, true), c'))
  }

  /** The loop over all consecutive waypoint pairs, concatenating the
      hops' vertices and stopping at the first error. */
  function Hops(ax: BrainAxis, s: Solver, c: Cache, path: seq<int>): (r: Result<Stitched>)
    ensures r.Ok? ==> OneSide(ax, path)
    decreases |path|
  {
    if |path| < 2 then Ok(Stitched([], c))
    else
      var head :- Hop(ax, s, c, path[0], path[1]);
      var tail :- Hops(ax, s, head.cache, path[1..]);
      assert forall k :: 1 <= k < |path| ==> path[k] == path[1..][k - 1];
      Ok(Stitched(head.vertices + tail.vertices, tail.cache))
  }

  /** The source vertex of every hop: the vertex of each waypoint but the
      last. */
  function HopSources(ax: BrainAxis, path: seq<int>): (r: seq<int>)
    requires forall k :: 0 <= k < |path| - 1 ==> ArrayAt(ax.vertex, path[k]).Ok?
    ensures |r| == if |path| >= 1 then |path| - 1 else 0
    ensures forall k :: 0 <= k < |r| ==> r[k] == ArrayAt(ax.vertex, path[k]).value
    decreases |path|
  {
    if |path| < 2 then []
    else
      assert forall k :: 0 <= k < |path[1..]| - 1 ==> path[1..][k] == path[k + 1];
      [ArrayAt(ax.vertex, path[0]).value] + HopSources(ax, path[1..])
  }

  /** The hops ask the solver for paths from each hop's source in turn:
      the cache they leave is that of a session over those sources, so the
      solver runs once per run of equal consecutive sources. */
  lemma {:induction false} HopsSession(ax: BrainAxis, s: Solver, c: Cache, path: seq<int>)
    requires Hops(ax, s, c, path).Ok?
    ensures forall k :: 0 <= k < |path| - 1 ==> ArrayAt(ax.vertex, path[k]).Ok?
    ensures Hops(ax, s, c, path).value.cache == Session(c, HopSources(ax, path))
    ensures Hops(ax, s, c, path).value.cache.executions == c.executions + |Changes(c.current, HopSources(ax, path))|
    decreases |path|
  {
    if |path| >= 2 {
      var head := Hop(ax, s, c, path[0], path[1]).value;
      HopsSession(ax, s, head.cache, path[1..]);
      forall k | 0 <= k < |path| - 1
        ensures ArrayAt(ax.vertex, path[k]).Ok?
      {
        if k > 0 {
          assert path[k] == path[1..][k - 1];
        }
      }
      var src := HopSources(ax, path);
      assert src[1..] == HopSources(ax, path[1..]);
    }
    SessionExecutions(c, HopSources(ax, path));
  }

  /** `[int(np.where(vertex_table == p)[0][0]) for p in vertices]`. */
  function RowsOf(table: seq<int>, vertices: seq<int>): (r: Result<seq<int>>)
    ensures r.Ok? <==> forall k :: 0 <= k < |vertices| ==> vertices[k] in table
    ensures r.Ok? ==> |r.value| == |vertices|
    ensures r.Ok? ==> forall k :: 0 <= k < |vertices| ==> WhereFirst(table, vertices[k]).Ok? && WhereFirst(table, vertices[k]).value == r.value[k]
    ensures r.Err? ==> r.error == OutOfBounds(0, 0)
    decreases |vertices|
  {
    if |vertices| == 0 then Ok([])
    else
      var p :- WhereFirst(table, vertices[0]);
      var ps :- RowsOf(table, vertices[1..]);
      assert forall k :: 1 <= k < |vertices| ==> vertices[k] == vertices[1..][k - 1];
      Ok([p as int] + ps)
  }

  /** `get_continuous_path(path, scene)` with the hemisphere's solver: all
      hops in one hemisphere, duplicates removed once over the whole
      concatenation, and each vertex mapped to the first row of the whole
      vertex table that holds it. */
  function ContinuousPath(ax: BrainAxis, s: Solver, path: seq<int>): (r: Result<seq<int>>)
    ensures |path| < 2 ==> r == Ok([])
    ensures r.Ok? ==> OneSide(ax, path)
    ensures r.Ok? ==> NoAdjacent(r.value)
    ensures r.Ok? ==> forall k :: 0 <= k < |r.value| ==>
      0 <= r.value[k] < |ax.vertex| && forall j :: 0 <= j < r.value[k] ==> ax.vertex[j] != ax.vertex[r.value[k]]
    ensures r.Ok? ==> Hops(ax, s, Fresh, path).Ok?
    ensures r.Ok? ==>
      var d := RemoveDuplicates(Hops(ax, s, Fresh, path).value.vertices);
      && |r.value| == |d|
      && forall k :: 0 <= k < |d| ==> ax.vertex[r.value[k]] == d[k]
  {
    var st :- Hops(ax, s, Fresh, path);
    var vertices := RemoveDuplicates(st.vertices);
    var rows :- RowsOf(ax.vertex, vertices);
    FirstRowsDistinct(ax.vertex, vertices, rows);
    Ok(rows)
  }

  /** First-match rows of a path without neighbouring duplicates have no
      neighbouring duplicates either. */
  lemma FirstRowsDistinct(table: seq<int>, vertices: seq<int>, rows: seq<int>)
    requires NoAdjacent(vertices) && |rows| == |vertices|
    requires forall k :: 0 <= k < |vertices| ==> WhereFirst(table, vertices[k]).Ok? && WhereFirst(table, vertices[k]).value == rows[k]
    ensures NoAdjacent(rows)
    ensures forall k :: 0 <= k < |rows| ==>
      0 <= rows[k] < |table| && forall j :: 0 <= j < rows[k] ==> table[j] != table[rows[k]]
  {
    forall k | 0 <= k < |rows| - 1
      ensures rows[k] != rows[k + 1]
    {
      assert table[rows[k]] == vertices[k];
      assert table[rows[k + 1]] == vertices[k + 1];
    }
    forall k | 0 <= k < |rows|
      ensures 0 <= rows[k] < |table| && forall j :: 0 <= j < rows[k] ==> table[j] != table[rows[k]]
    {
      assert WhereFirst(table, vertices[k]).Ok?;
    }
  }

  /** A single waypoint, or none, gives an empty path. */
  lemma ShortPathEmpty(ax: BrainAxis, s: Solver, row: int)
    ensures ContinuousPath(ax, s, [row]) == Ok([])
  {
  }

  /** Hemispheres that agree pairwise put the whole path in the first
      waypoint's hemisphere. */
  lemma OneHemisphere(ax: BrainAxis, path: seq<int>)
    requires OneSide(ax, path)
    ensures forall k :: 0 <= k < |path| ==> HemisphereFromRow(ax, path[k]) == HemisphereFromRow(ax, path[0])
  {
    var k := 0;
    while k < |path| - 1
      invariant 0 <= k <= |path| - 1 || |path| == 0
      invariant forall j :: 0 <= j <= k && j < |path| ==> HemisphereFromRow(ax, path[j]) == HemisphereFromRow(ax, path[0])
    {
      assert SameHemisphere(ax, path[k], path[k + 1]);
      k := k + 1;
    }
  }

  /** When every waypoint's hemisphere and vertex can be looked up, the
      hops fail exactly when some consecutive pair lies in different
      hemispheres, and then with the "Path crosses hemispheres" error. */
  lemma {:induction false} CrossesExactly(ax: BrainAxis, s: Solver, c: Cache, path: seq<int>)
    requires forall k :: 0 <= k < |path| ==> HemisphereFromRow(ax, path[k]).Ok? && ArrayAt(ax.vertex, path[k]).Ok?
    ensures Hops(ax, s, c, path).Err? <==> !OneSide(ax, path)
    ensures Hops(ax, s, c, path).Err? ==> Hops(ax, s, c, path).error == CrossesHemispheres
    decreases |path|
  {
    if |path| >= 2 {
      assert forall k :: 1 <= k < |path| ==> path[k] == path[1..][k - 1];
      var head := Hop(ax, s, c, path[0], path[1]);
      if head.Ok? {
        CrossesExactly(ax, s, head.value.cache, path[1..]);
        if Hops(ax, s, head.value.cache, path[1..]).Err? {
          var k :| 0 <= k < |path[1..]| - 1 && !SameHemisphere(ax, path[1..][k], path[1..][k + 1]);
          assert !SameHemisphere(ax, path[k + 1], path[k + 2]);
        }
      }
    }
  }

  // ---------------------------------------------------------------------
  // Endpoints
  // ---------------------------------------------------------------------

  /** The solver's trace for any source and target runs from the target
      vertex back to the source vertex. */
  ghost predicate ExactEnds(s: Solver) {
    forall a, b :: TraceEnds(s.trace(a, b), a, b)
  }

  predicate TraceEnds(t: seq<EdgePoint>, a: int, b: int) {
    && |t| > 0
    && t[0].isVertex && t[0].index == b
    && t[|t| - 1].isVertex && t[|t| - 1].index == a
  }

  /** The vertex of a waypoint row (assumed looked up). */
  function VertexOf(ax: BrainAxis, row: int): int
    requires ArrayAt(ax.vertex, row).Ok?
  {
    ArrayAt(ax.vertex, row).value
  }

  /** A kept first entry stays first. */
  lemma DedupFirst(path: seq<int>, last: int)
    requires |path| > 0 && path[0] != last
    ensures |Dedup(path, last)| > 0 && Dedup(path, last)[0] == path[0]
  {
  }

  /** One hop's vertices run from the first row's vertex to the second's. */
  lemma HopEnds(ax: BrainAxis, s: Solver, c: Cache, a: int, b: int)
    requires Hop(ax, s, c, a, b).Ok? && HasVertex(ax, a) && HasVertex(ax, b)
    requires TraceEnds(s.trace(VertexOf(ax, a), VertexOf(ax, b)), VertexOf(ax, a), VertexOf(ax, b))
    ensures var vs := Hop(ax, s, c, a, b).value.vertices;
      |vs| > 0 && vs[0] == VertexOf(ax, a) && vs[|vs| - 1] == VertexOf(ax, b)
  {
    var v1 := VertexOf(ax, a);
    var v2 := VertexOf(ax, b);
    var points := SolverPath(s, c, v1, v2).1;
    var nearest := Nearest(points, s.edgeOf);
    assert nearest[0] == v1 && nearest[|nearest| - 1] == v2;
    DedupFirst(nearest, -1);
    assert Hop(ax, s, c, a, b).value.vertices == RemoveDuplicates(nearest);
  }

  /** The loop over pairs, one step unrolled. */
  lemma HopsUnfold(ax: BrainAxis, s: Solver, c: Cache, path: seq<int>)
    requires |path| >= 2 && Hops(ax, s, c, path).Ok?
    ensures Hop(ax, s, c, path[0], path[1]).Ok?
    ensures var head := Hop(ax, s, c, path[0], path[1]).value;
      && Hops(ax, s, head.cache, path[1..]).Ok?
      && Hops(ax, s, c, path).value.vertices == head.vertices + Hops(ax, s, head.cache, path[1..]).value.vertices
  {
  }

  /** The row has a surface vertex. */
  predicate HasVertex(ax: BrainAxis, row: int) {
    ArrayAt(ax.vertex, row).Ok? && ArrayAt(ax.vertex, row).value != -1
  }

  /** Every waypoint has a vertex and the solver's trace for every hop
      runs between the two waypoints' vertices. */
  predicate Traced(ax: BrainAxis, s: Solver, path: seq<int>)
    decreases |path|
  {
    |path| >= 1 && HasVertex(ax, path[0]) &&
    (|path| >= 2 ==>
      HasVertex(ax, path[1]) &&
      TraceEnds(s.trace(VertexOf(ax, path[0]), VertexOf(ax, path[1])), VertexOf(ax, path[0]), VertexOf(ax, path[1])) &&
      Traced(ax, s, path[1..]))
  }

  lemma {:induction false} ExactTraced(ax: BrainAxis, s: Solver, path: seq<int>)
    requires ExactEnds(s) && |path| >= 1
    requires forall k :: 0 <= k < |path| ==> HasVertex(ax, path[k])
    ensures Traced(ax, s, path)
    decreases |path|
  {
    if |path| >= 2 {
      var v1 := VertexOf(ax, path[0]);
      var v2 := VertexOf(ax, path[1]);
      assert TraceEnds(s.trace(v1, v2), v1, v2);
      assert forall k :: 0 <= k < |path[1..]| ==> path[1..][k] == path[k + 1];
      ExactTraced(ax, s, path[1..]);
    }
  }

  /** All hops' vertices start at the first waypoint's vertex. */
  lemma HopsFirst(ax: BrainAxis, s: Solver, c: Cache, path: seq<int>)
    requires |path| >= 2 && Hops(ax, s, c, path).Ok? && Traced(ax, s, path)
    ensures var vs := Hops(ax, s, c, path).value.vertices;
      |vs| > 0 && vs[0] == VertexOf(ax, path[0])
  {
    HopsUnfold(ax, s, c, path);
    HopEnds(ax, s, c, path[0], path[1]);
  }

  /** A single hop's vertices end at the second waypoint's vertex. */
  lemma HopsLastPair(ax: BrainAxis, s: Solver, c: Cache, path: seq<int>)
    requires |path| == 2 && Hops(ax, s, c, path).Ok? && Traced(ax, s, path)
    ensures var vs := Hops(ax, s, c, path).value.vertices;
      |vs| > 0 && vs[|vs| - 1] == VertexOf(ax, path[1])
  {
    HopsUnfold(ax, s, c, path);
    HopEnds(ax, s, c, path[0], path[1]);
    var head := Hop(ax, s, c, path[0], path[1]).value;
    assert Hops(ax, s, head.cache, path[1..]).value.vertices == [];
    assert Hops(ax, s, c, path).value.vertices == head.vertices;
  }

  lemma LastOfAppend(a: seq<int>, b: seq<int>)
    requires |b| > 0
    ensures (a + b)[|a + b| - 1] == b[|b| - 1]
  {
  }

  /** All hops' vertices end at the last waypoint's vertex. */
  lemma {:induction false} HopsLast(ax: BrainAxis, s: Solver, c: Cache, path: seq<int>)
    requires |path| >= 2 && Hops(ax, s, c, path).Ok? && Traced(ax, s, path)
    requires HasVertex(ax, path[|path| - 1])
    ensures var vs := Hops(ax, s, c, path).value.vertices;
      |vs| > 0 && vs[|vs| - 1] == VertexOf(ax, path[|path| - 1])
    decreases |path|
  {
    if |path| == 2 {
      HopsLastPair(ax, s, c, path);
    } else {
      HopsUnfold(ax, s, c, path);
      var head := Hop(ax, s, c, path[0], path[1]).value;
      var tail := path[1..];
      assert tail[|tail| - 1] == path[|path| - 1];
      HopsLast(ax, s, head.cache, tail);
      LastOfAppend(head.vertices, Hops(ax, s, head.cache, tail).value.vertices);
    }
  }

  /** `get_continuous_path` in three stages. */
  lemma ContinuousUnfold(ax: BrainAxis, s: Solver, path: seq<int>)
    requires ContinuousPath(ax, s, path).Ok?
    ensures Hops(ax, s, Fresh, path).Ok?
    ensures var d := RemoveDuplicates(Hops(ax, s, Fresh, path).value.vertices);
      RowsOf(ax.vertex, d).Ok? && ContinuousPath(ax, s, path).value == RowsOf(ax.vertex, d).value
  {
  }

  /** With a solver whose traces run between the waypoints' vertices, and
      waypoints at the first rows holding their vertices, the continuous
      path starts at the first waypoint and ends
      at the last one. */
  lemma ContinuousEnds(ax: BrainAxis, s: Solver, path: seq<int>)
    requires |path| >= 2 && ContinuousPath(ax, s, path).Ok?
    requires Traced(ax, s, path) && HasVertex(ax, path[|path| - 1])
    requires WhereFirst(ax.vertex, VertexOf(ax, path[0])).Ok?
    requires WhereFirst(ax.vertex, VertexOf(ax, path[0])).value == path[0]
    requires WhereFirst(ax.vertex, VertexOf(ax, path[|path| - 1])).Ok?
    requires WhereFirst(ax.vertex, VertexOf(ax, path[|path| - 1])).value == path[|path| - 1]
    ensures var r := ContinuousPath(ax, s, path).value;
      |r| > 0 && r[0] == path[0] && r[|r| - 1] == path[|path| - 1]
  {
    ContinuousUnfold(ax, s, path);
    var vs := Hops(ax, s, Fresh, path).value.vertices;
    HopsFirst(ax, s, Fresh, path);
    HopsLast(ax, s, Fresh, path);
    var d := RemoveDuplicates(vs);
    assert HasVertex(ax, path[0]);
    DedupFirst(vs, -1);
    var rows := RowsOf(ax.vertex, d).value;
    assert d[0] == VertexOf(ax, path[0]);
    assert d[|d| - 1] == VertexOf(ax, path[|path| - 1]);
  }
}
