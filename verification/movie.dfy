/** The path logic of `generate_movie` and the frame numbering of
    `process_frames` (wbsurfer/movie.py): from the command-line row (or
    vertex, or border-file) arguments to the continuous row path, and from
    that path to the numbered frame files the movie is assembled from.

    The scene and CIFTI file are given as the brain-model axis, the
    hemisphere's geodesic solver as a `Solver`, and a border file as the
    document parsed from the path in the first argument. */
module Movie {
  import opened Outcomes
  import opened PyStr
  import opened PySeq
  import opened Scene
  import opened Geodesic
  import opened Volume
  import opened Border

  // ---------------------------------------------------------------------
  // Path modifiers
  // ---------------------------------------------------------------------

  /** `r` is `path` with the first waypoint appended when `closed`, and
      then with its own mirror image appended when `reverse`. */
  predicate Modified(path: seq<int>, closed: bool, reverse: bool, r: seq<int>) {
    var m := |path| + (if closed then 1 else 0);
    && |r| == (if reverse then 2 * m else m)
    && r[..|path|] == path
    && (closed ==> |path| > 0 && r[|path|] == path[0])
    && (reverse ==> forall k :: m <= k < |r| ==> r[k] == r[2 * m - 1 - k])
  }

  /** `if closed: path.append(path[0])`, then `if reverse: path += path[::-1]`;
      both apply when both are set. */
  function ApplyModifiers(path: seq<int>, closed: bool, reverse: bool): (r: Result<seq<int>>)
    ensures r.Err? <==> closed && |path| == 0
    ensures r.Err? ==> r.error == IndexError("list index out of range")
    ensures r.Ok? ==> Modified(path, closed, reverse, r.value)
  {
    var p :- if closed then (var first :- ListAt(path, 0); Ok(path + [first])) else Ok(path);
    assert p[..|path|] == path;
    Ok(if reverse then p + Reverse(p) else p)
  }

  /** `Modified` pins the result down completely. */
  lemma ModifiedDetermines(path: seq<int>, closed: bool, reverse: bool, r1: seq<int>, r2: seq<int>)
    requires Modified(path, closed, reverse, r1) && Modified(path, closed, reverse, r2)
    ensures r1 == r2
  {
    var m := |path| + (if closed then 1 else 0);
    forall k | 0 <= k < m
      ensures r1[k] == r2[k]
    {
      if k < |path| {
        assert r1[k] == r1[..|path|][k] && r2[k] == r2[..|path|][k];
      }
    }
    if reverse {
      forall k | m <= k < |r1|
        ensures r1[k] == r2[k]
      {
        assert r1[k] == r1[2 * m - 1 - k] && r2[k] == r2[2 * m - 1 - k];
      }
    }
  }

  /** A closed loop without reversal returns to its start. */
  lemma ClosedReturns(path: seq<int>)
    requires |path| > 0
    ensures var r := ApplyModifiers(path, true, false);
      r.Ok? && |r.value| == |path| + 1 && r.value[|r.value| - 1] == r.value[0] == path[0]
  {
    var r := ApplyModifiers(path, true, false).value;
    assert r[0] == r[..|path|][0];
  }

  /** Closing and reversing together give a palindrome of twice the closed
      length that starts and ends at the first waypoint. */
  lemma ClosedAndReversed(path: seq<int>)
    requires |path| > 0
    ensures var r := ApplyModifiers(path, true, true);
      && r.Ok? && |r.value| == 2 * |path| + 2
      && r.value[0] == path[0] && r.value[|r.value| - 1] == path[0]
      && forall k :: 0 <= k < |r.value| ==> r.value[k] == r.value[|r.value| - 1 - k]
  {
    var r := ApplyModifiers(path, true, true).value;
    var m := |path| + 1;
    assert r[0] == r[..|path|][0];
    forall k | 0 <= k < |r|
      ensures r[k] == r[|r| - 1 - k]
    {
      if k < m {
        assert r[|r| - 1 - k] == r[2 * m - 1 - (|r| - 1 - k)];
      }
    }
  }

  // ---------------------------------------------------------------------
  // Vertex mode
  // ---------------------------------------------------------------------

  const PopEmpty := IndexError("pop from empty list")
  const VertexOutOfBounds := ValueError("Vertex indices are out of bounds.")

  /** Comparing the vertex indices with the stop of a structure slice that
      has none (the last structure of the axis). */
  const OpenStop := TypeError("'<' not supported between instances of 'int' and 'NoneType'")

  /** The first structure, in iteration order, whose full name contains the
      surface name. */
  function SurfaceSpan(spans: seq<Span>, surface: string): (r: Option<nat>)
    ensures r.Some? ==> r.value < |spans| && Contains(spans[r.value].name, surface)
    ensures r.Some? ==> forall i :: 0 <= i < r.value ==> !Contains(spans[i].name, surface)
    ensures r.None? <==> forall i :: 0 <= i < |spans| ==> !Contains(spans[i].name, surface)
    decreases |spans|
  {
    if |spans| == 0 then None
    else if Contains(spans[0].name, surface) then Some(0)
    else
      var rest := SurfaceSpan(spans[1..], surface);
      assert forall i :: 1 <= i < |spans| ==> spans[i] == spans[1..][i - 1];
      match rest
      case None => None
      case Some(j) => Some(j + 1)
  }

  /** `start <= v < stop` for a slice that has a stop. */
  predicate InBounds(sp: Span, v: int) {
    sp.stop.Some? && sp.start <= v < sp.stop.value
  }

  /** The vertex array of the structure's own sub-axis. */
  function SpanVertices(ax: BrainAxis, sp: Span): seq<int> {
    Slice(ax.vertex, sp.start, sp.stop)
  }

  /** The bounds check: an open stop fails the comparison itself (unless
      there is nothing to compare), otherwise every index must lie in the
      slice. */
  function CheckBounds(sp: Span, vs: seq<int>): (r: Result<seq<int>>)
    ensures r.Ok? <==> forall k :: 0 <= k < |vs| ==> InBounds(sp, vs[k])
    ensures r.Ok? ==> r.value == vs
    ensures r.Err? && sp.stop.None? ==> r.error == OpenStop
    ensures r.Err? && sp.stop.Some? ==> r.error == VertexOutOfBounds
  {
    if |vs| == 0 then Ok(vs)
    else if sp.stop.None? then
      assert !InBounds(sp, vs[0]);
      Err(OpenStop)
    else if forall k :: 0 <= k < |vs| ==> sp.start <= vs[k] < sp.stop.value then Ok(vs)
    else Err(VertexOutOfBounds)
  }

  /** `np.searchsorted(structure.vertex, path)`: each index's insertion
      point in the structure's own vertex array. On a sorted array that is
      the leftmost position keeping the order: everything before it is
      smaller than the index, nothing from it on is. */
  function SearchSorted(a: seq<int>, vs: seq<int>): (rows: seq<int>)
    ensures |rows| == |vs|
    ensures forall k :: 0 <= k < |vs| ==> 0 <= rows[k] <= |a|
    ensures Sorted(a) ==> forall k :: 0 <= k < |vs| ==>
      && (forall i :: 0 <= i < rows[k] ==> a[i] < vs[k])
      && (forall i :: rows[k] <= i < |a| ==> vs[k] <= a[i])
  {
    var rows := seq(|vs|, k requires 0 <= k < |vs| => CountBelow(a, vs[k]));
    assert Sorted(a) ==> forall k :: 0 <= k < |vs| ==>
      && (forall i :: 0 <= i < rows[k] ==> a[i] < vs[k])
      && (forall i :: rows[k] <= i < |a| ==> vs[k] <= a[i]) by {
      if Sorted(a) {
        forall k | 0 <= k < |vs|
          ensures forall i :: 0 <= i < rows[k] ==> a[i] < vs[k]
          ensures forall i :: rows[k] <= i < |a| ==> vs[k] <= a[i]
        {
          CountBelowInsertion(a, vs[k]);
        }
      }
    }
    rows
  }

  /** Vertex mode: the first argument names the surface, the rest are
      vertex indices, converted to rows of the first structure whose name
      contains the surface name. */
  function VertexRows(ax: BrainAxis, tokens: seq<string>): (r: Result<seq<int>>)
    ensures |tokens| == 0 ==> r == Err(PopEmpty)
    ensures |tokens| > 0 && SurfaceSpan(ax.spans, tokens[0]).None? ==> r == Err(IndexError("list index out of range"))
    ensures r.Ok? <==>
      && |tokens| > 0
      && SurfaceSpan(ax.spans, tokens[0]).Some?
      && ParseInts(tokens[1..]).Ok?
      && forall k :: 0 <= k < |tokens| - 1 ==>
           InBounds(ax.spans[SurfaceSpan(ax.spans, tokens[0]).value], ParseInts(tokens[1..]).value[k])
    ensures r.Ok? ==> |r.value| == |tokens| - 1
    ensures r.Ok? ==>
      var sp := ax.spans[SurfaceSpan(ax.spans, tokens[0]).value];
      r.value == SearchSorted(SpanVertices(ax, sp), ParseInts(tokens[1..]).value)
  {
    var surface :- if |tokens| == 0 then Err(PopEmpty) else Ok(tokens[0]);
    var j :- match SurfaceSpan(ax.spans, surface)
      case None => Err(IndexError("list index out of range"))
      case Some(j) => Ok(j);
    var sp := ax.spans[j];
    var vs :- ParseInts(tokens[1..]);
    var vs :- CheckBounds(sp, vs);
    Ok(SearchSorted(SpanVertices(ax, sp), vs))
  }

  /** On a sorted array holding `v`, the insertion point is the first
      position holding `v`. */
  lemma SearchSortedFinds(a: seq<int>, vs: seq<int>, k: nat)
    requires k < |vs| && Sorted(a) && vs[k] in a
    ensures var row := SearchSorted(a, vs)[k];
      row < |a| && a[row] == vs[k] && forall i :: 0 <= i < row ==> a[i] != vs[k]
  {
    CountBelowFinds(a, vs[k]);
  }

  /** The three stages of vertex mode, for a conversion that succeeds. */
  lemma VertexRowsUnfold(ax: BrainAxis, tokens: seq<string>)
    requires VertexRows(ax, tokens).Ok?
    ensures var sp := ax.spans[SurfaceSpan(ax.spans, tokens[0]).value];
      VertexRows(ax, tokens).value == SearchSorted(SpanVertices(ax, sp), ParseInts(tokens[1..]).value)
  {
  }

  /** For a structure slice lying inside the axis, whose vertex array is
      sorted and holds the requested vertex, the converted row is the
      position of the vertex's first occurrence within the slice: it is
      counted from the slice's start, not from the start of the axis. */
  lemma RowsAreSliceRelative(ax: BrainAxis, sp: Span, vs: seq<int>, k: nat)
    requires 0 <= sp.start && sp.stop.Some? && sp.start <= sp.stop.value <= |ax.vertex|
    requires k < |vs| && Sorted(SpanVertices(ax, sp)) && vs[k] in SpanVertices(ax, sp)
    ensures var row := SearchSorted(SpanVertices(ax, sp), vs)[k];
      && 0 <= row < sp.stop.value - sp.start
      && ax.vertex[sp.start + row] == vs[k]
      && forall i :: sp.start <= i < sp.start + row ==> ax.vertex[i] != vs[k]
  {
    var a := SpanVertices(ax, sp);
    SearchSortedFinds(a, vs, k);
    InSlice(ax.vertex, sp.start, sp.stop.value, SearchSorted(a, vs)[k], vs[k]);
  }

  /** A first occurrence within `xs[lo..hi]`, seen from the whole of `xs`. */
  lemma InSlice(xs: seq<int>, lo: nat, hi: nat, row: nat, v: int)
    requires lo <= hi <= |xs| && row < hi - lo
    requires xs[lo..hi][row] == v && forall i :: 0 <= i < row ==> xs[lo..hi][i] != v
    ensures xs[lo + row] == v && forall i :: lo <= i < lo + row ==> xs[i] != v
  {
    forall i | lo <= i < lo + row
      ensures xs[i] != v
    {
      assert xs[i] == xs[lo..hi][i - lo];
    }
  }

  // ---------------------------------------------------------------------
  // From arguments to the continuous path
  // ---------------------------------------------------------------------

  /** The arguments with surrounding whitespace stripped, replaced by the
      border file's data when a border file is given. */
  function Tokens(args: seq<string>, borderFile: bool, border: BorderDoc): (r: Result<seq<string>>)
    ensures !borderFile ==> r.Ok? && |r.value| == |args| && forall k :: 0 <= k < |args| ==> r.value[k] == Strip(args[k])
    ensures borderFile && |args| == 0 ==> r == Err(IndexError("list index out of range"))
    ensures borderFile && |args| > 0 ==> r == Data(border)
  {
    var stripped := seq(|args|, k requires 0 <= k < |args| => Strip(args[k]));
    if borderFile then
      var _ :- ListAt(stripped, 0);
      Data(border)
    else Ok(stripped)
  }

  /** Surface stitching when the first waypoint lies in a cortical
      hemisphere, volume interpolation otherwise. */
  function Interpolate(ax: BrainAxis, s: Solver, path: seq<int>): (r: Result<seq<int>>)
    ensures |path| == 0 ==> r == Err(IndexError("list index out of range"))
    ensures |path| > 0 && StructureFromRow(ax, path[0]).Err? ==> r == Err(StructureFromRow(ax, path[0]).error)
    ensures |path| > 0 && HemisphereFromRow(ax, path[0]).Ok? ==> r == ContinuousPath(ax, s, path)
    ensures |path| > 0 && StructureFromRow(ax, path[0]).Ok? && HemisphereFromRow(ax, path[0]).Err? ==>
      r == VolumeInterpolation(ax, path)
    ensures r.Ok? && HemisphereFromRow(ax, path[0]).Ok? ==>
      OneSide(ax, path) && NoAdjacent(r.value)
    ensures r.Ok? && HemisphereFromRow(ax, path[0]).Err? ==>
      Consistent(ax, path) && r.value[|r.value| - 1] == path[|path| - 1] && NoAdjacent(r.value)
  {
    var first :- ListAt(path, 0);
    var structure :- StructureFromRow(ax, first);
    if IsHemisphere(structure) then ContinuousPath(ax, s, path)
    else VolumeInterpolation(ax, path)
  }

  /** Everything after the border-file substitution. */
  function FromTokens(ax: BrainAxis, s: Solver, tokens: seq<string>, closed: bool, reverse: bool, vertexMode: bool): (r: Result<seq<int>>)
  {
    var path :- if vertexMode then VertexRows(ax, tokens) else ParseInts(tokens);
    var path :- ApplyModifiers(path, closed, reverse);
    Interpolate(ax, s, path)
  }

  /** The path logic of `generate_movie`: the row path whose frames make
      the movie. */
  function GenerateMovie(ax: BrainAxis, s: Solver, border: BorderDoc, args: seq<string>,
                         closed: bool, reverse: bool, vertexMode: bool, borderFile: bool): (r: Result<seq<int>>)
    ensures |args| == 0 ==> r.Err?
    ensures r.Ok? ==> Tokens(args, borderFile, border).Ok?
  {
    var tokens :- Tokens(args, borderFile, border);
    FromTokens(ax, s, tokens, closed, reverse, vertexMode || borderFile)
  }

  /** A border file turns vertex mode on whatever the flag says: its
      structure names the surface and its vertices are the indices. */
  lemma BorderForcesVertexMode(ax: BrainAxis, s: Solver, border: BorderDoc, args: seq<string>,
                               closed: bool, reverse: bool, vertexMode: bool)
    requires |args| > 0 && Data(border).Ok?
    ensures GenerateMovie(ax, s, border, args, closed, reverse, vertexMode, true)
         == FromTokens(ax, s, Data(border).value, closed, reverse, true)
    ensures var d := Data(border).value;
      VertexRows(ax, d).Ok? ==> |VertexRows(ax, d).value| == |GetVertices(border).value|
  {
  }

  /** Without a border file or vertex mode, integer arguments (with any
      surrounding whitespace) are the waypoint rows themselves. */
  lemma RowArguments(ax: BrainAxis, s: Solver, border: BorderDoc, rows: seq<int>, closed: bool, reverse: bool)
    ensures var args := seq(|rows|, k requires 0 <= k < |rows| => " " + IntToString(rows[k]) + "\n");
      forall p :: ApplyModifiers(rows, closed, reverse) == Ok(p) ==>
        GenerateMovie(ax, s, border, args, closed, reverse, false, false) == Interpolate(ax, s, p)
  {
    var args := seq(|rows|, k requires 0 <= k < |rows| => " " + IntToString(rows[k]) + "\n");
    var tokens := Tokens(args, false, border).value;
    forall k | 0 <= k < |rows|
      ensures tokens[k] == IntToString(rows[k])
    {
      PaddedStrip(IntToString(rows[k]));
    }
    forall k | 0 <= k < |rows|
      ensures ParseInt(tokens[k]) == Ok(rows[k])
    {
      IntRoundTrip(rows[k]);
    }
    ParseIntsAll(tokens, rows);
  }

  lemma PaddedStrip(t: string)
    requires |t| > 0 && !IsSpace(t[0]) && !IsSpace(t[|t| - 1])
    ensures Strip(" " + t + "\n") == t
  {
    var s := " " + t + "\n";
    assert Leading(IsSpace, s) == 1 by {
      assert s[1] == t[0];
    }
    var r := Strip(s);
    assert |r| > 0 ==> r[|r| - 1] == s[|r|];
    assert |r| == |t| by {
      assert s[|t|] == t[|t| - 1] && s[|t| + 1] == '\n';
    }
    assert r == s[1..|t| + 1] == t;
  }

  // ---------------------------------------------------------------------
  // Frames
  // ---------------------------------------------------------------------

  /** `f"frame{idx:09d}.png"`. */
  function FrameName(idx: nat): string {
    "frame" + ZeroPad(idx, 9) + ".png"
  }

  /** Distinct frame numbers name distinct files, so no copy overwrites a
      frame another one wrote. */
  lemma FrameNamesDistinct(a: nat, b: nat)
    requires a != b
    ensures FrameName(a) != FrameName(b)
  {
    var pa := ZeroPad(a, 9);
    var pb := ZeroPad(b, 9);
    assert FrameName(a)[5..5 + |pa|] == pa;
    assert FrameName(b)[5..5 + |pb|] == pb;
    assert |pa| == |pb| ==> pa != pb;
  }

  lemma MulSign(d: int, m: nat)
    ensures d >= 1 ==> d * m >= m
    ensures d <= -1 ==> d * m <= -(m as int)
  {
  }

  /** Subtracting the modulus leaves the remainder unchanged. */
  lemma ModSub(n: int, m: nat)
    requires m > 0 && n >= m
    ensures n % m == (n - m) % m
  {
    var q1, r1 := n / m, n % m;
    var q2, r2 := (n - m) / m, (n - m) % m;
    assert (q1 - q2 - 1) * m == q1 * m - q2 * m - m;
    MulSign(q1 - q2 - 1, m);
  }

  /** `r` repeats its first `m` entries: every entry past them equals the
      one `m` places earlier. */
  predicate Periodic(r: seq<int>, m: nat) {
    forall n :: m <= n < |r| ==> r[n] == r[n - m]
  }

  /** A sequence that starts with `path` and repeats with the period of
      `path` holds, at every position `n`, the entry `n mod len(path)`. */
  lemma {:induction false} PeriodicIsModulo(path: seq<int>, frames: seq<int>, n: nat)
    requires 0 < |path| <= |frames| && frames[..|path|] == path && Periodic(frames, |path|)
    requires n < |frames|
    ensures frames[n] == path[n % |path|]
    decreases n
  {
    if n < |path| {
      assert frames[n] == frames[..|path|][n];
    } else {
      PeriodicIsModulo(path, frames, n - |path|);
      ModSub(n, |path|);
    }
  }

  lemma NextBlock(b: nat, m: nat)
    ensures (b + 1) * m == b * m + m
  {
  }

  /** `(b * m + i) % m == i` for `i < m`: position `i` of block `b`. */
  lemma {:induction false} BlockPosition(b: nat, m: nat, i: nat)
    requires i < m
    ensures (b * m + i) % m == i
    decreases b
  {
    if b > 0 {
      NextBlock(b - 1, m);
      ModSub(b * m + i, m);
      BlockPosition(b - 1, m, i);
    }
  }

  /** The frame files of `process_frames`, by frame number: frame `n` shows
      row `frames[n]`. Frame `idx` is rendered from `path[idx]`, and each
      further loop copies frames `0..len(path)` to the next block of
      numbers, so the numbers stay consecutive from 0 for the encoder's
      `frame%09d.png` pattern. */
  method ProcessFrames(path: seq<int>, loops: int) returns (frames: seq<int>)
    ensures |frames| == (if loops > 1 then loops else 1) * |path|
    ensures frames[..|path|] == path
    ensures Periodic(frames, |path|)
  {
    frames := path;
    var offset := 0;
    var l := 0;
    while l < loops - 1
      invariant 0 <= l && (loops > 1 ==> l <= loops - 1)
      invariant loops <= 1 ==> l == 0
      invariant |frames| == offset + |path| && offset == l * |path|
      invariant frames[..|path|] == path
      invariant Periodic(frames, |path|)
    {
      NextBlock(l, |path|);
      offset := offset + |path|;
      var idx := 0;
      while idx < |path|
        invariant 0 <= idx <= |path|
        invariant |frames| == offset + idx
        invariant frames[..|path|] == path
        invariant Periodic(frames, |path|)
      {
        // frame number offset + idx, copied from frame idx
        PeriodicIsModulo(path, frames, offset + idx - |path|);
        BlockPosition(l, |path|, idx);
        assert frames[idx] == frames[..|path|][idx];
        frames := frames + [frames[idx]];
        idx := idx + 1;
      }
      l := l + 1;
    }
  }

  /** Every frame shows the path row its number selects modulo the path
      length, and a non-empty path gives at least one frame per row. */
  lemma FramesCycle(path: seq<int>, loops: int, frames: seq<int>)
    requires |frames| == (if loops > 1 then loops else 1) * |path|
    requires frames[..|path|] == path && Periodic(frames, |path|)
    ensures forall n :: 0 <= n < |frames| ==> |path| > 0 && frames[n] == path[n % |path|]
  {
    forall n | 0 <= n < |frames|
      ensures |path| > 0 && frames[n] == path[n % |path|]
    {
      PeriodicIsModulo(path, frames, n);
    }
  }
}
