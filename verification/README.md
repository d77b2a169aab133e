# wbsurfer path logic in Dafny

wbsurfer makes a Connectome Workbench movie that travels across a brain.
The user gives a few waypoints as CIFTI row indices, as surface vertex
indices, or as a border file. The program turns them into a dense row path
with one row per movie frame:

- on a cortical surface, exact geodesic paths between the waypoints, each
  snapped to mesh vertices;
- in the volume, a 3-D Bresenham line between the waypoints' voxels.

For every frame it makes the row the scene's active connectivity row and
renders the scene. The frames are then looped and encoded.

This project models that integer and sequence logic, and proves properties
of it:

- `Voxels`: voxel coordinates and the Chebyshev distance.
- `Scene`: the rows of a CIFTI brain-model axis.
  - The structure and hemisphere of a row.
  - Surface, volume and invalid rows.
  - The scene fields rewritten to activate a row.
  - The choice of CIFTI file.
- `Volume`: `bresenham3d` and `volume_interpolation`.
- `Geodesic`: the geodesic path post-processing.
  - Snapping edge points to vertices.
  - Duplicate removal with its `-1` sentinel.
  - The one-slot solver cache.
  - Stitching waypoints in one hemisphere.
  - Mapping vertices back to rows.
- `Border`: reading the vertices of a border file.
- `Movie`: the `generate_movie` path logic and the frame numbering of
  `process_frames`.
  - Border and vertex modes, the bounds check and the conversion to rows.
  - The closed and reverse modifiers.
  - The choice between surface and volume.
- `Outcomes`, `PyStr`, `PySeq`: the Python and numpy behaviour the code
  relies on.
  - Exceptions become `Result` errors carrying the same kind and message.
  - `str.split`, `strip`, `int()`, `str()` and the `{n:09d}` format.
  - List and array subscripts with negative wrap-around, and slices.
  - `np.where(...)[0][0]` and `np.searchsorted`.

The CIFTI file's second axis is an input (`Scene.BrainAxis`). It holds the
per-row vertex and voxel tables, the structure spans in iteration order and
the column count. Other inputs:

- The scene document is the list of its `Object` and `ObjectArray` elements.
  For file lookup it is the list of its `pathName` objects (name and text),
  in document order.
- The affine transform is a function from a voxel to its printed x, y, z.
- The geodesic solver is a function from a source and target vertex to edge
  points.
- A border file is its root attributes and the texts of its `Vertices`
  elements.

Some behaviours of the code are easy to miss. The model keeps them as the
code has them:

- The closed and reverse modifiers both apply when both are set, reverse
  after closed. They act on the waypoints, before interpolation.
- Duplicates are removed once, over the concatenation of all hops.
- A vertex maps back to the first row of the whole vertex table that holds
  it, not to a row within its structure's span.
- In vertex mode, `searchsorted` gives positions within the structure's own
  slice. No span offset is added, so for a structure that does not start at
  row 0 the row points outside it (`Movie.RowsAreSliceRelative`).
- `makeelement` creates a missing tuple element but never attaches it, so
  that index stays missing (`Scene.MissingIndexStaysMissing`).
- The last structure of the axis has no slice stop. In vertex mode the bounds
  check then fails with a `TypeError` (`Movie.CheckBounds`).
- `get_continuous_path` of fewer than two waypoints is empty, while
  `volume_interpolation` of one waypoint is that waypoint
  (`Geodesic.ShortPathEmpty`, `Volume.SingleWaypoint`).

## Model

| member | source | states |
|---|---|---|
| `PyStr.Split` | wbsurfer/scene.py:241 | the pieces of `str.split`: at least one, none containing the separator, and joining them with the separator gives back the string |
| `PyStr.SplitJoin` | wbsurfer/border.py:33 | splitting on a one-character separator undoes joining pieces that do not contain it |
| `PyStr.Strip` | wbsurfer/movie.py:155 | `strip()` is the piece of the string that starts after its leading `str.isspace` whitespace, leaves only whitespace behind it, and is empty or ends in a non-space: the string with the whitespace at both ends removed and nothing else changed |
| `PyStr.Leading` | wbsurfer/movie.py:155 | the leading whitespace is the longest run of whitespace the string starts with |
| `PyStr.TrimClean` | wbsurfer/movie.py:155 | a string with no whitespace at either end is left unchanged |
| `PyStr.ParseInt` | wbsurfer/movie.py:179 | `int()` succeeds exactly when, once the surrounding whitespace is removed (that of `str.isspace` without U+001C to U+001F), what is left is digits with single underscores between them, optionally behind one `+` or `-`; the value is that of the digits, negated behind `-`; every failure is the invalid-literal `ValueError` |
| `PyStr.IntRejects` | wbsurfer/movie.py:179 | `int()` rejects `""`, `"abc"`, `"1 2"` and a bare `"-"` |
| `PyStr.IntRejectsUnderscores` | wbsurfer/movie.py:179 | `int()` rejects `"1__0"`, `"10_"` and a number behind U+001C |
| `PyStr.IntAccepts` | wbsurfer/movie.py:179 | `int(" +1_0\n")` is 10 |
| `PyStr.IntAcceptsNegative` | wbsurfer/movie.py:179 | `int("-07")` is -7 |
| `PyStr.IntRoundTrip` | wbsurfer/movie.py:179 | `int(str(n)) == n` for every integer |
| `PyStr.ParseInts` | wbsurfer/movie.py:179 | `list(map(int, xs))` succeeds iff every token parses, giving each token's value in order |
| `PyStr.ParseIntsAll` | wbsurfer/movie.py:172 | tokens that each parse to a value parse together to the list of those values |
| `PyStr.ZeroPad` | wbsurfer/movie.py:71-72 | `{n:09d}` is all digits, at least nine long, and reads back as `n` |
| `PySeq.ListAt` | wbsurfer/movie.py:183 | a list subscript succeeds iff the index is in range after negative wrap-around, otherwise `IndexError("list index out of range")` |
| `PySeq.ArrayAt` | wbsurfer/scene.py:156 | an array subscript, with numpy's out-of-bounds `IndexError` |
| `PySeq.DropLast` | wbsurfer/volume.py:127 | `xs[:-1]` keeps all but the last entry, and nothing of an empty list |
| `PySeq.Reverse` | wbsurfer/movie.py:185 | `xs[::-1]` holds entry `k` at position `len - 1 - k` |
| `PySeq.Slice` | wbsurfer/movie.py:168 | `xs[start:stop]` is the subsequence between in-range bounds, and the tail for an omitted stop |
| `PySeq.FirstIndexOf` | wbsurfer/volume.py:124 | the first position holding a value, none iff it does not occur |
| `PySeq.WhereFirst` | wbsurfer/geodesic.py:84 | `np.where(a == x)[0][0]` is the first row holding `x`, and numpy's `IndexError` when there is none |
| `PySeq.CountBelowInsertion` | wbsurfer/movie.py:177 | on a sorted array, the count of entries below `v` is the leftmost insertion point of `v` |
| `PySeq.CountBelowFinds` | wbsurfer/movie.py:177 | on a sorted array holding `v`, that insertion point is the first occurrence of `v` |
| `Scene.SpanOf` | wbsurfer/scene.py:229-234 | the loop over `iter_structures()` finds the first span, in order, containing the row, with an open stop meaning the column count; none iff no span contains it |
| `Scene.StructureName` | wbsurfer/scene.py:241 | the name after the `CIFTI_STRUCTURE_` prefix, without the prefix; an `IndexError` iff the prefix is absent |
| `Scene.StructureNameStrips` | wbsurfer/scene.py:241 | stripping the prefix undoes adding it |
| `Scene.StructureFromRow` | wbsurfer/scene.py:215-241 | the stripped name of the first span containing the row; "Row index out of bounds, max row is N-1." when none does |
| `Scene.TilesCover` | wbsurfer/scene.py:229-234 | spans that cut the columns into consecutive slices contain exactly the rows from their start to the column count |
| `Scene.OutOfBoundsExactly` | wbsurfer/scene.py:236-238 | on such an axis the out-of-bounds error is raised exactly for negative rows and rows at or past the column count |
| `Scene.HemisphereFromRow` | wbsurfer/scene.py:208-213 | only `CORTEX_LEFT` or `CORTEX_RIGHT` is returned; any other structure is "Row index is not a hemisphere." |
| `Scene.Classify` | wbsurfer/scene.py:148-164 | "Invalid row index." exactly when the vertex is -1 and all three voxel entries are -1; a surface row iff the vertex is not -1; otherwise a volume row with its voxel |
| `Scene.WriteTuple` | wbsurfer/scene.py:133-138 | the loop writes value `m` into the first element with index `m`, for at most three values, and leaves every other element unchanged |
| `Scene.ChangeTuple` | wbsurfer/scene.py:130-138 | `change_tuple_index_element` keeps the element indices, writes each of the first three values at its index, and changes nothing else |
| `Scene.MissingIndexStaysMissing` | wbsurfer/scene.py:134-138 | a missing index is not added, because the new element is never attached |
| `Scene.SetObjects` | wbsurfer/scene.py:169-171 | every `Object` with the name gets exactly the new text; every other element is left as it was |
| `Scene.SetArrays` | wbsurfer/scene.py:189-191 | every `ObjectArray` with the name gets the tuple written into its elements; every other element is left as it was |
| `Scene.SetObjectsIdempotent` | wbsurfer/scene.py:169-171 | writing the same text twice is writing it once |
| `Scene.SetObjectsCommute` | wbsurfer/scene.py:169-181 | text loops over different names commute |
| `Scene.SurfaceUpdateApplied` | wbsurfer/scene.py:166-181 | the surface loops together write the row index, the surface vertex index and node index 0, each once |
| `Scene.VolumeNode` | wbsurfer/scene.py:185-206 | on one element, the volume loops make exactly the volume writes |
| `Scene.VolumeUpdateApplied` | wbsurfer/scene.py:182-206 | the volume loops together write the row index, the voxel, both XYZ tuples and the axial (z), coronal (y) and parasagittal (x) slices |
| `Scene.ActivateRow` | wbsurfer/scene.py:140-206 | `change_connectivity_active_row` succeeds iff the row classifies, with the classification's error otherwise, and applies the surface or volume writes to every element |
| `Scene.SurfaceLeavesVolumeFields` | wbsurfer/scene.py:167-181 | a surface row leaves every voxel, XYZ and slice element unchanged |
| `Scene.VolumeLeavesSurfaceFields` | wbsurfer/scene.py:182-206 | a volume row leaves the surface vertex and node elements unchanged |
| `Scene.Named` | wbsurfer/scene.py:70-73 | one `findall` by name: the texts of exactly the objects with that name, none added |
| `Scene.NamedAppend` | wbsurfer/scene.py:70-73 | a `findall` over two stretches of the document is the `findall` over the first followed by the `findall` over the second |
| `Scene.NamedOne` | wbsurfer/scene.py:70-73 | a single object is found iff it has the name; with `Scene.NamedAppend` this fixes every `findall` result, in document order |
| `Scene.PathElements` | wbsurfer/scene.py:65-74 | `get_path_elements` is the four `findall` results concatenated in the order `dataFileName_V2`, `fileName`, `m_selectedSurfacePathName`, `primaryAnatomicalSurface`; it lists the text of every `pathName` object with one of those names, and only those |
| `Scene.FromGroups` | wbsurfer/scene.py:65-74 | every text in the four concatenated groups comes from an object bearing one of the four names |
| `Scene.FilesGrouped` | wbsurfer/scene.py:65-93 | `get_files` searches group by group in that name order, each group in document order |
| `Scene.GroupOrderWins` | wbsurfer/scene.py:65-106 | the grouping beats document order: a series under `fileName` that comes first in the document loses to a later one under `dataFileName_V2` |
| `Scene.Files` | wbsurfer/scene.py:84-93 | `get_files(ext)` keeps only texts ending with `ext`, each one of the path texts; non-empty iff one exists, starting with the first in the order `get_path_elements` lists them |
| `Scene.FilesAppend` | wbsurfer/scene.py:92-93 | the matches among two runs of paths are those of the first run followed by those of the second |
| `Scene.FilesOne` | wbsurfer/scene.py:93 | a single path is kept iff it has text ending with `ext`; with `FilesAppend` this fixes every match, in the order `get_path_elements` lists them (grouped by element name) |
| `Scene.CiftiFile` | wbsurfer/scene.py:95-106 | the first `.dtseries.nii`, else the first `.dconn.nii`; "No CIFTI files found in Scene file." exactly when neither exists |
| `Volume.ChooseDrive` | wbsurfer/volume.py:26-65 | the driving axis has the largest delta (x before y before z on ties), the other two keep x-before-y-before-z order, with deltas and signs as computed |
| `Volume.Line` | wbsurfer/volume.py:8-88 | `bresenham3d` has `1 + max(abs(dx), abs(dy), abs(dz))` points, starts at `v0`, ends at `v1`, its `n`-th point is exactly `n` from `v0`, and each step is a unit step toward `v1` on the driving axis and at most one unit in the sign direction on each other axis |
| `Volume.ErrorStep` | wbsurfer/volume.py:77-84 | one iteration keeps the error term equal to `2*d*(t+1) - d0*(2*k+1)` for the new step counts |
| `Volume.FinalCount` | wbsurfer/volume.py:72-84 | after `d0` iterations a secondary axis has taken exactly its delta's worth of steps |
| `Volume.WalkEnd` | wbsurfer/volume.py:74-85 | the loop ends at `v1` on every axis |
| `Volume.WalkSteps` | wbsurfer/volume.py:74-85 | every iteration moves one unit on the driving axis and at most one unit on each other axis, in the direction of its sign |
| `Volume.StepsIndexed` | wbsurfer/volume.py:74-85 | the per-iteration step facts hold at every index of the line |
| `Volume.SpreadLine` | wbsurfer/volume.py:68-85 | point `n` of the line is exactly `n` from `v0` in Chebyshev distance |
| `Volume.MovesToward` | wbsurfer/volume.py:31-33 | a step in the sign's direction is a step toward `v1` |
| `Volume.EndIsTarget` | wbsurfer/volume.py:72-85 | the point reached after all steps is `v1` |
| `Volume.LineFacts` | wbsurfer/volume.py:67-88 | the line from the driving-axis choice and the initial error terms has all of `Line`'s properties |
| `Volume.RowsOnLine` | wbsurfer/volume.py:123-125 | every row is the first row holding its voxel and that voxel lies on the line; one row per held point; if every point is held, each row holds its point |
| `Volume.RowsOnLineAppend` | wbsurfer/volume.py:123-125 | the comprehension works point by point: the rows of two pieces of a line are those of the first followed by those of the second |
| `Volume.RowsOnLinePoint` | wbsurfer/volume.py:124 | a held point gives its first row, a point no row holds gives nothing; with `RowsOnLineAppend` this fixes the comprehension |
| `Volume.RowsDistinct` | wbsurfer/volume.py:123-125 | distinct points give distinct rows |
| `Volume.LineDistinct` | wbsurfer/volume.py:8-88 | the points of a line are pairwise different |
| `Volume.LineRowsInit` | wbsurfer/volume.py:123-127 | with the end voxel held, dropping the last row leaves the rows of the line without its end point |
| `Volume.LineRowsFacts` | wbsurfer/volume.py:121-127 | the kept rows of one line are distinct, none holds the end voxel, none are kept iff both ends coincide, otherwise the first holds the start voxel |
| `Volume.Hop` | wbsurfer/volume.py:110-127 | one waypoint pair succeeds only within one structure; "Path crosses structures" when both structures exist and differ; a success contributes the first row holding each voxel of the 3-D Bresenham line between the two waypoints' voxels, skipping voxels no row holds, less the final row |
| `Volume.HopsSplit` | wbsurfer/volume.py:110-127 | a successful loop over two or more waypoints is the first pair's rows followed by the loop over the rest, and the first pair's rows start at its first voxel, avoid its second voxel and have no neighbouring duplicates |
| `Volume.Hops` | wbsurfer/volume.py:110-127 | a successful loop over pairs keeps every consecutive pair in one structure |
| `Volume.HopFacts` | wbsurfer/volume.py:119-127 | a successful hop contributes rows without neighbouring duplicates, none holding the second waypoint's voxel, starting at the first waypoint's voxel, and none iff both waypoints share a voxel |
| `Volume.HopsCons` | wbsurfer/volume.py:110-127 | the loop hops from the first waypoint to the second, then on from the second |
| `Volume.JoinHop` | wbsurfer/volume.py:127-129 | a hop followed by a run of rows starting at the next waypoint's voxel has no duplicate at the seam |
| `Volume.HopsChain` | wbsurfer/volume.py:110-129 | the concatenated rows plus the last waypoint have no neighbouring duplicates, look up voxels throughout and start at the first waypoint's voxel |
| `Volume.VolumeInterpolation` | wbsurfer/volume.py:91-131 | an empty path fails on `path[-1]`; a result ends with the last waypoint, keeps all pairs within a structure, and has no two neighbouring rows equal |
| `Volume.SingleWaypoint` | wbsurfer/volume.py:110-129 | one waypoint interpolates to itself |
| `Volume.Closing` | wbsurfer/volume.py:127-129 | the result is the hops' rows followed by the last waypoint |
| `Volume.OneStructure` | wbsurfer/volume.py:112-115 | pairwise-consistent structures put every waypoint in the first waypoint's structure |
| `Volume.CrossesExactly` | wbsurfer/volume.py:110-115 | with lookups that succeed, interpolation fails iff some consecutive pair crosses structures, and then with "Path crosses structures" |
| `Volume.HopStart` | wbsurfer/volume.py:119-127 | a hop between distinct first-match waypoints starts with its first waypoint; a hop from a row to itself contributes nothing |
| `Volume.CountInLine` | wbsurfer/volume.py:123-125 | a line with both ends in the table yields at least two rows |
| `Volume.HopsStart` | wbsurfer/volume.py:123-129 | with first-match waypoints, the concatenated rows plus the last waypoint start with the first waypoint |
| `Volume.StartsAtFirstWaypoint` | wbsurfer/volume.py:123-129 | when every waypoint is the first row holding its voxel, the result starts with the first waypoint |
| `Geodesic.Dedup` | wbsurfer/geodesic.py:33-39 | the output never lengthens the input, has no adjacent duplicates, never starts with the sentinel, draws only on input values, and ends with the input's last value |
| `Geodesic.DedupRuns` | wbsurfer/geodesic.py:33-38 | the loop equals run compression, with a first run dropped if it equals the sentinel |
| `Geodesic.RemoveDuplicatesRuns` | wbsurfer/geodesic.py:19-39 | `remove_dupicate_indices_from_path` keeps the first entry of each run of equal entries, except a leading run of `-1` |
| `Geodesic.DedupFixed` | wbsurfer/geodesic.py:33-38 | a path without adjacent duplicates that does not start with the sentinel is unchanged |
| `Geodesic.RemoveDuplicatesIdempotent` | wbsurfer/geodesic.py:19-39 | removing duplicates twice is removing them once |
| `Geodesic.LeadingSentinelDropped` | wbsurfer/geodesic.py:33-37 | a leading `-1` disappears |
| `Geodesic.Snap` | wbsurfer/geodesic.py:233-241 | a vertex point is its own index; an edge point snaps to the left vertex at proportion 0.5 or below, otherwise to the right |
| `Geodesic.AsNearestIndex` | wbsurfer/geodesic.py:214-244 | without deduplication, one snapped vertex per point; with it, the first vertex of every run of equal snapped vertices, less a leading `-1`, so no adjacent duplicates |
| `Geodesic.Nearest` | wbsurfer/geodesic.py:233-241 | each point of the path snapped to its nearest vertex, in order |
| `Geodesic.UpdateModel` | wbsurfer/geodesic.py:122-133 | the solver re-runs only for a source other than the current one, and afterwards the current source is the given one |
| `Geodesic.SessionExecutions` | wbsurfer/geodesic.py:130-133 | over a series of sources, the solver runs once per change of source and ends holding the last one |
| `Geodesic.HopSources` | wbsurfer/geodesic.py:62-78 | the source vertex of every hop: each waypoint's vertex but the last |
| `Geodesic.HopsSession` | wbsurfer/geodesic.py:62-78 | the hops leave the cache of a session over their sources, so the solver runs once per run of equal consecutive sources |
| `Geodesic.SolverPath` | wbsurfer/geodesic.py:151-172 | `path(source, target)` updates the cache for the source and returns the solver's trace reversed |
| `Geodesic.Hop` | wbsurfer/geodesic.py:62-78 | one pair succeeds only within one hemisphere, with "Path crosses hemispheres" when both hemispheres exist and differ, leaves the cache holding the first vertex, and contributes the solver's trace from the first waypoint's vertex to the second's, reversed, snapped to vertices and deduplicated |
| `Geodesic.Hops` | wbsurfer/geodesic.py:62-78 | a successful loop over pairs keeps every consecutive pair in one hemisphere |
| `Geodesic.RowsOf` | wbsurfer/geodesic.py:83-84 | each vertex maps to the first row of the whole vertex table that holds it; numpy's `IndexError` iff some vertex is absent |
| `Geodesic.ContinuousPath` | wbsurfer/geodesic.py:42-84 | fewer than two waypoints give `[]`; a result keeps all waypoints in one hemisphere, has no adjacent duplicates across hop boundaries, has one row per vertex of the concatenated hops after duplicate removal, and each row is the first table row holding that vertex |
| `Geodesic.FirstRowsDistinct` | wbsurfer/geodesic.py:79-84 | first-match rows of vertices without adjacent duplicates have none either |
| `Geodesic.ShortPathEmpty` | wbsurfer/geodesic.py:57-84 | a single waypoint gives an empty continuous path |
| `Geodesic.OneHemisphere` | wbsurfer/geodesic.py:62-67 | pairwise-consistent hemispheres put every waypoint in the first waypoint's hemisphere |
| `Geodesic.CrossesExactly` | wbsurfer/geodesic.py:62-67 | with lookups that succeed, stitching fails iff some consecutive pair crosses hemispheres, and then with "Path crosses hemispheres" |
| `Geodesic.ExactTraced` | wbsurfer/geodesic.py:166-172 | a solver whose traces run from the target back to the source traces every hop between its waypoints' vertices |
| `Geodesic.HopEnds` | wbsurfer/geodesic.py:76-78 | with such a trace, a hop's vertices run from the first waypoint's vertex to the second's |
| `Geodesic.HopsFirst` | wbsurfer/geodesic.py:62-78 | the concatenated vertices start at the first waypoint's vertex |
| `Geodesic.HopsLast` | wbsurfer/geodesic.py:62-78 | the concatenated vertices end at the last waypoint's vertex |
| `Geodesic.ContinuousEnds` | wbsurfer/geodesic.py:62-84 | with such traces and first-match waypoints, the continuous path starts at the first waypoint and ends at the last |
| `Border.GetStructure` | wbsurfer/border.py:21-23 | the root's `Structure` attribute, or `KeyError` |
| `Border.FirstToken` | wbsurfer/border.py:32-33 | `line.split(" ")[0]` is the longest space-free prefix, followed by a space unless it is the whole line |
| `Border.NonEmpty` | wbsurfer/border.py:33 | each kept line is one of the lines and not `""`, and every non-empty line is kept |
| `Border.NonEmptyAppend` | wbsurfer/border.py:33 | the filter works line by line: the kept lines of two pieces are those of the first followed by those of the second |
| `Border.NonEmptyLine` | wbsurfer/border.py:33 | a single line is kept iff it is not `""`; with `NonEmptyAppend` this fixes the filter |
| `Border.FirstTokens` | wbsurfer/border.py:33 | one space-free token per non-empty line, in order, each the first token of its line |
| `Border.FirstTokensAppend` | wbsurfer/border.py:33 | the tokens of two pieces of text are those of the first followed by those of the second |
| `Border.FirstTokensLine` | wbsurfer/border.py:33 | an empty line yields no token, any other line its first token |
| `Border.GetVertices` | wbsurfer/border.py:25-33 | "Vertices node not found." without a Vertices element, "Border file is empty." when it has no text, otherwise the first token of each non-empty line |
| `Border.Data` | wbsurfer/border.py:35-38 | the structure followed by the vertices, of length one more; the structure's `KeyError` comes first |
| `Border.TokenThenSpace` | wbsurfer/border.py:33 | a space-free token followed by a space and anything is read back as the token |
| `Border.IndentedLineIsEmpty` | wbsurfer/border.py:33 | an indented line yields `""` |
| `Border.DataRoundTrip` | wbsurfer/border.py:25-38 | a Vertices text with one line per vertex reads back as the structure followed by exactly those vertex tokens |
| `Movie.ApplyModifiers` | wbsurfer/movie.py:181-185 | `closed` appends the first waypoint, and `reverse` then appends the mirror image, both when both are set; `closed` on an empty path is an `IndexError` |
| `Movie.ModifiedDetermines` | wbsurfer/movie.py:181-185 | that description fixes the result completely |
| `Movie.ClosedReturns` | wbsurfer/movie.py:182-183 | a closed path is one longer and ends where it starts |
| `Movie.ClosedAndReversed` | wbsurfer/movie.py:181-185 | closed and reversed together give a palindrome of length `2*len + 2` that starts and ends at the first waypoint |
| `Movie.SurfaceSpan` | wbsurfer/movie.py:167-171 | the first structure whose name contains the surface name, none iff no name does |
| `Movie.CheckBounds` | wbsurfer/movie.py:173-175 | passes iff every index lies in `[start, stop)`; "Vertex indices are out of bounds." otherwise, or a `TypeError` when the slice has no stop |
| `Movie.SearchSorted` | wbsurfer/movie.py:177 | one insertion point per index, each within the array; on a sorted array everything before it is smaller than the index and nothing from it on is |
| `Movie.SearchSortedFinds` | wbsurfer/movie.py:177 | on a sorted array holding the vertex, the insertion point is its first position |
| `Movie.VertexRows` | wbsurfer/movie.py:164-177 | "pop from empty list" without arguments; `IndexError` when no structure matches the surface; succeeds iff the indices parse and lie in the structure's bounds; the rows are then the `searchsorted` positions of the parsed indices within the structure's own vertex slice |
| `Movie.RowsAreSliceRelative` | wbsurfer/movie.py:167-177 | the converted row counts from the slice's start: the vertex sits at `start + row` of the axis, not at `row` |
| `Movie.Tokens` | wbsurfer/movie.py:154-161 | the arguments stripped, or the border file's data when a border file is given (an `IndexError` without arguments) |
| `Movie.Interpolate` | wbsurfer/movie.py:187-194 | an empty path fails on `path[0]` and an unknown first row with its lookup error; otherwise surface stitching iff the first waypoint's structure is a cortical hemisphere, volume interpolation if not; either way a result has no two neighbouring rows equal, and the chosen branch's other guarantees hold |
| `Movie.GenerateMovie` | wbsurfer/movie.py:147-194 | no arguments always fail; a result needs the arguments to be read |
| `Movie.BorderForcesVertexMode` | wbsurfer/movie.py:157-164 | with a border file the result is vertex mode on the border's data, whatever the vertex-mode flag says |
| `Movie.RowArguments` | wbsurfer/movie.py:154-179 | padded decimal row arguments are the waypoints themselves, modified and interpolated |
| `Movie.FrameNamesDistinct` | wbsurfer/movie.py:71-72 | distinct frame numbers name distinct frame files |
| `Movie.ProcessFrames` | wbsurfer/movie.py:56-87 | frames are rendered from the path in order; with `max(loops, 1) * len(path)` frames in all, each later frame repeats the one `len(path)` earlier |
| `Movie.PeriodicIsModulo` | wbsurfer/movie.py:80-87 | such a frame sequence shows `path[n mod len(path)]` at frame `n` |
| `Movie.FramesCycle` | wbsurfer/movie.py:80-87 | every frame `n` of the movie shows row `path[n mod len(path)]` |

## Left out

- File and XML I/O. This covers ElementTree parsing and saving, CIFTI and GIFTI loading with nibabel, `convert_relative_to_absolute`, and `get_hemisphere_gifti_filename`. The loaded contents are inputs instead.
- `get_vertex_and_voxel_table` and `get_cifti_file` reload the CIFTI file on every call. The model reads one `BrainAxis`, which is the same file each time. In vertex mode, the failure to find a CIFTI file is modelled by `Scene.CiftiFile` but is not chained in front of `Movie.VertexRows`.
- `apply_affine` is floating-point arithmetic. The model passes the affine in as a function to printed coordinates.
- The exact geodesic solver is foreign C++ (`RichModel`, the ICH method, `FindSourceVertex`). It is the `Solver.trace` parameter, and `as_edges` is `Solver.edgeOf`. `distances` and `as_vertex_positions` are floating-point and are left out.
- `get_continuous_path` loads the mesh of every hop's hemisphere but builds the solver only on the first hop. The model uses one solver for all hops. That matches the code whenever the hops succeed, because they then share one hemisphere.
- The side effects of `process_frames` are left out: `make_new_scene_frame` and `wb_command` rendering, the process pool, temporary directories, `copyfile` and `ffmpeg`. The model keeps which row each numbered frame shows.
- Logging, `rich` progress bars, `wbsurfer/utils.py`, `wbsurfer/logging.py` and `wbsurfer/cli.py` (argument wiring only) are not modelled.
- numpy `int64` overflow is not modelled. That covers `np.array` of huge integers and `bresenham3d` on coordinates near the limits. Integers here are unbounded.
- `PyStr.ParseInt`: the `ValueError` message omits the `: '<text>'` suffix Python appends. Only ASCII digits are recognised; `int()` also reads other Unicode decimal digits, such as fullwidth ones.
- `PyStr.ParseInt`: CPython refuses to convert a literal of more than 4300 digits by default. The model has no such limit.
- `PyStr.IntRoundTrip`: holds for integers of up to 4300 digits in CPython, whose `str()` and `int()` refuse longer ones by default. The model proves it for every integer.
- `Movie.SearchSorted`: models `np.searchsorted` as the number of entries below the index. numpy's binary search agrees with that on sorted arrays only. The model does not check that a structure's vertex array is sorted, and on an unsorted one it may disagree with numpy.
- `Movie.CheckBounds`: the `TypeError` for a slice without a stop carries Python's message for comparing an `int` with `None`. The wording numpy uses may differ. An empty index list skips the comparison.
- `Geodesic.Snap`: floating-point proportions are modelled as reals. A NaN proportion, which Python sends to the right vertex because `nan <= 0.5` is false, cannot be represented.
- `Geodesic.ContinuousEnds`: proved only for a solver whose traces run exactly between the two vertices. The real solver's output is not known to the model.
- `Movie.GenerateMovie`: its own contract is weak. The other `Movie` lemmas state what it does, one stage at a time.
