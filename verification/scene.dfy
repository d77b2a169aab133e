/** The row-index model of a CIFTI brain-model axis and the scene fields
    rewritten to make a row the active connectivity row (wbsurfer/scene.py).

    The CIFTI file itself is not loaded here: its brain-model axis is given
    as the per-row vertex and voxel tables, the structure spans in
    iteration order and the column count. The scene document is given as
    the flat list of its `Object`/`ObjectArray` elements. */
module Scene {
  import opened Outcomes
  import opened PyStr
  import opened PySeq
  import opened Voxels

  // ---------------------------------------------------------------------
  // Structures and rows
  // ---------------------------------------------------------------------

  /** Every structure name of the axis carries this prefix. */
  const StructurePrefix := "CIFTI_STRUCTURE_"

  /** One entry of `iter_structures()`: the full structure name and its
      half-open row slice; a slice without a stop runs to the column count. */
  datatype Span = Span(name: string, start: int, stop: Option<int>)

  /** The second axis of the CIFTI file: `vertex[r]` is the surface vertex
      of row `r` (-1 for a volume row), `voxel[r]` its voxel (`NoVoxel` for a
      surface row), `spans` the structures in order, `columns` is
      `cifti.shape[1]`. */
  datatype BrainAxis = BrainAxis(vertex: seq<int>, voxel: seq<Ijk>, spans: seq<Span>, columns: nat)

  function StopOf(sp: Span, columns: nat): int {
    match sp.stop
    case None => columns
    case Some(e) => e
  }

  predicate InSpan(sp: Span, columns: nat, row: int) {
    sp.start <= row < StopOf(sp, columns)
  }

  /** Span `j` is the first, in iteration order, that contains `row`. */
  predicate FirstSpan(spans: seq<Span>, columns: nat, row: int, j: int) {
    && 0 <= j < |spans|
    && InSpan(spans[j], columns, row)
    && forall i :: 0 <= i < j ==> !InSpan(spans[i], columns, row)
  }

  /** The loop over `iter_structures()` that stops at the first match. */
  function SpanOf(spans: seq<Span>, columns: nat, row: int): (r: Option<nat>)
    ensures r.Some? ==> FirstSpan(spans, columns, row, r.value)
    ensures r.None? <==> forall j :: 0 <= j < |spans| ==> !InSpan(spans[j], columns, row)
    decreases |spans|
  {
    if |spans| == 0 then None
    else if InSpan(spans[0], columns, row) then Some(0)
    else
      var rest := SpanOf(spans[1..], columns, row);
      assert forall j :: 1 <= j < |spans| ==> spans[j] == spans[1..][j - 1];
      match rest
      case None => None
      case Some(j) => Some(j + 1)
  }

  /** `str(structure).split("CIFTI_STRUCTURE_")[1]`: the text between the
      first occurrence of the prefix and the next one; an `IndexError` when
      the name does not contain the prefix. */
  function StructureName(full: string): (r: Result<string>)
    ensures r.Ok? <==> Contains(full, StructurePrefix)
    ensures r.Ok? ==> !Contains(r.value, StructurePrefix)
    ensures r.Err? ==> r.error == IndexError("list index out of range")
  {
    ListAt(Split(full, StructurePrefix), 1)
  }

  /** Stripping undoes prefixing, for names that do not themselves contain
      the prefix. */
  lemma StructureNameStrips(name: string)
    requires !Contains(name, StructurePrefix)
    ensures StructureName(StructurePrefix + name) == Ok(name)
  {
    var full := StructurePrefix + name;
    assert full[0..|StructurePrefix|] == StructurePrefix;
    assert Find(full, StructurePrefix) == Some(0);
    assert full[|StructurePrefix|..] == name;
    assert Split(name, StructurePrefix) == [name];
  }

  /** The error raised for a row outside every span. */
  function RowOutOfBounds(columns: nat): Error {
    IndexError("Row index out of bounds, max row is " + IntToString(columns - 1) + ".")
  }

  /** `get_structure_from_row`: the stripped name of the first span that
      contains the row, or an `IndexError` when none does. */
  function StructureFromRow(ax: BrainAxis, row: int): (r: Result<string>)
    ensures (forall j :: 0 <= j < |ax.spans| ==> !InSpan(ax.spans[j], ax.columns, row))
      ==> r == Err(RowOutOfBounds(ax.columns))
    ensures forall j :: FirstSpan(ax.spans, ax.columns, row, j) ==> r == StructureName(ax.spans[j].name)
  {
    match SpanOf(ax.spans, ax.columns, row)
    case None => Err(RowOutOfBounds(ax.columns))
    case Some(j) =>
      assert forall i :: FirstSpan(ax.spans, ax.columns, row, i) ==> i == j by {
        forall i | FirstSpan(ax.spans, ax.columns, row, i)
          ensures i == j
        {
          FirstSpanUnique(ax.spans, ax.columns, row, i, j);
        }
      }
      StructureName(ax.spans[j].name)
  }

  /** At most one span is the first to contain a row. */
  lemma FirstSpanUnique(spans: seq<Span>, columns: nat, row: int, i: int, j: int)
    requires FirstSpan(spans, columns, row, i) && FirstSpan(spans, columns, row, j)
    ensures i == j
  {
  }

  /** The spans cut `[lo, columns)` into consecutive slices, in order. */
  predicate Tiles(spans: seq<Span>, lo: int, columns: nat)
    decreases |spans|
  {
    if |spans| == 0 then lo == columns
    else
      && spans[0].start == lo
      && lo <= StopOf(spans[0], columns)
      && Tiles(spans[1..], StopOf(spans[0], columns), columns)
  }

  lemma {:induction false} TilesCover(spans: seq<Span>, lo: int, columns: nat, row: int)
    requires Tiles(spans, lo, columns)
    ensures lo <= columns
    ensures SpanOf(spans, columns, row).Some? <==> lo <= row < columns
    decreases |spans|
  {
    if |spans| > 0 {
      TilesCover(spans[1..], StopOf(spans[0], columns), columns, row);
    }
  }

  /** When the spans tile the columns, as the axes of a CIFTI file do, the
      out-of-bounds error is raised exactly for negative rows and rows at or
      past the column count. */
  lemma OutOfBoundsExactly(ax: BrainAxis, row: int)
    requires Tiles(ax.spans, 0, ax.columns)
    ensures StructureFromRow(ax, row) == Err(RowOutOfBounds(ax.columns)) <==> row < 0 || ax.columns <= row
  {
    TilesCover(ax.spans, 0, ax.columns, row);
    var r := StructureFromRow(ax, row);
    if 0 <= row < ax.columns {
      var j := SpanOf(ax.spans, ax.columns, row).value;
      if r.Err? {
        assert r.error == IndexError("list index out of range");
        assert RowOutOfBounds(ax.columns).msg[0] == 'R';
      }
    }
  }

  predicate IsHemisphere(s: string) {
    s == "CORTEX_LEFT" || s == "CORTEX_RIGHT"
  }

  /** `get_hemisphere_from_row`: the structure of the row when it is one of
      the two cortical hemispheres; a `ValueError` for any other structure,
      and the structure lookup's own error otherwise. */
  function HemisphereFromRow(ax: BrainAxis, row: int): (r: Result<string>)
    ensures r.Ok? ==> IsHemisphere(r.value)
    ensures r.Ok? ==> r == StructureFromRow(ax, row)
    ensures StructureFromRow(ax, row).Err? ==> r == StructureFromRow(ax, row)
    ensures StructureFromRow(ax, row).Ok? && !IsHemisphere(StructureFromRow(ax, row).value)
      ==> r == Err(ValueError("Row index is not a hemisphere."))
  {
    var s :- StructureFromRow(ax, row);
    if IsHemisphere(s) then Ok(s) else Err(ValueError("Row index is not a hemisphere."))
  }

  // ---------------------------------------------------------------------
  // Surface, volume and invalid rows
  // ---------------------------------------------------------------------

  datatype RowKind = SurfaceRow(vertex: int) | VolumeRow(voxel: Ijk)

  const InvalidRow := ValueError("Invalid row index.")

  /** The classification at the head of `change_connectivity_active_row`:
      a row with a vertex is a surface row; otherwise its voxel is read, and
      a row with neither is invalid. Subscripts out of range fail as numpy
      does. */
  function Classify(ax: BrainAxis, row: int): (r: Result<RowKind>)
    ensures r == Err(InvalidRow) <==> ArrayAt(ax.vertex, row) == Ok(-1) && ArrayAt(ax.voxel, row) == Ok(NoVoxel)
    ensures (ArrayAt(ax.vertex, row).Ok? && ArrayAt(ax.vertex, row).value != -1)
      <==> r.Ok? && r.value.SurfaceRow?
    ensures r.Ok? && r.value.SurfaceRow? ==> ArrayAt(ax.vertex, row) == Ok(r.value.vertex)
    ensures r.Ok? && r.value.VolumeRow? <==>
      ArrayAt(ax.vertex, row) == Ok(-1) && ArrayAt(ax.voxel, row).Ok? && ArrayAt(ax.voxel, row).value != NoVoxel
    ensures r.Ok? && r.value.VolumeRow? ==> ArrayAt(ax.voxel, row) == Ok(r.value.voxel)
  {
    var v :- ArrayAt(ax.vertex, row);
    if v != -1 then Ok(SurfaceRow(v))
    else
      var c :- ArrayAt(ax.voxel, row);
      if c == NoVoxel then Err(InvalidRow) else Ok(VolumeRow(c))
  }

  // ---------------------------------------------------------------------
  // Scene fields
  // ---------------------------------------------------------------------

  /** An `<Element Index="...">` child of an `ObjectArray`. */
  datatype Element = Element(index: string, text: string)

  /** The scene elements the active-row update can touch, in document
      order; several elements may carry the same name. */
  datatype Node =
    | Object(name: string, text: string)
    | ObjectArray(name: string, elements: seq<Element>)

  /** The `Index` attributes of an array's elements. */
  function Indices(elems: seq<Element>): (ix: seq<string>)
    ensures |ix| == |elems| && forall i :: 0 <= i < |elems| ==> ix[i] == elems[i].index
  {
    seq(|elems|, i requires 0 <= i < |elems| => elems[i].index)
  }

  /** `str(index)` for the three positions of a coordinate tuple. */
  const TupleKeys: seq<string> := ["0", "1", "2"]

  /** How many tuple entries `zip(range(3), value)` writes. */
  function Limit(values: seq<string>): (n: nat)
    ensures n <= 3 && n <= |values| && (n == 3 || n == |values|)
  {
    if |values| < 3 then |values| else 3
  }

  /** The element `element.find("./Element[@Index='m']")` returns. */
  function Slot(elems: seq<Element>, m: nat): Option<nat>
    requires m < 3
  {
    FirstIndexOf(Indices(elems), TupleKeys[m])
  }

  /** The text of the first element with the given index is replaced; when
      there is none, a new element is made but never attached, so nothing
      changes. */
  function SetIndexed(elems: seq<Element>, key: string, text: string): seq<Element> {
    match FirstIndexOf(Indices(elems), key)
    case None => elems
    case Some(p) => elems[p := Element(key, text)]
  }

  /** Slot `m` is written, for some `m` in `k..Limit(values)`, at position `i`. */
  predicate WrittenFrom(elems: seq<Element>, values: seq<string>, k: nat, i: int) {
    exists m :: k <= m < Limit(values) && Slot(elems, m) == Some(i)
  }

  /** Different tuple positions never find the same element. */
  lemma SlotsDistinct(elems: seq<Element>, m1: nat, m2: nat)
    requires m1 < 3 && m2 < 3 && m1 != m2 && Slot(elems, m1).Some?
    ensures Slot(elems, m1) != Slot(elems, m2)
  {
    var p := Slot(elems, m1).value;
    assert Indices(elems)[p] == TupleKeys[m1];
  }

  lemma SetIndexedFacts(elems: seq<Element>, m: nat, text: string)
    requires m < 3
    ensures var next := SetIndexed(elems, TupleKeys[m], text);
      && Indices(next) == Indices(elems)
      && (Slot(elems, m).Some? ==> next[Slot(elems, m).value] == Element(TupleKeys[m], text))
      && forall i :: 0 <= i < |elems| && Slot(elems, m) != Some(i) ==> next[i] == elems[i]
  {
    var next := SetIndexed(elems, TupleKeys[m], text);
    assert Indices(next) == Indices(elems) by {
      match Slot(elems, m)
      case None =>
      case Some(p) =>
        assert Indices(elems)[p] == TupleKeys[m];
    }
  }

  /** One position of the loop, then the rest. */
  lemma WriteTupleStep(elems: seq<Element>, values: seq<string>, k: nat, next: seq<Element>, r: seq<Element>)
    requires k < Limit(values)
    requires next == SetIndexed(elems, TupleKeys[k], values[k])
    requires Indices(r) == Indices(next)
    requires forall m :: k + 1 <= m < Limit(values) && Slot(next, m).Some? ==>
      r[Slot(next, m).value] == Element(TupleKeys[m], values[m])
    requires forall i :: 0 <= i < |next| && !WrittenFrom(next, values, k + 1, i) ==> r[i] == next[i]
    ensures Indices(r) == Indices(elems)
    ensures forall m :: k <= m < Limit(values) && Slot(elems, m).Some? ==>
      r[Slot(elems, m).value] == Element(TupleKeys[m], values[m])
    ensures forall i :: 0 <= i < |elems| && !WrittenFrom(elems, values, k, i) ==> r[i] == elems[i]
  {
    SetIndexedFacts(elems, k, values[k]);
    assert forall m :: 0 <= m < 3 ==> Slot(next, m) == Slot(elems, m);
    if Slot(elems, k).Some? {
      var p := Slot(elems, k).value;
      forall m | k + 1 <= m < Limit(values)
        ensures Slot(next, m) != Some(p)
      {
        SlotsDistinct(elems, k, m);
      }
      assert !WrittenFrom(next, values, k + 1, p);
    }
    forall i | 0 <= i < |elems| && !WrittenFrom(elems, values, k, i)
      ensures r[i] == elems[i]
    {
      assert Slot(elems, k) != Some(i);
      assert !WrittenFrom(next, values, k + 1, i);
    }
  }

  /** The loop of `change_tuple_index_element` from position `k` on: each
      of the first `Limit(values)` positions writes `str(values[m])` to the
      first element with index `m`; no element is added or removed, and
      every element that no position reaches is left alone. */
  function WriteTuple(elems: seq<Element>, values: seq<string>, k: nat): (r: seq<Element>)
    requires k <= 3
    ensures Indices(r) == Indices(elems)
    ensures forall m :: k <= m < Limit(values) && Slot(elems, m).Some? ==>
      r[Slot(elems, m).value] == Element(TupleKeys[m], values[m])
    ensures forall i :: 0 <= i < |elems| && !WrittenFrom(elems, values, k, i) ==> r[i] == elems[i]
    decreases 3 - k
  {
    if k >= Limit(values) then elems
    else
      var next := SetIndexed(elems, TupleKeys[k], values[k]);
      SetIndexedFacts(elems, k, values[k]);
      var r := WriteTuple(next, values, k + 1);
      WriteTupleStep(elems, values, k, next, r);
      r
  }

  /** `change_tuple_index_element(element, value)`. */
  function ChangeTuple(elems: seq<Element>, values: seq<string>): (r: seq<Element>)
    ensures Indices(r) == Indices(elems)
    ensures forall m :: 0 <= m < Limit(values) && Slot(elems, m).Some? ==>
      r[Slot(elems, m).value] == Element(TupleKeys[m], values[m])
    ensures forall i :: 0 <= i < |elems| && !WrittenFrom(elems, values, 0, i) ==> r[i] == elems[i]
  {
    WriteTuple(elems, values, 0)
  }

  /** An array without an element for some written index is not extended:
      the element `makeelement` creates is never attached to the tree. */
  lemma MissingIndexStaysMissing(elems: seq<Element>, values: seq<string>, m: nat)
    requires m < Limit(values) && TupleKeys[m] !in Indices(elems)
    ensures |ChangeTuple(elems, values)| == |elems|
    ensures TupleKeys[m] !in Indices(ChangeTuple(elems, values))
  {
  }

  /** `element.text = text` when the node is an `Object` called `name`. */
  function SetObject(n: Node, name: string, text: string): Node {
    if n.Object? && n.name == name then Object(name, text) else n
  }

  /** `change_tuple_index_element` when the node is an `ObjectArray`
      called `name`. */
  function SetArray(n: Node, name: string, values: seq<string>): Node {
    if n.ObjectArray? && n.name == name then ObjectArray(name, ChangeTuple(n.elements, values)) else n
  }

  /** A `findall(".//Object[@Name=...]")` loop: every `Object` called
      `name` gets the text. */
  function SetObjects(nodes: seq<Node>, name: string, text: string): (r: seq<Node>)
    ensures |r| == |nodes|
    ensures forall i :: 0 <= i < |nodes| && nodes[i].Object? && nodes[i].name == name ==>
      r[i] == Object(name, text)
    ensures forall i :: 0 <= i < |nodes| && !(nodes[i].Object? && nodes[i].name == name) ==>
      r[i] == nodes[i]
  {
    seq(|nodes|, i requires 0 <= i < |nodes| => SetObject(nodes[i], name, text))
  }

  /** A `findall(".//ObjectArray[@Name=...]")` loop: every `ObjectArray`
      called `name` gets the tuple written into it. */
  function SetArrays(nodes: seq<Node>, name: string, values: seq<string>): (r: seq<Node>)
    ensures |r| == |nodes|
    ensures forall i :: 0 <= i < |nodes| && nodes[i].ObjectArray? && nodes[i].name == name ==>
      r[i] == ObjectArray(name, ChangeTuple(nodes[i].elements, values))
    ensures forall i :: 0 <= i < |nodes| && !(nodes[i].ObjectArray? && nodes[i].name == name) ==>
      r[i] == nodes[i]
  {
    seq(|nodes|, i requires 0 <= i < |nodes| => SetArray(nodes[i], name, values))
  }

  /** Writing the same text twice is writing it once. */
  lemma SetObjectsIdempotent(nodes: seq<Node>, name: string, text: string)
    ensures SetObjects(SetObjects(nodes, name, text), name, text) == SetObjects(nodes, name, text)
  {
  }

  /** Writing one name's text leaves every node of another name as it was,
      so loops over different names commute. */
  lemma SetObjectsCommute(nodes: seq<Node>, a: string, ta: string, b: string, tb: string)
    requires a != b
    ensures SetObjects(SetObjects(nodes, a, ta), b, tb) == SetObjects(SetObjects(nodes, b, tb), a, ta)
  {
  }

  /** An update described all at once: the new text of each `Object` name
      and the tuple written into each `ObjectArray` name. */
  datatype Writes = Writes(texts: map<string, string>, tuples: map<string, seq<string>>)

  /** What the writes `w` make of one node. */
  function Apply(n: Node, w: Writes): Node {
    match n
    case Object(name, _) => if name in w.texts then Object(name, w.texts[name]) else n
    case ObjectArray(name, es) => if name in w.tuples then ObjectArray(name, ChangeTuple(es, w.tuples[name])) else n
  }

  /** `after` is `before` with exactly the writes of `w` applied. */
  predicate Applied(before: seq<Node>, after: seq<Node>, w: Writes) {
    |after| == |before| && forall i :: 0 <= i < |before| ==> after[i] == Apply(before[i], w)
  }

  /** The printed result of `apply_affine(affine, voxel)`: x, y, z. */
  datatype Xyz = Xyz(x: string, y: string, z: string)

  function SurfaceWrites(row: int, vertex: int): Writes {
    Writes(
      map["m_rowIndex" := IntToString(row), "m_surfaceVertexIndex" := IntToString(vertex)],
      map["m_surfaceNodeIndices" := [IntToString(vertex)]])
  }

  function VolumeWrites(row: int, voxel: Ijk, xyz: Xyz): Writes {
    Writes(
      map[
        "m_rowIndex" := IntToString(row),
        "m_sliceCoordinateAxial" := xyz.z,
        "m_sliceCoordinateCoronal" := xyz.y,
        "m_sliceCoordinateParasagittal" := xyz.x],
      map[
        "m_voxelIJK" := [IntToString(voxel.i), IntToString(voxel.j), IntToString(voxel.k)],
        "m_volumeXYZ" := [xyz.x, xyz.y, xyz.z],
        "m_stereotaxicXYZ" := [xyz.x, xyz.y, xyz.z]])
  }

  /** The surface branch, loop after loop as the program runs them. */
  function SurfaceUpdate(nodes: seq<Node>, row: int, v: int): seq<Node> {
    var n1 := SetObjects(nodes, "m_rowIndex", IntToString(row));
    var n2 := SetObjects(n1, "m_surfaceVertexIndex", IntToString(v));
    SetArrays(n2, "m_surfaceNodeIndices", [IntToString(v)])
  }

  /** The volume branch, loop after loop as the program runs them. */
  function VolumeUpdate(nodes: seq<Node>, row: int, c: Ijk, xyz: Xyz): seq<Node> {
    var n1 := SetObjects(nodes, "m_rowIndex", IntToString(row));
    var n2 := SetArrays(n1, "m_voxelIJK", [IntToString(c.i), IntToString(c.j), IntToString(c.k)]);
    var n3 := SetArrays(n2, "m_volumeXYZ", [xyz.x, xyz.y, xyz.z]);
    var n4 := SetArrays(n3, "m_stereotaxicXYZ", [xyz.x, xyz.y, xyz.z]);
    var n5 := SetObjects(n4, "m_sliceCoordinateAxial", xyz.z);
    var n6 := SetObjects(n5, "m_sliceCoordinateCoronal", xyz.y);
    SetObjects(n6, "m_sliceCoordinateParasagittal", xyz.x)
  }

  /** The surface loops, run one after another, write each field once:
      together they are the writes `SurfaceWrites` describes. */
  lemma SurfaceUpdateApplied(nodes: seq<Node>, row: int, v: int)
    ensures Applied(nodes, SurfaceUpdate(nodes, row, v), SurfaceWrites(row, v))
  {
    var w := SurfaceWrites(row, v);
    var r := SurfaceUpdate(nodes, row, v);
    forall i | 0 <= i < |nodes|
      ensures r[i] == Apply(nodes[i], w)
    {
      var n := nodes[i];
      assert r[i] == SetArray(SetObject(SetObject(n, "m_rowIndex", IntToString(row)),
        "m_surfaceVertexIndex", IntToString(v)), "m_surfaceNodeIndices", [IntToString(v)]);
    }
  }

  /** The volume loops on one node. */
  lemma VolumeNode(n: Node, row: int, c: Ijk, xyz: Xyz)
    ensures var ijk := [IntToString(c.i), IntToString(c.j), IntToString(c.k)];
      var t := [xyz.x, xyz.y, xyz.z];
      var m1 := SetObject(n, "m_rowIndex", IntToString(row));
      var m2 := SetArray(m1, "m_voxelIJK", ijk);
      var m3 := SetArray(m2, "m_volumeXYZ", t);
      var m4 := SetArray(m3, "m_stereotaxicXYZ", t);
      var m5 := SetObject(m4, "m_sliceCoordinateAxial", xyz.z);
      var m6 := SetObject(m5, "m_sliceCoordinateCoronal", xyz.y);
      SetObject(m6, "m_sliceCoordinateParasagittal", xyz.x) == Apply(n, VolumeWrites(row, c, xyz))
  {
    var w := VolumeWrites(row, c, xyz);
    match n
    case Object(name, _) =>
      if name in w.texts {
        assert name == "m_rowIndex" || name == "m_sliceCoordinateAxial"
          || name == "m_sliceCoordinateCoronal" || name == "m_sliceCoordinateParasagittal";
      }
    case ObjectArray(name, _) =>
      if name in w.tuples {
        assert name == "m_voxelIJK" || name == "m_volumeXYZ" || name == "m_stereotaxicXYZ";
      }
  }

  /** The volume loops, run one after another, write each field once:
      together they are the writes `VolumeWrites` describes. */
  lemma VolumeUpdateApplied(nodes: seq<Node>, row: int, c: Ijk, xyz: Xyz)
    ensures Applied(nodes, VolumeUpdate(nodes, row, c, xyz), VolumeWrites(row, c, xyz))
  {
    forall i | 0 <= i < |nodes|
      ensures VolumeUpdate(nodes, row, c, xyz)[i] == Apply(nodes[i], VolumeWrites(row, c, xyz))
    {
      VolumeNode(nodes[i], row, c, xyz);
    }
  }

  /** `change_connectivity_active_row(row)`, with `affine` standing for the
      affine transform of the CIFTI file and its printing. A surface row
      rewrites the row index, the surface vertex and node 0 of the node
      indices; a volume row rewrites the row index, the voxel, both XYZ
      tuples and the three slice coordinates (axial from z, coronal from y,
      parasagittal from x). Nothing else changes, and an invalid row changes
      nothing. */
  function ActivateRow(nodes: seq<Node>, ax: BrainAxis, affine: Ijk -> Xyz, row: int): (r: Result<seq<Node>>)
    ensures r.Ok? <==> Classify(ax, row).Ok?
    ensures r.Err? ==> r.error == Classify(ax, row).error
    ensures Classify(ax, row).Ok? && Classify(ax, row).value.SurfaceRow? ==>
      Applied(nodes, r.value, SurfaceWrites(row, Classify(ax, row).value.vertex))
    ensures Classify(ax, row).Ok? && Classify(ax, row).value.VolumeRow? ==>
      var c := Classify(ax, row).value.voxel;
      Applied(nodes, r.value, VolumeWrites(row, c, affine(c)))
  {
    var kind :- Classify(ax, row);
    match kind
    case SurfaceRow(v) =>
      SurfaceUpdateApplied(nodes, row, v);
      Ok(SurfaceUpdate(nodes, row, v))
    case VolumeRow(c) =>
      VolumeUpdateApplied(nodes, row, c, affine(c));
      Ok(VolumeUpdate(nodes, row, c, affine(c)))
  }

  /** The names only a volume row writes. */
  const VolumeOnly: set<string> := {
    "m_voxelIJK", "m_volumeXYZ", "m_stereotaxicXYZ",
    "m_sliceCoordinateAxial", "m_sliceCoordinateCoronal", "m_sliceCoordinateParasagittal"}

  /** A surface row leaves every voxel, XYZ and slice field as it was. */
  lemma SurfaceLeavesVolumeFields(nodes: seq<Node>, ax: BrainAxis, affine: Ijk -> Xyz, row: int, i: int)
    requires Classify(ax, row).Ok? && Classify(ax, row).value.SurfaceRow?
    requires 0 <= i < |nodes| && nodes[i].name in VolumeOnly
    ensures ActivateRow(nodes, ax, affine, row).value[i] == nodes[i]
  {
  }

  /** A volume row leaves the surface vertex and node fields as they were. */
  lemma VolumeLeavesSurfaceFields(nodes: seq<Node>, ax: BrainAxis, affine: Ijk -> Xyz, row: int, i: int)
    requires Classify(ax, row).Ok? && Classify(ax, row).value.VolumeRow?
    requires 0 <= i < |nodes| && (nodes[i].name == "m_surfaceVertexIndex" || nodes[i].name == "m_surfaceNodeIndices")
    ensures ActivateRow(nodes, ax, affine, row).value[i] == nodes[i]
  {
  }

  // ---------------------------------------------------------------------
  // Data files named by the scene
  // ---------------------------------------------------------------------

  /** The path element has a text that ends with `ext`. */
  predicate HasExt(p: Option<string>, ext: string) {
    p.Some? && EndsWith(p.value, ext)
  }

  /** Path `i` is the first with the extension. */
  predicate FirstWithExt(paths: seq<Option<string>>, ext: string, i: int) {
    0 <= i < |paths| && HasExt(paths[i], ext) && forall j :: 0 <= j < i ==> !HasExt(paths[j], ext)
  }

  /** An `Object` of type `pathName` in the scene, in document order: its
      `Name` attribute and its text, if any. */
  datatype PathObject = PathObject(name: string, text: Option<string>)

  /** The `Name` values `get_path_elements` looks for, in the order it
      concatenates their `findall` results. */
  const PathNames: seq<string> := ["dataFileName_V2", "fileName", "m_selectedSurfacePathName", "primaryAnatomicalSurface"]

  /** One `findall`: the texts of the objects called `name`, in document
      order. */
  function Named(objs: seq<PathObject>, name: string): (r: seq<Option<string>>)
    ensures |r| <= |objs|
    ensures forall k :: 0 <= k < |r| ==> PathObject(name, r[k]) in objs
    ensures forall o :: o in objs && o.name == name ==> o.text in r
    decreases |objs|
  {
    if |objs| == 0 then []
    else
      var rest := Named(objs[1..], name);
      assert forall o :: o in objs[1..] ==> o in objs;
      assert forall o :: o in objs && o != objs[0] ==> o in objs[1..];
      if objs[0].name == name then [objs[0].text] + rest else rest
  }

  /** A `findall` works object by object: the matches among two runs of
      objects are those of the first run followed by those of the second. */
  lemma {:induction false} NamedAppend(a: seq<PathObject>, b: seq<PathObject>, name: string)
    ensures Named(a + b, name) == Named(a, name) + Named(b, name)
    decreases |a|
  {
    if |a| == 0 {
      assert a + b == b;
    } else {
      assert (a + b)[0] == a[0];
      assert (a + b)[1..] == a[1..] + b;
      NamedAppend(a[1..], b, name);
    }
  }

  /** One object matches exactly when it has the name. */
  lemma NamedOne(o: PathObject, name: string)
    ensures Named([o], name) == if o.name == name then [o.text] else []
  {
    assert [o][1..] == [];
  }

  /** `get_path_elements`: the objects grouped by name, in the order of
      `PathNames`, and in document order within each group. Objects with
      any other name are not path elements. */
  function PathElements(objs: seq<PathObject>): (r: seq<Option<string>>)
    ensures r == Named(objs, PathNames[0]) + Named(objs, PathNames[1]) + Named(objs, PathNames[2]) + Named(objs, PathNames[3])
    ensures forall o :: o in objs && o.name in PathNames ==> o.text in r
    ensures forall k :: 0 <= k < |r| ==> exists o :: o in objs && o.name in PathNames && o.text == r[k]
  {
    var r := Named(objs, PathNames[0]) + Named(objs, PathNames[1]) + Named(objs, PathNames[2]) + Named(objs, PathNames[3]);
    assert forall k :: 0 <= k < |r| ==> exists o :: o in objs && o.name in PathNames && o.text == r[k] by {
      forall k | 0 <= k < |r|
        ensures exists o :: o in objs && o.name in PathNames && o.text == r[k]
      {
        FromGroups(objs, r[k]);
      }
    }
    r
  }

  /** A text found by one of the four `findall`s belongs to an object with
      one of the four names. */
  lemma FromGroups(objs: seq<PathObject>, x: Option<string>)
    requires x in Named(objs, PathNames[0]) + Named(objs, PathNames[1]) + Named(objs, PathNames[2]) + Named(objs, PathNames[3])
    ensures exists o :: o in objs && o.name in PathNames && o.text == x
  {
    var n :| 0 <= n < 4 && x in Named(objs, PathNames[n]);
    var k :| 0 <= k < |Named(objs, PathNames[n])| && Named(objs, PathNames[n])[k] == x;
    assert PathObject(PathNames[n], x) in objs;
  }

  /** The files with an extension are searched group by group: first all
      `dataFileName_V2` paths, then `fileName`, `m_selectedSurfacePathName`
      and `primaryAnatomicalSurface`, each group in document order. */
  lemma FilesGrouped(objs: seq<PathObject>, ext: string)
    ensures Files(PathElements(objs), ext) ==
      Files(Named(objs, PathNames[0]), ext) + Files(Named(objs, PathNames[1]), ext)
      + Files(Named(objs, PathNames[2]), ext) + Files(Named(objs, PathNames[3]), ext)
  {
    var g0 := Named(objs, PathNames[0]);
    var g1 := Named(objs, PathNames[1]);
    var g2 := Named(objs, PathNames[2]);
    var g3 := Named(objs, PathNames[3]);
    FilesAppend(g0 + g1 + g2, g3, ext);
    FilesAppend(g0 + g1, g2, ext);
    FilesAppend(g0, g1, ext);
  }

  /** The grouping beats document order: a `fileName` series that comes
      first in the document loses to a later `dataFileName_V2` series. */
  lemma GroupOrderWins(a: string, b: string)
    requires EndsWith(a, ".dtseries.nii") && EndsWith(b, ".dtseries.nii")
    ensures var objs := [PathObject("fileName", Some(a)), PathObject("dataFileName_V2", Some(b))];
      CiftiFile(PathElements(objs)) == Ok(b)
  {
    var objs := [PathObject("fileName", Some(a)), PathObject("dataFileName_V2", Some(b))];
    assert objs[1..][1..] == [];
    assert Named(objs, PathNames[0]) == [Some(b)];
    assert Named(objs, PathNames[1]) == [Some(a)];
    assert Named(objs, PathNames[2]) == [];
    assert Named(objs, PathNames[3]) == [];
    assert PathElements(objs) == [Some(b), Some(a)];
    assert FirstWithExt([Some(b), Some(a)], ".dtseries.nii", 0);
  }

  /** `get_files(ext)` over the texts of the scene's path elements, in the
      order `get_path_elements` lists them: the texts ending with `ext`. */
  function Files(paths: seq<Option<string>>, ext: string): (r: seq<string>)
    ensures |r| <= |paths|
    ensures forall k :: 0 <= k < |r| ==> EndsWith(r[k], ext)
    ensures |r| > 0 <==> exists i :: 0 <= i < |paths| && HasExt(paths[i], ext)
    ensures forall i :: FirstWithExt(paths, ext, i) ==> r[0] == paths[i].value
    ensures forall k :: 0 <= k < |r| ==> Some(r[k]) in paths
    decreases |paths|
  {
    if |paths| == 0 then []
    else
      var rest := Files(paths[1..], ext);
      assert forall j :: 1 <= j < |paths| ==> paths[j] == paths[1..][j - 1];
      assert forall x :: x in paths[1..] ==> x in paths;
      if HasExt(paths[0], ext) then [paths[0].value] + rest else rest
  }

  /** The search works path by path: the matches among two runs of paths
      are those of the first run followed by those of the second. */
  lemma {:induction false} FilesAppend(a: seq<Option<string>>, b: seq<Option<string>>, ext: string)
    ensures Files(a + b, ext) == Files(a, ext) + Files(b, ext)
    decreases |a|
  {
    if |a| == 0 {
      assert a + b == b;
    } else {
      assert (a + b)[0] == a[0];
      assert (a + b)[1..] == a[1..] + b;
      FilesAppend(a[1..], b, ext);
    }
  }

  /** One path matches exactly when it has text ending with the extension. */
  lemma FilesOne(p: Option<string>, ext: string)
    ensures Files([p], ext) == if HasExt(p, ext) then [p.value] else []
  {
    assert [p][1..] == [];
  }

  const NoCifti := ValueError("No CIFTI files found in Scene file.")

  /** `get_cifti_file`: the first dense time series, otherwise the first
      dense connectome, otherwise a `ValueError`. */
  function CiftiFile(paths: seq<Option<string>>): (r: Result<string>)
    ensures forall i :: FirstWithExt(paths, ".dtseries.nii", i) ==> r == Ok(paths[i].value)
    ensures (forall i :: 0 <= i < |paths| ==> !HasExt(paths[i], ".dtseries.nii")) ==>
      forall i :: FirstWithExt(paths, ".dconn.nii", i) ==> r == Ok(paths[i].value)
    ensures r == Err(NoCifti) <==>
      forall i :: 0 <= i < |paths| ==> !HasExt(paths[i], ".dtseries.nii") && !HasExt(paths[i], ".dconn.nii")
    ensures r.Err? ==> r.error == NoCifti
  {
    var series := Files(paths, ".dtseries.nii");
    var files := if |series| == 0 then Files(paths, ".dconn.nii") else series;
    if |files| == 0 then Err(NoCifti) else Ok(files[0])
  }
}
