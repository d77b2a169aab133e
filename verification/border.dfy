/** Reading a Workbench border file (wbsurfer/border.py). The XML parsing
    itself is not modelled: a border document is given as its root
    element's attributes and the text of each `Vertices` element below the
    root, in document order (`None` for an element without text). */
module Border {
  import opened Outcomes
  import opened PyStr

  datatype BorderDoc = BorderDoc(attributes: map<string, string>, vertices: seq<Option<string>>)

  const MissingVertices := ValueError("Vertices node not found.")
  const EmptyBorder := ValueError("Border file is empty.")

  /** `root.attrib["Structure"]`. */
  function GetStructure(doc: BorderDoc): (r: Result<string>)
    ensures r.Ok? <==> "Structure" in doc.attributes
    ensures r.Ok? ==> r.value == doc.attributes["Structure"]
    ensures r.Err? ==> r.error == KeyError("Structure")
  {
    if "Structure" in doc.attributes then Ok(doc.attributes["Structure"])
    else Err(KeyError("Structure"))
  }

  /** `line.split(" ")[0]`: the longest prefix without a space, which is
      followed by a space unless it is the whole line. */
  function FirstToken(line: string): (t: string)
    ensures !Contains(t, " ")
    ensures |t| <= |line| && line[..|t|] == t
    ensures |t| < |line| ==> line[|t|] == ' '
  {
    SplitHead(line, " ");
    assert Find(line, " ").Some? ==> line[Find(line, " ").value] == ' ' by {
      if Find(line, " ").Some? {
        var i := Find(line, " ").value;
        assert line[i..i + 1] == " ";
      }
    }
    Split(line, " ")[0]
  }

  /** The lines that are not exactly `""`, in order. */
  function NonEmpty(lines: seq<string>): (r: seq<string>)
    ensures |r| <= |lines|
    ensures forall k :: 0 <= k < |r| ==> r[k] != "" && r[k] in lines
    ensures forall k :: 0 <= k < |lines| && lines[k] != "" ==> lines[k] in r
    decreases |lines|
  {
    if |lines| == 0 then []
    else
      var rest := NonEmpty(lines[1..]);
      assert forall k :: 1 <= k < |lines| ==> lines[k] == lines[1..][k - 1];
      if lines[0] == "" then rest else [lines[0]] + rest
  }

  /** Filtering works line by line: the kept lines of two pieces of text
      are those of the first piece followed by those of the second. */
  lemma {:induction false} NonEmptyAppend(a: seq<string>, b: seq<string>)
    ensures NonEmpty(a + b) == NonEmpty(a) + NonEmpty(b)
    decreases |a|
  {
    if |a| == 0 {
      assert a + b == b;
    } else {
      assert (a + b)[0] == a[0];
      assert (a + b)[1..] == a[1..] + b;
      NonEmptyAppend(a[1..], b);
    }
  }

  /** One line is kept exactly when it is not empty. */
  lemma NonEmptyLine(line: string)
    ensures NonEmpty([line]) == if line == "" then [] else [line]
  {
    assert [line][1..] == [];
  }

  /** The comprehension of `get_vertices` over the lines of the text: one
      space-free token per non-empty line. */
  function FirstTokens(lines: seq<string>): (r: seq<string>)
    ensures |r| == |NonEmpty(lines)|
    ensures forall k :: 0 <= k < |r| ==> r[k] == FirstToken(NonEmpty(lines)[k])
    ensures forall k :: 0 <= k < |r| ==> !Contains(r[k], " ")
  {
    var ne := NonEmpty(lines);
    seq(|ne|, k requires 0 <= k < |ne| => FirstToken(ne[k]))
  }

  /** The tokens of two pieces of text are those of the first piece
      followed by those of the second. */
  lemma FirstTokensAppend(a: seq<string>, b: seq<string>)
    ensures FirstTokens(a + b) == FirstTokens(a) + FirstTokens(b)
  {
    NonEmptyAppend(a, b);
    var r := FirstTokens(a + b);
    var ra := FirstTokens(a);
    var rb := FirstTokens(b);
    forall k | 0 <= k < |r|
      ensures r[k] == (ra + rb)[k]
    {
      if k >= |ra| {
        assert NonEmpty(a + b)[k] == NonEmpty(b)[k - |ra|];
      }
    }
  }

  /** An empty line yields no token; any other line yields its first token. */
  lemma FirstTokensLine(line: string)
    ensures FirstTokens([line]) == if line == "" then [] else [FirstToken(line)]
  {
    NonEmptyLine(line);
  }

  /** `get_vertices`: the first Vertices element's text split into lines,
      empty lines skipped, and each kept line cut at its first space. */
  function GetVertices(doc: BorderDoc): (r: Result<seq<string>>)
    ensures |doc.vertices| == 0 ==> r == Err(MissingVertices)
    ensures |doc.vertices| > 0 && doc.vertices[0].None? ==> r == Err(EmptyBorder)
    ensures r.Ok? <==> |doc.vertices| > 0 && doc.vertices[0].Some?
    ensures r.Ok? ==> r.value == FirstTokens(Split(doc.vertices[0].value, "\n"))
  {
    if |doc.vertices| == 0 then Err(MissingVertices)
    else match doc.vertices[0]
      case None => Err(EmptyBorder)
      case Some(text) => Ok(FirstTokens(Split(text, "\n")))
  }

  /** The `data` property: the structure followed by the vertices. The
      structure is read first, so its `KeyError` wins over a vertices
      error. */
  function Data(doc: BorderDoc): (r: Result<seq<string>>)
    ensures r.Ok? <==> GetStructure(doc).Ok? && GetVertices(doc).Ok?
    ensures r.Ok? ==> |r.value| == 1 + |GetVertices(doc).value|
    ensures r.Ok? ==> r.value[0] == GetStructure(doc).value && r.value[1..] == GetVertices(doc).value
    ensures GetStructure(doc).Err? ==> r == Err(KeyError("Structure"))
    ensures GetStructure(doc).Ok? && GetVertices(doc).Err? ==> r == Err(GetVertices(doc).error)
  {
    var structure :- GetStructure(doc);
    var vertices :- GetVertices(doc);
    Ok([structure] + vertices)
  }

  // ---------------------------------------------------------------------
  // Properties
  // ---------------------------------------------------------------------

  /** A token without spaces, then a space and anything, gives back the token. */
  lemma TokenThenSpace(t: string, rest: string)
    requires NoChar(t, ' ')
    ensures FirstToken(t + " " + rest) == t
  {
    CharFree(t, ' ');
    FindAfterPiece(t, " ", rest);
    SplitHead(t + " " + rest, " ");
    assert (t + " " + rest)[..|t|] == t;
  }

  /** An indented line yields the empty token. */
  lemma IndentedLineIsEmpty(line: string)
    requires |line| > 0 && line[0] == ' '
    ensures FirstToken(line) == ""
  {
  }

  /** The lines of a border file's Vertices text: each vertex token
      followed by a space and the rest of its line. */
  function VertexLines(tokens: seq<string>, rests: seq<string>): (lines: seq<string>)
    requires |tokens| == |rests|
    ensures |lines| == |tokens|
  {
    seq(|tokens|, k requires 0 <= k < |tokens| => tokens[k] + " " + rests[k])
  }

  predicate NoChar(s: string, c: char) {
    forall i :: 0 <= i < |s| ==> s[i] != c
  }

  lemma LineFree(t: string, rest: string)
    requires NoChar(t, '\n') && NoChar(rest, '\n')
    ensures !Contains(t + " " + rest, "\n")
  {
    var line := t + " " + rest;
    forall i | 0 <= i < |line|
      ensures line[i] != '\n'
    {
      if i < |t| {
        assert line[i] == t[i];
      } else if i > |t| {
        assert line[i] == rest[i - |t| - 1];
      }
    }
    CharFree(line, '\n');
  }

  /** The Vertices text: the vertex lines framed by a leading and a
      trailing newline. */
  function VertexText(tokens: seq<string>, rests: seq<string>): string
    requires |tokens| == |rests|
  {
    Join([""] + VertexLines(tokens, rests) + [""], "\n")
  }

  predicate WellFormedLines(tokens: seq<string>, rests: seq<string>) {
    && |tokens| == |rests|
    && (forall k :: 0 <= k < |tokens| ==> NoChar(tokens[k], ' ') && NoChar(tokens[k], '\n'))
    && (forall k :: 0 <= k < |rests| ==> NoChar(rests[k], '\n'))
  }

  lemma SplitVertexText(tokens: seq<string>, rests: seq<string>)
    requires WellFormedLines(tokens, rests)
    ensures Split(VertexText(tokens, rests), "\n") == [""] + VertexLines(tokens, rests) + [""]
  {
    var lines := VertexLines(tokens, rests);
    var all := [""] + lines + [""];
    forall k | 0 <= k < |all|
      ensures !Contains(all[k], "\n")
    {
      if 1 <= k <= |lines| {
        assert all[k] == tokens[k - 1] + " " + rests[k - 1];
        LineFree(tokens[k - 1], rests[k - 1]);
      } else {
        CharFree(all[k], '\n');
      }
    }
    SplitJoin(all, "\n");
  }

  lemma VertexTokens(tokens: seq<string>, rests: seq<string>)
    requires WellFormedLines(tokens, rests)
    ensures FirstTokens([""] + VertexLines(tokens, rests) + [""]) == tokens
  {
    var lines := VertexLines(tokens, rests);
    var all := [""] + lines + [""];
    assert NonEmpty(all) == lines by {
      assert all[1..] == lines + [""];
      NonEmptyAppendBlank(lines);
    }
    forall k | 0 <= k < |tokens|
      ensures FirstToken(lines[k]) == tokens[k]
    {
      TokenThenSpace(tokens[k], rests[k]);
    }
  }

  /** A border file whose Vertices text is one line per vertex, each
      starting with the vertex token followed by a space (and framed by a
      leading and trailing newline), gives back the structure and exactly
      those tokens. */
  lemma DataRoundTrip(structure: string, tokens: seq<string>, rests: seq<string>)
    requires WellFormedLines(tokens, rests)
    ensures Data(BorderDoc(map["Structure" := structure], [Some(VertexText(tokens, rests))])) == Ok([structure] + tokens)
  {
    SplitVertexText(tokens, rests);
    VertexTokens(tokens, rests);
  }

  lemma {:induction false} NonEmptyAppendBlank(lines: seq<string>)
    requires forall k :: 0 <= k < |lines| ==> lines[k] != ""
    ensures NonEmpty(lines + [""]) == lines
    decreases |lines|
  {
    if |lines| == 0 {
      assert NonEmpty([""]) == [];
    } else {
      assert (lines + [""])[1..] == lines[1..] + [""];
      NonEmptyAppendBlank(lines[1..]);
    }
  }
}
