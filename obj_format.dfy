/**
 * The token and index logic of the Wavefront OBJ reader. A line is split into tokens
 * the way repeated `std::getline` with a delimiter splits a string stream; the first
 * token selects what the line adds to the reader's arrays. Number parsing (`atof`,
 * `atoi`) is supplied by the caller as two functions.
 */
module ObjFormats {
  import opened Wrappers
  import opened Geometry
  import opened Meshes
  import opened CppInts

  // ---------------------------------------------------------------- splitting

  /** The characters after the last delimiter of `s`: the piece still being read. */
  function Current(s: string, d: char): (r: string)
    ensures d !in r
    ensures r == "" <==> (|s| == 0 || s[|s| - 1] == d)
    decreases |s|
  {
    if |s| == 0 then ""
    else if s[|s| - 1] == d then ""
    else Current(s[..|s| - 1], d) + [s[|s| - 1]]
  }

  /** The pieces of `s` that a delimiter has closed, empty ones included, in order. */
  function Done(s: string, d: char): (r: seq<string>)
    decreases |s|
  {
    if |s| == 0 then []
    else if s[|s| - 1] == d then Done(s[..|s| - 1], d) + [Current(s[..|s| - 1], d)]
    else Done(s[..|s| - 1], d)
  }

  /** `done` and then `last`, with one delimiter between neighbours. */
  function JoinWith(done: seq<string>, last: string, d: char): string
    decreases |done|
  {
    if |done| == 0 then last else JoinWith(done[..|done| - 1], done[|done| - 1], d) + [d] + last
  }

  /** A non-empty list of pieces glued together with the delimiter. */
  function Join(pieces: seq<string>, d: char): string
    requires |pieces| >= 1
  {
    JoinWith(pieces[..|pieces| - 1], pieces[|pieces| - 1], d)
  }

  lemma JoinWithAppend(done: seq<string>, last: string, c: char, d: char)
    ensures JoinWith(done, last + [c], d) == JoinWith(done, last, d) + [c]
  {
  }

  /** Splitting loses nothing: the closed pieces and the current one, joined, give the string back. */
  lemma {:induction false} JoinPieces(s: string, d: char)
    ensures JoinWith(Done(s, d), Current(s, d), d) == s
    decreases |s|
  {
    if |s| > 0 {
      var front := s[..|s| - 1];
      JoinPieces(front, d);
      assert s == front + [s[|s| - 1]];
      if s[|s| - 1] == d {
        var done := Done(front, d) + [Current(front, d)];
        assert done[..|done| - 1] == Done(front, d);
      } else {
        JoinWithAppend(Done(front, d), Current(front, d), s[|s| - 1], d);
      }
    }
  }

  /** No closed piece contains the delimiter. */
  lemma {:induction false} DoneHasNoDelimiter(s: string, d: char)
    ensures forall t :: t in Done(s, d) ==> d !in t
    decreases |s|
  {
    if |s| > 0 {
      DoneHasNoDelimiter(s[..|s| - 1], d);
    }
  }

  /** What the getline loop reads: every piece, except a final empty one. */
  function GetlinePieces(s: string, d: char): seq<string> {
    if Current(s, d) == "" then Done(s, d) else Done(s, d) + [Current(s, d)]
  }

  /** The tokens kept, in order: all of them, or only the non-empty ones when stripping. */
  function Kept(tokens: seq<string>, strip: bool): (r: seq<string>)
    ensures |r| <= |tokens|
    ensures !strip ==> r == tokens
    decreases |tokens|
  {
    if |tokens| == 0 then []
    else
      var last := tokens[|tokens| - 1];
      Kept(tokens[..|tokens| - 1], strip) + (if !strip || |last| > 0 then [last] else [])
  }

  /** Keeping drops only empty pieces and invents none. */
  lemma {:induction false} KeptMembers(tokens: seq<string>, strip: bool)
    ensures forall t :: t in Kept(tokens, strip) ==> t in tokens
    ensures strip ==> forall t :: t in Kept(tokens, strip) ==> |t| > 0
    ensures forall t :: t in tokens && |t| > 0 ==> t in Kept(tokens, strip)
    decreases |tokens|
  {
    if |tokens| > 0 {
      var front := tokens[..|tokens| - 1];
      var last := tokens[|tokens| - 1];
      KeptMembers(front, strip);
      assert tokens == front + [last];
      MembersSnoc(front, last);
      var kept := Kept(front, strip);
      if !strip || |last| > 0 {
        MembersSnoc(kept, last);
      }
    }
  }

  lemma MembersSnoc(s: seq<string>, x: string)
    ensures forall t :: t in s + [x] <==> t in s || t == x
  {
  }

  /** The tokens TokenizeLine appends for `line`. */
  function Tokens(line: string, d: char, strip: bool): seq<string> {
    Kept(GetlinePieces(line, d), strip)
  }

  /**
   * No token holds the delimiter; stripping leaves no empty token; without stripping,
   * the tokens joined by the delimiter give back the line, less one trailing delimiter.
   */
  lemma TokensProperties(line: string, d: char, strip: bool)
    ensures forall t :: t in Tokens(line, d, strip) ==> d !in t
    ensures strip ==> forall t :: t in Tokens(line, d, strip) ==> |t| > 0
    ensures |line| > 0 && line[|line| - 1] != d ==> Join(Tokens(line, d, false), d) == line
    ensures |line| > 0 && line[|line| - 1] == d ==> Join(Tokens(line, d, false), d) + [d] == line
    ensures |line| == 0 ==> Tokens(line, d, strip) == []
  {
    DoneHasNoDelimiter(line, d);
    JoinPieces(line, d);
    KeptMembers(GetlinePieces(line, d), strip);
    var done := Done(line, d);
    var cur := Current(line, d);
    if |line| > 0 && line[|line| - 1] != d {
      assert (done + [cur])[..|done|] == done;
    }
    if |line| > 0 && line[|line| - 1] == d {
      var front := line[..|line| - 1];
      JoinPieces(front, d);
      assert done == Done(front, d) + [Current(front, d)];
      assert done[..|done| - 1] == Done(front, d);
      assert line == front + [d];
    }
  }

  /**
   * TokenizeLine: appends the tokens of `line` to `tokenArray`, in order, keeping the
   * tokens already there.
   */
  method TokenizeLine(line: string, delimeter: char, tokenArray: seq<string>, stripEmptyTokens: bool)
    returns (tokenArray': seq<string>)
    ensures tokenArray' == tokenArray + Tokens(line, delimeter, stripEmptyTokens)
  {
    var token;
    tokenArray', token := ReadPieces(line, delimeter, tokenArray, stripEmptyTokens);
    LastStep(line, delimeter, stripEmptyTokens);
    ghost var kept := Kept(Done(line, delimeter), stripEmptyTokens);
    if |token| > 0 {
      AppendAssoc(tokenArray, kept, [token]);
      tokenArray' := tokenArray' + [token];
    } else {
      assert kept + [] == kept;
    }
  }

  /** The getline loop up to the end of the line: closed pieces are emitted, the last one is left in `token`. */
  method ReadPieces(line: string, delimeter: char, tokenArray: seq<string>, stripEmptyTokens: bool)
    returns (tokenArray': seq<string>, token: string)
    ensures tokenArray' == tokenArray + Kept(Done(line, delimeter), stripEmptyTokens)
    ensures token == Current(line, delimeter)
  {
    tokenArray' := tokenArray;
    token := "";
    var i := 0;
    while i < |line|
      invariant 0 <= i <= |line|
      invariant tokenArray' == tokenArray + Kept(Done(line[..i], delimeter), stripEmptyTokens)
      invariant token == Current(line[..i], delimeter)
    {
      ReadStep(line, i, delimeter, stripEmptyTokens);
      if line[i] == delimeter {
        if !stripEmptyTokens || |token| > 0 {
          AppendAssoc(tokenArray, Kept(Done(line[..i], delimeter), stripEmptyTokens), [token]);
          tokenArray' := tokenArray' + [token];
        }
        token := "";
      } else {
        token := token + [line[i]];
      }
      i := i + 1;
    }
    assert line[..i] == line;
  }

  lemma AppendAssoc(a: seq<string>, b: seq<string>, c: seq<string>)
    ensures a + (b + c) == (a + b) + c
  {
  }

  /** At the end of the line the current piece is read only when it is not empty. */
  lemma LastStep(line: string, d: char, strip: bool)
    ensures Tokens(line, d, strip) ==
      Kept(Done(line, d), strip) + (if |Current(line, d)| > 0 then [Current(line, d)] else [])
  {
    var done := Done(line, d);
    var token := Current(line, d);
    if |token| > 0 {
      assert (done + [token])[..|done|] == done;
    }
  }

  /** One character more: a delimiter closes the current piece, anything else extends it. */
  lemma ReadStep(line: string, i: nat, d: char, strip: bool)
    requires i < |line|
    ensures line[i] == d ==> (
      Current(line[..i + 1], d) == "" &&
      Kept(Done(line[..i + 1], d), strip) ==
        Kept(Done(line[..i], d), strip) + (if !strip || |Current(line[..i], d)| > 0 then [Current(line[..i], d)] else []))
    ensures line[i] != d ==> (
      Current(line[..i + 1], d) == Current(line[..i], d) + [line[i]] &&
      Done(line[..i + 1], d) == Done(line[..i], d))
  {
    assert line[..i + 1][..i] == line[..i];
    if line[i] == d {
      var done := Done(line[..i], d) + [Current(line[..i], d)];
      assert done[..|done| - 1] == Done(line[..i], d);
    }
  }

  // ---------------------------------------------------------------- index resolution

  /**
   * The array position an OBJ index names in an array of n > 0 entries: 1-based
   * indices count from the front, negative ones from the back, 0 means the first
   * entry, and anything out of range is clamped to the nearest end.
   */
  function ResolvedIndex(n: nat, i: int): (k: nat)
    requires n > 0
    ensures k < n
    ensures 1 <= i <= n ==> k == i - 1
    ensures i < 0 && n + i >= 0 ==> k == n + i
    ensures i == 0 ==> k == 0
    ensures i > n ==> k == n - 1
    ensures n + i < 0 ==> k == 0
  {
    var j := if i > 0 then i - 1 else if i < 0 then n + i else i;
    if j < 0 then 0 else if j >= n then n - 1 else j
  }

  /**
   * LookupAndAssign: `result` is replaced by the entry index `i` resolves to, and left
   * alone when the array is empty or the index field was missing (INT_MAX).
   */
  function LookupAndAssign(vectorArray: seq<Vec3>, i: Int32, result: Vec3): (r: Vec3)
    ensures |vectorArray| == 0 || i == INT_MAX ==> r == result
    ensures |vectorArray| > 0 && i != INT_MAX ==> r in vectorArray
    ensures i != INT_MAX && 1 <= i <= |vectorArray| ==> r == vectorArray[i - 1]
    ensures i < 0 && |vectorArray| + i >= 0 ==> r == vectorArray[|vectorArray| + i]
  {
    if |vectorArray| > 0 && i != INT_MAX then vectorArray[ResolvedIndex(|vectorArray|, i)] else result
  }

  /** The index written in field k of a face vertex, INT_MAX when the field is missing or empty. */
  function FieldIndex(fields: seq<string>, k: nat, atoi: string -> Int32): (i: Int32)
    ensures (|fields| <= k || |fields[k]| == 0) ==> i == INT_MAX
    ensures |fields| > k && |fields[k]| > 0 ==> i == atoi(fields[k])
  {
    if |fields| > k && |fields[k]| > 0 then atoi(fields[k]) else INT_MAX
  }

  /** The number of tokens of a face line that are not the keyword "f". */
  function NotKeyword(tokens: seq<string>): (n: nat)
    ensures n == |tokens| - multiset(tokens)["f"]
    decreases |tokens|
  {
    if |tokens| == 0 then 0
    else
      var front := tokens[..|tokens| - 1];
      assert tokens == front + [tokens[|tokens| - 1]];
      NotKeyword(front) + (if tokens[|tokens| - 1] == "f" then 0 else 1)
  }

  // ---------------------------------------------------------------- the reader's state

  /** `Vec3(x, y, z)` from tokens 1..3 of a "v", "vt" or "vn" line, 0 for each one missing. */
  function VectorFrom(tokens: seq<string>, atof: string -> real): (v: Vec3)
    ensures v.x == (if |tokens| > 1 then atof(tokens[1]) else 0.0)
    ensures v.y == (if |tokens| > 2 then atof(tokens[2]) else 0.0)
    ensures v.z == (if |tokens| > 3 then atof(tokens[3]) else 0.0)
  {
    Vec3(if |tokens| > 1 then atof(tokens[1]) else 0.0,
         if |tokens| > 2 then atof(tokens[2]) else 0.0,
         if |tokens| > 3 then atof(tokens[3]) else 0.0)
  }


  class ObjFormat {
    var pointArray: seq<Vec3>
    var normalArray: seq<Vec3>
    var colorArray: seq<Vec3>
    var texCoordsArray: seq<Vec3>
    var polygonArray: seq<MeshPolygon>
    const atof: string -> real
    const atoi: string -> Int32

    constructor(atof: string -> real, atoi: string -> Int32)
      ensures pointArray == [] && normalArray == [] && colorArray == [] && texCoordsArray == []
      ensures polygonArray == []
      ensures this.atof == atof && this.atoi == atoi
    {
      pointArray, normalArray, colorArray, texCoordsArray := [], [], [], [];
      polygonArray := [];
      this.atof, this.atoi := atof, atoi;
    }

    /**
     * The vertex one face token describes: its "/"-separated fields are point,
     * texture-coordinate and normal indices; a missing field leaves that vector zero.
     */
    function FaceVertex(token: string): (v: Vertex)
      reads this
      ensures v.color == Zero
      ensures var fields := Tokens(token, '/', false);
        v.point == LookupAndAssign(pointArray, FieldIndex(fields, 0, atoi), Zero) &&
        v.texCoords == LookupAndAssign(texCoordsArray, FieldIndex(fields, 1, atoi), Zero) &&
        v.normal == LookupAndAssign(normalArray, FieldIndex(fields, 2, atoi), Zero)
    {
      var fields := Tokens(token, '/', false);
      DefaultVertex.(
        point := LookupAndAssign(pointArray, FieldIndex(fields, 0, atoi), Zero),
        texCoords := LookupAndAssign(texCoordsArray, FieldIndex(fields, 1, atoi), Zero),
        normal := LookupAndAssign(normalArray, FieldIndex(fields, 2, atoi), Zero))
    }

    /** The vertices of a face line: one per token that is not the keyword "f", in order. */
    function FaceVertices(tokens: seq<string>): (vs: seq<Vertex>)
      reads this
      ensures |vs| == NotKeyword(tokens)
      decreases |tokens|
    {
      if |tokens| == 0 then []
      else
        var last := tokens[|tokens| - 1];
        FaceVertices(tokens[..|tokens| - 1]) + (if last == "f" then [] else [FaceVertex(last)])
    }

    /** The loop of the face branch: builds the polygon token by token. */
    method MakeFacePolygon(tokenArray: seq<string>) returns (polygon: MeshPolygon)
      ensures polygon == MeshPolygon(FaceVertices(tokenArray))
    {
      polygon := MeshPolygon([]);
      var i := 0;
      while i < |tokenArray|
        invariant 0 <= i <= |tokenArray|
        invariant polygon == MeshPolygon(FaceVertices(tokenArray[..i]))
      {
        var token := tokenArray[i];
        assert tokenArray[..i + 1][..i] == tokenArray[..i];
        if token != "f" {
          var vertex := MakeFaceVertex(token);
          polygon := MeshPolygon(polygon.vertexArray + [vertex]);
        }
        i := i + 1;
      }
      assert tokenArray[..i] == tokenArray;
    }

    /** The body of the face loop for one vertex token: split it on "/" and look up each index. */
    method MakeFaceVertex(token: string) returns (vertex: Vertex)
      ensures vertex == FaceVertex(token)
    {
      var vertexTokenArray := TokenizeLine(token, '/', [], false);
      var point_i := FieldIndex(vertexTokenArray, 0, atoi);
      var texCoords_i := FieldIndex(vertexTokenArray, 1, atoi);
      var normal_i := FieldIndex(vertexTokenArray, 2, atoi);
      vertex := DefaultVertex;
      vertex := vertex.(point := LookupAndAssign(pointArray, point_i, vertex.point));
      vertex := vertex.(texCoords := LookupAndAssign(texCoordsArray, texCoords_i, vertex.texCoords));
      vertex := vertex.(normal := LookupAndAssign(normalArray, normal_i, vertex.normal));
    }

    /**
     * ProcessTokenizedLine: a "v", "vt" or "vn" line appends one vector to its own
     * array; an "f" line with at least one more token appends one polygon; an empty
     * line, a comment and anything else change nothing.
     */
    method ProcessTokenizedLine(tokenArray: seq<string>)
      modifies this
      ensures colorArray == old(colorArray)
      ensures |tokenArray| == 0 || tokenArray[0] !in {"v", "vt", "vn", "f"} || (tokenArray[0] == "f" && |tokenArray| == 1) ==>
        pointArray == old(pointArray) && texCoordsArray == old(texCoordsArray) &&
        normalArray == old(normalArray) && polygonArray == old(polygonArray)
      ensures |tokenArray| > 0 && tokenArray[0] == "v" ==>
        pointArray == old(pointArray) + [VectorFrom(tokenArray, atof)] &&
        texCoordsArray == old(texCoordsArray) && normalArray == old(normalArray) && polygonArray == old(polygonArray)
      ensures |tokenArray| > 0 && tokenArray[0] == "vt" ==>
        texCoordsArray == old(texCoordsArray) + [VectorFrom(tokenArray, atof)] &&
        pointArray == old(pointArray) && normalArray == old(normalArray) && polygonArray == old(polygonArray)
      ensures |tokenArray| > 0 && tokenArray[0] == "vn" ==>
        normalArray == old(normalArray) + [VectorFrom(tokenArray, atof)] &&
        pointArray == old(pointArray) && texCoordsArray == old(texCoordsArray) && polygonArray == old(polygonArray)
      ensures |tokenArray| > 1 && tokenArray[0] == "f" ==>
        polygonArray == old(polygonArray) + [MeshPolygon(old(FaceVertices(tokenArray)))] &&
        pointArray == old(pointArray) && texCoordsArray == old(texCoordsArray) && normalArray == old(normalArray)
    {
      if |tokenArray| == 0 || tokenArray[0] == "#" {
        return;
      }
      if tokenArray[0] == "v" {
        pointArray := pointArray + [VectorFrom(tokenArray, atof)];
      } else if tokenArray[0] == "vt" {
        texCoordsArray := texCoordsArray + [VectorFrom(tokenArray, atof)];
      } else if tokenArray[0] == "vn" {
        normalArray := normalArray + [VectorFrom(tokenArray, atof)];
      } else if tokenArray[0] == "f" && |tokenArray| > 1 {
        var polygon := MakeFacePolygon(tokenArray);
        polygonArray := polygonArray + [polygon];
      }
    }
  }

  /** A face line has one vertex per token other than "f"; "f 1 f 2" has two. */
  lemma FaceLineVertexCount(format: ObjFormat)
    ensures |format.FaceVertices(["f", "1", "f", "2"])| == 2
  {
    var t := ["f", "1", "f", "2"];
    assert multiset(t)["f"] == 2 by {
      assert t == ["f"] + ["1"] + ["f"] + ["2"];
    }
  }

  /** A missing index field leaves its vector at zero, whatever the arrays hold. */
  lemma MissingFieldsLeaveDefaults(format: ObjFormat)
    ensures format.FaceVertex("") == DefaultVertex
    ensures format.FaceVertex("3").texCoords == Zero && format.FaceVertex("3").normal == Zero
  {
    assert Tokens("", '/', false) == [];
    assert "3"[..0] == "";
    assert Current("3", '/') == "3";
    assert Tokens("3", '/', false) == ["3"];
  }
}
