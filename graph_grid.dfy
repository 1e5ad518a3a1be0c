/**
 * The `grid` input format of `DynaPlex::Graph`: one string per grid row,
 * cells separated by `|`, each cell a string of arrows `U`, `D`, `L`, `R`
 * that add a weight-1 edge from the cell to the neighbouring cell.
 *
 * Cell `(row, col)` is node `row * width + col`. Rows are read as
 * `std::getline` with delimiter `|` reads them: a trailing empty cell is not
 * returned, so a row ending in `|` yields one cell fewer than the separator
 * count suggests and the later cells shift by one; this is modelled as written.
 */
module GraphGrid {
  import opened Wrappers
  import opened Arith
  import opened GraphEdges

  // ----- text -----

  /** `std::count(s.begin(), s.end(), c)`. */
  function CountChar(s: string, c: char): (n: nat)
    ensures n <= |s|
    ensures n == 0 <==> c !in s
  {
    if |s| == 0 then 0
    else CountChar(s[..|s| - 1], c) + (if s[|s| - 1] == c then 1 else 0)
  }

  /** The pieces of `s` between occurrences of `sep` (`k` separators give `k + 1` pieces). */
  function Split(s: string, sep: char): (pieces: seq<string>)
    ensures |pieces| == CountChar(s, sep) + 1
    ensures forall i :: 0 <= i < |pieces| ==> sep !in pieces[i]
  {
    if |s| == 0 then [""]
    else
      var p := Split(s[..|s| - 1], sep);
      var ch := s[|s| - 1];
      if ch == sep then p + [""]
      else p[..|p| - 1] + [p[|p| - 1] + [ch]]
  }

  /** The pieces joined back with `sep` between consecutive ones. */
  function Join(pieces: seq<string>, sep: char): string
    requires |pieces| > 0
  {
    if |pieces| == 1 then pieces[0]
    else Join(pieces[..|pieces| - 1], sep) + [sep] + pieces[|pieces| - 1]
  }

  /** Splitting loses nothing: joining the pieces gives the row back. */
  lemma {:induction false} JoinSplit(s: string, sep: char)
    ensures Join(Split(s, sep), sep) == s
  {
    if |s| > 0 {
      var s' := s[..|s| - 1];
      JoinSplit(s', sep);
      var p := Split(s', sep);
      var ch := s[|s| - 1];
      assert s == s' + [ch];
      if ch == sep {
        assert (p + [""])[..|p|] == p;
      } else if |p| == 1 {
      } else {
        var q := p[..|p| - 1] + [p[|p| - 1] + [ch]];
        assert q[..|q| - 1] == p[..|p| - 1];
        assert Join(p, sep) == Join(p[..|p| - 1], sep) + [sep] + p[|p| - 1];
      }
    }
  }

  /**
   * The cells `while (std::getline(iss, node, '|'))` returns: every piece
   * except a final empty one (getline fails when it reaches the end of the
   * stream without extracting a character).
   */
  function GetlineTokens(s: string): (tokens: seq<string>)
    ensures forall i :: 0 <= i < |tokens| ==> '|' !in tokens[i]
  {
    var p := Split(s, '|');
    if p[|p| - 1] == "" then p[..|p| - 1] else p
  }

  /** The last piece is empty exactly when the row is empty or ends in the separator. */
  lemma {:induction false} LastPieceEmpty(s: string, sep: char)
    ensures var p := Split(s, sep); p[|p| - 1] == "" <==> |s| == 0 || s[|s| - 1] == sep
  {
    if |s| > 0 && s[|s| - 1] != sep {
      var p := Split(s[..|s| - 1], sep);
      assert Split(s, sep)[|p| - 1] == p[|p| - 1] + [s[|s| - 1]];
    }
  }

  /** One cell per separator, plus one unless the row is empty or ends in `|`. */
  lemma GetlineTokenCount(s: string)
    ensures |GetlineTokens(s)| ==
      CountChar(s, '|') + (if |s| == 0 || s[|s| - 1] == '|' then 0 else 1)
  {
    LastPieceEmpty(s, '|');
  }

  /** `isspace` in the C locale: space, tab, newline, vertical tab, form feed, carriage return. */
  predicate IsSpace(c: char)
    ensures IsSpace(c) <==> c in {' ', '\t', '\n', '\U{000B}', '\U{000C}', '\r'}
  {
    c == ' ' || 9 <= c as int <= 13
  }

  /** `node.erase(std::remove_if(node.begin(), node.end(), isspace), node.end())`. */
  function RemoveSpaces(s: string): (r: string)
    ensures forall i :: 0 <= i < |r| ==> !IsSpace(r[i])
  {
    if |s| == 0 then ""
    else
      var ch := s[|s| - 1];
      if IsSpace(ch) then RemoveSpaces(s[..|s| - 1]) else RemoveSpaces(s[..|s| - 1]) + [ch]
  }

  /** Removing white space keeps every other character, as often as it occurs. */
  lemma {:induction false} RemoveSpacesKeepsOthers(s: string)
    ensures forall c :: !IsSpace(c) ==> multiset(RemoveSpaces(s))[c] == multiset(s)[c]
  {
    if |s| > 0 {
      var ch := s[|s| - 1];
      assert s == s[..|s| - 1] + [ch];
      RemoveSpacesKeepsOthers(s[..|s| - 1]);
    }
  }

  /** The cells of one row with white space removed. */
  function Cleaned(tokens: seq<string>): (cells: seq<string>)
    ensures |cells| == |tokens|
  {
    seq(|tokens|, k requires 0 <= k < |tokens| => RemoveSpaces(tokens[k]))
  }

  /** The flattened cells of the first `i` rows, row after row. */
  function NodesUpTo(rows: seq<string>, i: nat): seq<string>
    requires i <= |rows|
  {
    if i == 0 then [] else NodesUpTo(rows, i - 1) + Cleaned(GetlineTokens(rows[i - 1]))
  }

  /** The flattened cells of all rows. */
  function Nodes(rows: seq<string>): seq<string> {
    NodesUpTo(rows, |rows|)
  }

  // ----- coordinates -----

  /** `NodeAt(row, col)` once its range checks have passed. */
  function GridIndex(row: nat, col: nat, width: nat): nat {
    row * width + col
  }

  /** Row and column are recovered from the index by division. */
  lemma GridIndexCoords(row: nat, col: nat, width: nat)
    requires col < width
    ensures GridIndex(row, col, width) / width == row
    ensures GridIndex(row, col, width) % width == col
  {
    DivModUnique(GridIndex(row, col, width), width, row, col);
  }

  /** A cell inside a `width x height` grid has an index below `width * height`. */
  lemma GridIndexBound(row: nat, col: nat, width: nat, height: nat)
    requires row < height && col < width
    ensures GridIndex(row, col, width) < width * height
  {
    assert row * width + width == (row + 1) * width;
    assert (row + 1) * width <= height * width;
  }

  /** Two cells share a side. */
  predicate Adjacent(r1: int, c1: int, r2: int, c2: int) {
    (c1 == c2 && (r2 == r1 + 1 || r1 == r2 + 1)) || (r1 == r2 && (c2 == c1 + 1 || c1 == c2 + 1))
  }

  /** A weight-1 edge between two side-sharing cells of a `width x height` grid. */
  predicate IsGridStep(e: Edge, width: nat, height: nat) {
    width > 0 && e.orig < width * height && e.dest < width * height && e.weight == 1.0 &&
    Adjacent(e.orig / width, e.orig % width, e.dest / width, e.dest % width)
  }

  /** Whether the arrow `ch` at `(row, col)` stays inside the grid. */
  predicate ArrowInside(ch: char, row: nat, col: nat, width: nat, height: nat) {
    (ch == 'U' && row > 0) || (ch == 'D' && row + 1 < height) ||
    (ch == 'L' && col > 0) || (ch == 'R' && col + 1 < width)
  }

  /** A character the parser accepts at `(row, col)`: a space or an arrow that stays inside. */
  predicate CharOk(ch: char, row: nat, col: nat, width: nat, height: nat) {
    ch == ' ' || ArrowInside(ch, row, col, width, height)
  }

  /** The neighbour an arrow points to. */
  function ArrowTarget(ch: char, row: nat, col: nat, width: nat, height: nat): nat
    requires ArrowInside(ch, row, col, width, height)
  {
    if ch == 'U' then GridIndex(row - 1, col, width)
    else if ch == 'D' then GridIndex(row + 1, col, width)
    else if ch == 'L' then GridIndex(row, col - 1, width)
    else GridIndex(row, col + 1, width)
  }

  lemma ArrowIsGridStep(ch: char, row: nat, col: nat, width: nat, height: nat)
    requires row < height && col < width && ArrowInside(ch, row, col, width, height)
    ensures IsGridStep(Edge(GridIndex(row, col, width), ArrowTarget(ch, row, col, width, height)), width, height)
  {
    var t := ArrowTarget(ch, row, col, width, height);
    GridIndexCoords(row, col, width);
    GridIndexBound(row, col, width, height);
    if ch == 'U' {
      GridIndexCoords(row - 1, col, width);
      GridIndexBound(row - 1, col, width, height);
    } else if ch == 'D' {
      GridIndexCoords(row + 1, col, width);
      GridIndexBound(row + 1, col, width, height);
    } else if ch == 'L' {
      GridIndexCoords(row, col - 1, width);
      GridIndexBound(row, col - 1, width, height);
    } else {
      GridIndexCoords(row, col + 1, width);
      GridIndexBound(row, col + 1, width, height);
    }
  }

  // ----- edges of the cells -----

  /** The switch on one character of a cell: an arrow adds its edge, a space nothing, anything else is an error. */
  function ArrowStep(ch: char, row: nat, col: nat, width: nat, height: nat): (r: Result<seq<Edge>, GraphError>)
    requires row < height && col < width
    ensures r.Success? <==> CharOk(ch, row, col, width, height)
    ensures r.Success? && ch != ' ' ==> r.value == [Edge(GridIndex(row, col, width), ArrowTarget(ch, row, col, width, height))]
    ensures r.Success? && ch == ' ' ==> r.value == []
    ensures r.Failure? ==> r.error.ArrowOutside? || r.error.UnrecognizedCharacter?
  {
    var idx := GridIndex(row, col, width);
    if ch == 'U' then
      if row <= 0 then Failure(ArrowOutside('U', row, col)) else Success([Edge(idx, GridIndex(row - 1, col, width))])
    else if ch == 'D' then
      if row >= height - 1 then Failure(ArrowOutside('D', row, col)) else Success([Edge(idx, GridIndex(row + 1, col, width))])
    else if ch == 'L' then
      if col <= 0 then Failure(ArrowOutside('L', row, col)) else Success([Edge(idx, GridIndex(row, col - 1, width))])
    else if ch == 'R' then
      if col >= width - 1 then Failure(ArrowOutside('R', row, col)) else Success([Edge(idx, GridIndex(row, col + 1, width))])
    else if ch == ' ' then Success([])
    else Failure(UnrecognizedCharacter)
  }

  /** All characters of a cell in order; the first bad one is the error. */
  function CellEdges(cell: string, row: nat, col: nat, width: nat, height: nat): (r: Result<seq<Edge>, GraphError>)
    requires row < height && col < width
    ensures r.Success? <==> forall k :: 0 <= k < |cell| ==> CharOk(cell[k], row, col, width, height)
    ensures r.Success? ==> forall k :: 0 <= k < |cell| && cell[k] != ' ' ==>
      Edge(GridIndex(row, col, width), ArrowTarget(cell[k], row, col, width, height)) in r.value
    ensures r.Success? ==> forall e :: e in r.value ==> e.orig == GridIndex(row, col, width) && IsGridStep(e, width, height)
    ensures r.Failure? ==> r.error.ArrowOutside? || r.error.UnrecognizedCharacter?
  {
    if |cell| == 0 then Success([])
    else
      var init := cell[..|cell| - 1];
      var prev := CellEdges(init, row, col, width, height);
      assert forall k :: 0 <= k < |init| ==> init[k] == cell[k];
      if prev.Failure? then prev
      else
        var ch := cell[|cell| - 1];
        var step := ArrowStep(ch, row, col, width, height);
        if step.Failure? then Failure(step.error)
        else
          assert ch != ' ' ==>
            IsGridStep(Edge(GridIndex(row, col, width), ArrowTarget(ch, row, col, width, height)), width, height) by {
            if ch != ' ' {
              ArrowIsGridStep(ch, row, col, width, height);
            }
          }
          Success(prev.value + step.value)
  }

  /** What `(row, col)` contributes: nothing when its index is past the last cell read. */
  function CellResult(nodes: seq<string>, row: nat, col: nat, width: nat, height: nat): (r: Result<seq<Edge>, GraphError>)
    requires row < height && col < width
    ensures GridIndex(row, col, width) >= |nodes| ==> r == Success([])
    ensures r.Success? ==> forall e :: e in r.value ==> e.orig == GridIndex(row, col, width) && IsGridStep(e, width, height)
  {
    var idx := GridIndex(row, col, width);
    if idx >= |nodes| then Success([]) else CellEdges(nodes[idx], row, col, width, height)
  }

  /** Cell `(r1, c1)` comes before `(r2, c2)` in row-major order. */
  predicate Before(r1: nat, c1: nat, r2: nat, c2: nat) {
    r1 < r2 || (r1 == r2 && c1 < c2)
  }

  /** The edges of all cells before `(row, col)` in row-major order; the first error stops the scan. */
  function EdgesBefore(nodes: seq<string>, width: nat, height: nat, row: nat, col: nat): (r: Result<seq<Edge>, GraphError>)
    requires col <= width && (row < height || (row == height && col == 0))
    ensures r.Success? ==> forall e :: e in r.value ==> IsGridStep(e, width, height)
    ensures r.Failure? ==> r.error.ArrowOutside? || r.error.UnrecognizedCharacter?
    decreases row, col
  {
    if col == 0 then
      if row == 0 then Success([])
      else EdgesBefore(nodes, width, height, row - 1, width)
    else
      var prev := EdgesBefore(nodes, width, height, row, col - 1);
      if prev.Failure? then prev
      else
        var cell := CellResult(nodes, row, col - 1, width, height);
        if cell.Failure? then Failure(cell.error)
        else Success(prev.value + cell.value)
  }

  /**
   * The scan up to `(row, col)` succeeds exactly when every cell before it
   * does, and then it holds every edge of every one of those cells.
   */
  lemma {:induction false} ScanCoversCells(nodes: seq<string>, width: nat, height: nat, row: nat, col: nat)
    requires col <= width && (row < height || (row == height && col == 0))
    ensures var r := EdgesBefore(nodes, width, height, row, col);
      r.Success? <==> forall r': nat, c': nat :: Before(r', c', row, col) && c' < width ==>
        CellResult(nodes, r', c', width, height).Success?
    ensures var r := EdgesBefore(nodes, width, height, row, col);
      r.Success? ==> forall r': nat, c': nat :: Before(r', c', row, col) && c' < width ==>
        forall e :: e in CellResult(nodes, r', c', width, height).value ==> e in r.value
    decreases row, col
  {
    if col == 0 {
      if row > 0 {
        ScanCoversCells(nodes, width, height, row - 1, width);
        assert forall r': nat, c': nat :: c' < width ==> (Before(r', c', row, col) <==> Before(r', c', row - 1, width));
      }
    } else {
      ScanCoversCells(nodes, width, height, row, col - 1);
      assert forall r': nat, c': nat :: Before(r', c', row, col) <==> Before(r', c', row, col - 1) || (r' == row && c' == col - 1);
    }
  }

  /** Once the scan has failed, later cells do not change the error. */
  lemma {:induction false} FailureSticks(nodes: seq<string>, width: nat, height: nat, row: nat, col: nat, row': nat, col': nat)
    requires col <= width && (row < height || (row == height && col == 0))
    requires col' <= width && (row' < height || (row' == height && col' == 0))
    requires Before(row, col, row', col') || (row == row' && col == col')
    requires EdgesBefore(nodes, width, height, row, col).Failure?
    ensures EdgesBefore(nodes, width, height, row', col') == EdgesBefore(nodes, width, height, row, col)
    decreases row', col'
  {
    if !(row == row' && col == col') {
      if col' == 0 {
        if row == row' - 1 && col == width {
        } else {
          FailureSticks(nodes, width, height, row, col, row' - 1, width);
        }
      } else {
        FailureSticks(nodes, width, height, row, col, row', col' - 1);
      }
    }
  }

  /** Once a cell's scan has failed, its remaining characters do not change the error. */
  lemma {:induction false} CellFailureSticks(cell: string, j: nat, row: nat, col: nat, width: nat, height: nat)
    requires row < height && col < width && j <= |cell|
    requires CellEdges(cell[..j], row, col, width, height).Failure?
    ensures CellEdges(cell, row, col, width, height) == CellEdges(cell[..j], row, col, width, height)
    decreases |cell|
  {
    if j < |cell| {
      var init := cell[..|cell| - 1];
      assert init[..j] == cell[..j];
      CellFailureSticks(init, j, row, col, width, height);
    } else {
      assert cell[..j] == cell;
    }
  }

  /** A parsed grid: its dimensions and its edges in the order they were added. */
  datatype Grid = Grid(width: nat, height: nat, edges: seq<Edge>)

  /** Every row has the separator count of the first row. */
  predicate Rectangular(rows: seq<string>)
    requires |rows| > 0
  {
    forall i {:trigger CountChar(rows[i], '|')} :: 0 <= i < |rows| ==> CountChar(rows[i], '|') == CountChar(rows[0], '|')
  }

  /** The grid branch of the graph constructor, from the row strings to the dimensions and edges. */
  function GridSpec(rows: seq<string>): (r: Result<Grid, GraphError>)
    requires |rows| > 0
    ensures r.Success? ==> r.value.width == CountChar(rows[0], '|') + 1 && r.value.height == |rows|
    ensures r == Failure(NotRectangular) <==> !Rectangular(rows)
    ensures r.Success? ==> forall e :: e in r.value.edges ==> IsGridStep(e, r.value.width, r.value.height)
  {
    var width := CountChar(rows[0], '|') + 1;
    var height := |rows|;
    if !Rectangular(rows) then Failure(NotRectangular)
    else
      var edges := EdgesBefore(Nodes(rows), width, height, height, 0);
      if edges.Failure? then Failure(edges.error)
      else Success(Grid(width, height, edges.value))
  }

  /**
   * A parsed grid holds, for every cell read and every arrow in it, the edge
   * from that cell to the neighbour the arrow points to.
   */
  lemma GridHasEveryArrow(rows: seq<string>, row: nat, col: nat, k: nat)
    requires |rows| > 0 && GridSpec(rows).Success?
    requires row < |rows| && col < GridSpec(rows).value.width
    requires GridIndex(row, col, GridSpec(rows).value.width) < |Nodes(rows)|
    requires k < |Nodes(rows)[GridIndex(row, col, GridSpec(rows).value.width)]|
    requires Nodes(rows)[GridIndex(row, col, GridSpec(rows).value.width)][k] != ' '
    ensures var g := GridSpec(rows).value;
      var ch := Nodes(rows)[GridIndex(row, col, g.width)][k];
      ArrowInside(ch, row, col, g.width, g.height) &&
      Edge(GridIndex(row, col, g.width), ArrowTarget(ch, row, col, g.width, g.height)) in g.edges
  {
    var g := GridSpec(rows).value;
    var nodes := Nodes(rows);
    var cell := CellResult(nodes, row, col, g.width, g.height);
    ScanCoversCells(nodes, g.width, g.height, g.height, 0);
    assert Before(row, col, g.height, 0);
    assert cell.Success?;
  }

  /** The `getline` loop over one row: push each cell with its white space removed. */
  method AppendCells(nodes: seq<string>, tokens: seq<string>) returns (out: seq<string>)
    ensures out == nodes + Cleaned(tokens)
  {
    out := nodes;
    for t := 0 to |tokens|
      invariant out == nodes + Cleaned(tokens[..t])
    {
      assert Cleaned(tokens[..t + 1]) == Cleaned(tokens[..t]) + [RemoveSpaces(tokens[t])];
      var node := RemoveSpaces(tokens[t]);
      out := out + [node];
    }
    assert tokens[..|tokens|] == tokens;
  }

  /** The first `i` rows all have `width - 1` separators. */
  ghost predicate RowsAgree(rows: seq<string>, i: nat, width: int)
    requires i <= |rows|
  {
    forall j {:trigger CountChar(rows[j], '|')} :: 0 <= j < i ==> CountChar(rows[j], '|') + 1 == width
  }

  lemma RowsAgreeStep(rows: seq<string>, i: nat, width: int)
    requires i < |rows| && RowsAgree(rows, i, width) && CountChar(rows[i], '|') + 1 == width
    ensures RowsAgree(rows, i + 1, width)
  {
  }

  lemma RowsAgreeRectangular(rows: seq<string>)
    requires |rows| > 0 && RowsAgree(rows, |rows|, CountChar(rows[0], '|') + 1)
    ensures Rectangular(rows)
  {
  }

  lemma RowDisagrees(rows: seq<string>, i: nat)
    requires i < |rows| && CountChar(rows[i], '|') != CountChar(rows[0], '|')
    ensures !Rectangular(rows)
  {
  }

  /** The first loop of the grid branch: check every row's separator count and flatten the cells. */
  method FlattenRows(rows: seq<string>) returns (r: Result<seq<string>, GraphError>)
    requires |rows| > 0
    ensures r == if Rectangular(rows) then Success(Nodes(rows)) else Failure(NotRectangular)
  {
    var width := CountChar(rows[0], '|') + 1;
    var nodes: seq<string> := [];
    for i := 0 to |rows|
      invariant nodes == NodesUpTo(rows, i)
      invariant RowsAgree(rows, i, width)
    {
      var rowWidth := CountChar(rows[i], '|') + 1;
      if rowWidth != width {
        RowDisagrees(rows, i);
        return Failure(NotRectangular);
      }
      RowsAgreeStep(rows, i, width);
      nodes := AppendCells(nodes, GetlineTokens(rows[i]));
    }
    RowsAgreeRectangular(rows);
    return Success(nodes);
  }

  /** Scanning one more character of a cell whose scan so far succeeded. */
  lemma CellEdgesSnoc(cell: string, k: nat, row: nat, col: nat, width: nat, height: nat)
    requires row < height && col < width && k < |cell|
    requires CellEdges(cell[..k], row, col, width, height).Success?
    ensures var step := ArrowStep(cell[k], row, col, width, height);
      CellEdges(cell[..k + 1], row, col, width, height) ==
        if step.Failure? then Failure(step.error)
        else Success(CellEdges(cell[..k], row, col, width, height).value + step.value)
  {
    assert cell[..k + 1][..k] == cell[..k];
  }

  /** The `switch` on one character of a cell: push the arrow's edge onto `out`, or report the error. */
  method PushArrow(out: seq<Edge>, dir: char, row: nat, col: nat, width: nat, height: nat)
    returns (r: Result<seq<Edge>, GraphError>)
    requires row < height && col < width
    ensures var step := ArrowStep(dir, row, col, width, height);
      r == if step.Failure? then Failure(step.error) else Success(out + step.value)
  {
    var idx := GridIndex(row, col, width);
    if dir == 'U' {
      if row <= 0 {
        return Failure(ArrowOutside('U', row, col));
      }
      return Success(out + [Edge(idx, GridIndex(row - 1, col, width))]);
    } else if dir == 'D' {
      if row >= height - 1 {
        return Failure(ArrowOutside('D', row, col));
      }
      return Success(out + [Edge(idx, GridIndex(row + 1, col, width))]);
    } else if dir == 'L' {
      if col <= 0 {
        return Failure(ArrowOutside('L', row, col));
      }
      return Success(out + [Edge(idx, GridIndex(row, col - 1, width))]);
    } else if dir == 'R' {
      if col >= width - 1 {
        return Failure(ArrowOutside('R', row, col));
      }
      return Success(out + [Edge(idx, GridIndex(row, col + 1, width))]);
    } else if dir == ' ' {
      assert out + [] == out;
      return Success(out);
    } else {
      return Failure(UnrecognizedCharacter);
    }
  }

  /** The loop over the characters of the cell at `(row, col)`, pushing onto `edges`. */
  method AddCellEdges(edges: seq<Edge>, connections: string, row: nat, col: nat, width: nat, height: nat)
    returns (r: Result<seq<Edge>, GraphError>)
    requires row < height && col < width
    ensures var c := CellEdges(connections, row, col, width, height);
      r == if c.Failure? then Failure(c.error) else Success(edges + c.value)
  {
    var out := edges;
    for k := 0 to |connections|
      invariant CellEdges(connections[..k], row, col, width, height).Success?
      invariant out == edges + CellEdges(connections[..k], row, col, width, height).value
    {
      CellEdgesSnoc(connections, k, row, col, width, height);
      var pushed := PushArrow(out, connections[k], row, col, width, height);
      if pushed.Failure? {
        CellFailureSticks(connections, k + 1, row, col, width, height);
        return Failure(pushed.error);
      }
      out := pushed.value;
    }
    assert connections[..|connections|] == connections;
    return Success(out);
  }

  /** One pass of the inner loop: push the edges of the cell at `(row, col)`, if the cell was read. */
  method ScanCell(nodes: seq<string>, width: nat, height: nat, row: nat, col: nat, edges: seq<Edge>)
    returns (r: Result<seq<Edge>, GraphError>)
    requires row < height && col < width
    requires EdgesBefore(nodes, width, height, row, col) == Success(edges)
    ensures r == EdgesBefore(nodes, width, height, row, col + 1)
  {
    var idx := GridIndex(row, col, width);
    if idx >= |nodes| {
      assert CellResult(nodes, row, col, width, height) == Success([]);
      assert edges + [] == edges;
      return Success(edges);
    }
    var connections := nodes[idx];
    assert CellResult(nodes, row, col, width, height) == CellEdges(connections, row, col, width, height);
    r := AddCellEdges(edges, connections, row, col, width, height);
  }

  /** The two nested loops of the grid branch: scan every cell in row-major order, pushing its edges. */
  method ScanCells(nodes: seq<string>, width: nat, height: nat) returns (r: Result<seq<Edge>, GraphError>)
    ensures r == EdgesBefore(nodes, width, height, height, 0)
  {
    var edges: seq<Edge> := [];
    for row := 0 to height
      invariant EdgesBefore(nodes, width, height, row, 0) == Success(edges)
    {
      for col := 0 to width
        invariant EdgesBefore(nodes, width, height, row, col) == Success(edges)
      {
        var added := ScanCell(nodes, width, height, row, col, edges);
        if added.Failure? {
          FailureSticks(nodes, width, height, row, col + 1, height, 0);
          return added;
        }
        edges := added.value;
      }
    }
    return Success(edges);
  }

  /** The grid branch of the graph constructor: flatten the rows, then scan the cells. */
  method ParseGrid(rows: seq<string>) returns (r: Result<Grid, GraphError>)
    requires |rows| > 0
    ensures r == GridSpec(rows)
  {
    var height := |rows|;
    var width := CountChar(rows[0], '|') + 1;
    var flat := FlattenRows(rows);
    if flat.Failure? {
      return Failure(flat.error);
    }
    var edges := ScanCells(flat.value, width, height);
    if edges.Failure? {
      return Failure(edges.error);
    }
    return Success(Grid(width, height, edges.value));
  }
}
