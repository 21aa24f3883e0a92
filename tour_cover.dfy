/**
  Counting facts behind "a tour visits every cell exactly once": a
  repetition-free path of linhas * colunas cells on the board must contain
  every cell of the board.
 */
module TourCover {
  import opened KnightMoves
  import opened Board
  import opened TourSpec

  /** The cells (r, 0) .. (r, n - 1). */
  function RowCells(r: int, n: nat): (cells: set<Pos>)
    ensures |cells| == n
    ensures forall p :: p in cells <==> p.0 == r && 0 <= p.1 < n
  {
    if n == 0 then {}
    else
      var prev := RowCells(r, n - 1);
      assert (r, n - 1) !in prev;
      prev + {(r, n - 1)}
  }

  /** The cells of an linhas x colunas board. */
  function GridCells(linhas: nat, colunas: nat): (cells: set<Pos>)
    ensures |cells| == linhas * colunas
    ensures forall p :: p in cells <==> InBounds(linhas, colunas, p)
  {
    if linhas == 0 then {}
    else
      var prev := GridCells(linhas - 1, colunas);
      var row := RowCells(linhas - 1, colunas);
      assert prev * row == {};
      assert |prev + row| == |prev| + |row|;
      assert (linhas - 1) * colunas + colunas == linhas * colunas;
      prev + row
  }

  /** The cells of a path. */
  function Cells(path: seq<Pos>): (cells: set<Pos>)
    ensures forall p :: p in cells <==> p in path
  {
    set k | 0 <= k < |path| :: path[k]
  }

  /** A path without repetitions has as many distinct cells as positions. */
  lemma {:induction false} DistinctCells(path: seq<Pos>)
    requires Distinct(path)
    ensures |Cells(path)| == |path|
  {
    if path != [] {
      var init := path[..|path| - 1];
      assert Distinct(init);
      DistinctCells(init);
      assert Cells(path) == Cells(init) + {path[|path| - 1]};
      assert path[|path| - 1] !in init;
    }
  }

  /** A subset is no larger than its superset. */
  lemma {:induction false} SubsetSize(a: set<Pos>, b: set<Pos>)
    requires a <= b
    ensures |a| <= |b|
    decreases |b|
  {
    if a != {} {
      var x :| x in a;
      SubsetSize(a - {x}, b - {x});
    }
  }

  /**
    Pigeonhole: a repetition-free path of linhas * colunas cells on the
    board contains every cell of the board.
   */
  lemma TourCoversBoard(linhas: int, colunas: int, path: seq<Pos>)
    requires IsKnightPath(linhas, colunas, path)
    requires |path| == linhas * colunas && linhas >= 0 && colunas >= 0
    ensures forall p :: InBounds(linhas, colunas, p) ==> p in path
  {
    var grid := GridCells(linhas, colunas);
    DistinctCells(path);
    forall p | InBounds(linhas, colunas, p)
      ensures p in path
    {
      if p !in path {
        assert Cells(path) <= grid - {p};
        SubsetSize(Cells(path), grid - {p});
      }
    }
  }
}
