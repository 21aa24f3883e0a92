/**
  The board (class Tabuleiro), the growable list of cells that holds the
  current path, and the invariant tying a grid of visit markers to that path:
  a marker k > 0 at a cell says the cell is the k-th one on the path, and 0
  says the cell is not on it.
 */
module Board {
  import opened KnightMoves

  predicate InBounds(linhas: int, colunas: int, p: Pos)
  {
    0 <= p.0 < linhas && 0 <= p.1 < colunas
  }

  /** No cell occurs twice. */
  predicate Distinct(path: seq<Pos>)
  {
    forall a, b :: 0 <= a < b < |path| ==> path[a] != path[b]
  }

  /**
    Board dimensions and the per-cell step markers shown by the renderer.
    The dimensions and the marker array are read-only properties; the
    markers inside the array are written by AnimarCaminho.
   */
  class Tabuleiro {
    const Linhas: int
    const Colunas: int
    const OrdemPassos: array2<int>

    predicate Valid()
    {
      OrdemPassos.Length0 == Linhas && OrdemPassos.Length1 == Colunas
    }

    /** A board whose cells are all unvisited (marker 0). */
    constructor (linhas: int, colunas: int)
      requires linhas >= 0 && colunas >= 0
      ensures Linhas == linhas && Colunas == colunas && Valid()
      ensures fresh(OrdemPassos)
      ensures forall i, j :: 0 <= i < linhas && 0 <= j < colunas ==> OrdemPassos[i, j] == 0
    {
      Linhas := linhas;
      Colunas := colunas;
      OrdemPassos := new int[linhas, colunas]((i, j) => 0);
    }
  }

  /** The list of cells the search appends to and removes from. */
  class Lista {
    var itens: seq<Pos>

    constructor ()
      ensures itens == []
    {
      itens := [];
    }
  }

  /**
    The 1-based position of p on the path (its last occurrence), or 0 when
    p is not on the path.
   */
  function OrderOf(path: seq<Pos>, p: Pos): (r: int)
    ensures 0 <= r <= |path|
    ensures r > 0 ==> path[r - 1] == p
    ensures r == 0 <==> p !in path
  {
    if path == [] then 0
    else if path[|path| - 1] == p then |path|
    else
      assert path == path[..|path| - 1] + [path[|path| - 1]];
      OrderOf(path[..|path| - 1], p)
  }

  /** On a path without repetitions, the k-th cell has position k + 1. */
  lemma OrderOfDistinct(path: seq<Pos>, k: int)
    requires Distinct(path) && 0 <= k < |path|
    ensures OrderOf(path, path[k]) == k + 1
  {
  }

  /** Appending q gives q the next position and leaves every other cell's position alone. */
  lemma OrderOfAppend(path: seq<Pos>, q: Pos, p: Pos)
    ensures OrderOf(path + [q], p) == if p == q then |path| + 1 else OrderOf(path, p)
  {
    assert (path + [q])[..|path|] == path;
  }

  /**
    The markers in v encode path exactly: path is a repetition-free list of
    cells on the board, and every cell's marker is its 1-based position on
    the path, 0 for a cell not on it.
   */
  ghost predicate MarksPath(v: array2<int>, path: seq<Pos>)
    reads v
  {
    && (forall k :: 0 <= k < |path| ==> InBounds(v.Length0, v.Length1, path[k]))
    && Distinct(path)
    && (forall i, j :: 0 <= i < v.Length0 && 0 <= j < v.Length1 ==> v[i, j] == OrderOf(path, (i, j)))
  }

  /**
    The marker at a cell is k > 0 exactly when the path's (k-1)-th cell is
    that cell, and it is 0 exactly when the cell is not on the path.
   */
  lemma MarkerIffOnPath(v: array2<int>, path: seq<Pos>, p: Pos, k: int)
    requires MarksPath(v, path)
    requires InBounds(v.Length0, v.Length1, p)
    ensures (v[p.0, p.1] == k && k > 0) <==> (0 < k <= |path| && path[k - 1] == p)
    ensures v[p.0, p.1] == 0 <==> p !in path
  {
    assert v[p.0, p.1] == OrderOf(path, p);
    if 0 < k <= |path| && path[k - 1] == p {
      OrderOfDistinct(path, k - 1);
    }
  }
}
