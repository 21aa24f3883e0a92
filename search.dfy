/**
  The search engine of class Program: the validity guard, the degree count,
  the Warnsdorff-ordered backtracking driver, its entry point, and the loop
  that copies a found path onto the board's step markers.
 */
module Search {
  import opened KnightMoves
  import opened Board
  import opened TourSpec
  import opened TourCover

  /** The cell is on the board and its marker is 0; the marker is read only when in bounds. */
  predicate PosicaoValida(tab: Tabuleiro, linha: int, coluna: int, visitado: array2<int>)
    reads visitado
    requires visitado.Length0 == tab.Linhas && visitado.Length1 == tab.Colunas
  {
    linha >= 0 && linha < tab.Linhas && coluna >= 0 && coluna < tab.Colunas
    && visitado[linha, coluna] == 0
  }

  /** Under the marker invariant, PosicaoValida is "on the board and not on the path". */
  lemma PosicaoValidaIffFree(tab: Tabuleiro, visitado: array2<int>, path: seq<Pos>, p: Pos)
    requires visitado.Length0 == tab.Linhas && visitado.Length1 == tab.Colunas
    requires MarksPath(visitado, path)
    ensures PosicaoValida(tab, p.0, p.1, visitado) <==> Free(tab.Linhas, tab.Colunas, path, p)
  {
    if InBounds(tab.Linhas, tab.Colunas, p) {
      MarkerIffOnPath(visitado, path, p, 1);
    }
  }

  /** How many of the first n table moves from (linha, coluna) pass PosicaoValida. */
  function ValidMoveCount(tab: Tabuleiro, visitado: array2<int>, linha: int, coluna: int, n: int): (r: int)
    reads visitado
    requires visitado.Length0 == tab.Linhas && visitado.Length1 == tab.Colunas
    requires 0 <= n <= 8
    ensures 0 <= r <= n
  {
    if n == 0 then 0
    else
      var q := Target((linha, coluna), n - 1);
      ValidMoveCount(tab, visitado, linha, coluna, n - 1)
      + (if PosicaoValida(tab, q.0, q.1, visitado) then 1 else 0)
  }

  /** Under the marker invariant, the array-based count is the path-based degree. */
  lemma {:induction false} ValidMoveCountIsFreeCount(tab: Tabuleiro, visitado: array2<int>, path: seq<Pos>, p: Pos, n: int)
    requires visitado.Length0 == tab.Linhas && visitado.Length1 == tab.Colunas
    requires MarksPath(visitado, path)
    requires 0 <= n <= 8
    ensures ValidMoveCount(tab, visitado, p.0, p.1, n) == FreeCount(tab.Linhas, tab.Colunas, path, p, n)
  {
    if n > 0 {
      ValidMoveCountIsFreeCount(tab, visitado, path, p, n - 1);
      PosicaoValidaIffFree(tab, visitado, path, Target(p, n - 1));
    }
  }

  /** The degree of a cell: the number of table moves from it that land on a valid cell. */
  method ContarMovimentos(tab: Tabuleiro, linha: int, coluna: int, visitado: array2<int>) returns (count: int)
    requires visitado.Length0 == tab.Linhas && visitado.Length1 == tab.Colunas
    ensures count == ValidMoveCount(tab, visitado, linha, coluna, 8)
    ensures 0 <= count <= 8
  {
    count := 0;
    var i := 0;
    while i < 8
      invariant 0 <= i <= 8
      invariant count == ValidMoveCount(tab, visitado, linha, coluna, i)
    {
      var novaLinha := linha + DeltaLinha[i];
      var novaColuna := coluna + DeltaColuna[i];
      if PosicaoValida(tab, novaLinha, novaColuna, visitado) {
        count := count + 1;
      }
      i := i + 1;
    }
  }

  /**
    The candidate list of one search step: every valid destination of the
    eight table moves from the current cell, in table order, with its degree
    counted while the current cell is already marked.
   */
  method GerarMovimentos(tab: Tabuleiro, linha: int, coluna: int, visitado: array2<int>, ghost path: seq<Pos>)
    returns (movimentos: seq<Movimento>)
    requires visitado.Length0 == tab.Linhas && visitado.Length1 == tab.Colunas
    requires MarksPath(visitado, path)
    requires |path| > 0 && Last(path) == (linha, coluna)
    ensures movimentos == Candidates(tab.Linhas, tab.Colunas, path, 8)
  {
    movimentos := [];
    var i := 0;
    while i < 8
      invariant 0 <= i <= 8
      invariant movimentos == Candidates(tab.Linhas, tab.Colunas, path, i)
    {
      var novaLinha := linha + DeltaLinha[i];
      var novaColuna := coluna + DeltaColuna[i];
      ghost var q := (novaLinha, novaColuna);
      assert q == Target(Last(path), i);
      PosicaoValidaIffFree(tab, visitado, path, q);
      if PosicaoValida(tab, novaLinha, novaColuna, visitado) {
        var grau := ContarMovimentos(tab, novaLinha, novaColuna, visitado);
        ValidMoveCountIsFreeCount(tab, visitado, path, q, 8);
        movimentos := movimentos + [Movimento(novaLinha, novaColuna, grau)];
      }
      assert movimentos == Candidates(tab.Linhas, tab.Colunas, path, i + 1);
      i := i + 1;
    }
  }

  /** Mark (linha, coluna) as the passo-th cell and append it to the path. */
  method Marcar(tab: Tabuleiro, linha: int, coluna: int, passo: int, visitado: array2<int>, caminho: Lista)
    requires visitado.Length0 == tab.Linhas && visitado.Length1 == tab.Colunas
    requires InBounds(tab.Linhas, tab.Colunas, (linha, coluna)) && visitado[linha, coluna] == 0
    requires MarksPath(visitado, caminho.itens)
    requires passo == |caminho.itens| + 1
    modifies visitado, caminho
    ensures caminho.itens == old(caminho.itens) + [(linha, coluna)]
    ensures MarksPath(visitado, caminho.itens)
  {
    MarkerIffOnPath(visitado, caminho.itens, (linha, coluna), 1);
    ghost var before := caminho.itens;
    visitado[linha, coluna] := passo;
    caminho.itens := caminho.itens + [(linha, coluna)];
    forall i, j | 0 <= i < tab.Linhas && 0 <= j < tab.Colunas
      ensures visitado[i, j] == OrderOf(caminho.itens, (i, j))
    {
      OrderOfAppend(before, (linha, coluna), (i, j));
    }
  }

  /** Undo Marcar: clear the marker of the last cell of the path and drop that cell. */
  method Desmarcar(tab: Tabuleiro, linha: int, coluna: int, visitado: array2<int>, caminho: Lista)
    requires visitado.Length0 == tab.Linhas && visitado.Length1 == tab.Colunas
    requires MarksPath(visitado, caminho.itens)
    requires |caminho.itens| > 0 && caminho.itens[|caminho.itens| - 1] == (linha, coluna)
    modifies visitado, caminho
    ensures caminho.itens == old(caminho.itens)[..|old(caminho.itens)| - 1]
    ensures MarksPath(visitado, caminho.itens)
  {
    ghost var path := caminho.itens;
    ghost var before := path[..|path| - 1];
    assert path == before + [(linha, coluna)];
    visitado[linha, coluna] := 0;
    caminho.itens := caminho.itens[..|caminho.itens| - 1];
    assert (linha, coluna) !in before by {
      OrderOfDistinct(path, |path| - 1);
    }
    forall i, j | 0 <= i < tab.Linhas && 0 <= j < tab.Colunas
      ensures visitado[i, j] == OrderOf(before, (i, j))
    {
      OrderOfAppend(before, (linha, coluna), (i, j));
    }
  }

  /**
    One step of the depth-first search: mark (linha, coluna) with passo and
    append it to caminho; succeed if the board is full, otherwise try the
    valid destinations by ascending degree and stop at the first success.
    On failure the mark and the append are undone.
   */
  method Buscar(tab: Tabuleiro, linha: int, coluna: int, passo: int, visitado: array2<int>, caminho: Lista)
    returns (ok: bool)
    requires visitado.Length0 == tab.Linhas && visitado.Length1 == tab.Colunas
    requires InBounds(tab.Linhas, tab.Colunas, (linha, coluna)) && visitado[linha, coluna] == 0
    requires MarksPath(visitado, caminho.itens)
    requires passo == |caminho.itens| + 1 <= tab.Linhas * tab.Colunas
    modifies visitado, caminho
    decreases tab.Linhas * tab.Colunas - passo, 1
    ensures ok == Explore(tab.Linhas, tab.Colunas, old(caminho.itens) + [(linha, coluna)]).Some?
    ensures ok ==> caminho.itens == Explore(tab.Linhas, tab.Colunas, old(caminho.itens) + [(linha, coluna)]).value
    ensures MarksPath(visitado, caminho.itens)
    ensures !ok ==> caminho.itens == old(caminho.itens)
    ensures !ok ==> forall i, j :: 0 <= i < tab.Linhas && 0 <= j < tab.Colunas ==> visitado[i, j] == old(visitado[i, j])
  {
    Marcar(tab, linha, coluna, passo, visitado, caminho);
    ghost var path := caminho.itens;

    if passo == tab.Linhas * tab.Colunas {
      return true;
    }

    var movimentos := GerarMovimentos(tab, linha, coluna, visitado, path);
    movimentos := SortByGrau(movimentos);
    OrderedCandidatesExact(tab.Linhas, tab.Colunas, path);

    ok := TentarMovimentos(tab, movimentos, passo, visitado, caminho);
    if !ok {
      Desmarcar(tab, linha, coluna, visitado, caminho);
    }
  }

  /**
    The loop over the sorted candidates of one search step: descend into each
    in turn and stop at the first descent that completes the tour. A failed
    descent leaves the markers and the path as they were.
   */
  method TentarMovimentos(tab: Tabuleiro, movimentos: seq<Movimento>, passo: int, visitado: array2<int>, caminho: Lista)
    returns (ok: bool)
    requires visitado.Length0 == tab.Linhas && visitado.Length1 == tab.Colunas
    requires MarksPath(visitado, caminho.itens)
    requires passo == |caminho.itens| && 1 <= passo < tab.Linhas * tab.Colunas
    requires forall m :: m in movimentos ==> Free(tab.Linhas, tab.Colunas, caminho.itens, PosOf(m))
    modifies visitado, caminho
    decreases tab.Linhas * tab.Colunas - passo, 0
    ensures ok == ExploreFrom(tab.Linhas, tab.Colunas, old(caminho.itens), movimentos).Some?
    ensures ok ==> caminho.itens == ExploreFrom(tab.Linhas, tab.Colunas, old(caminho.itens), movimentos).value
    ensures MarksPath(visitado, caminho.itens)
    ensures !ok ==> caminho.itens == old(caminho.itens)
    ensures !ok ==> forall i, j :: 0 <= i < tab.Linhas && 0 <= j < tab.Colunas ==> visitado[i, j] == old(visitado[i, j])
  {
    ghost var path := caminho.itens;
    var i := 0;
    while i < |movimentos|
      invariant 0 <= i <= |movimentos|
      invariant caminho.itens == path
      invariant MarksPath(visitado, path)
      invariant ExploreFrom(tab.Linhas, tab.Colunas, path, movimentos[i..])
             == ExploreFrom(tab.Linhas, tab.Colunas, path, movimentos)
    {
      var m := movimentos[i];
      assert m in movimentos;
      MarkerIffOnPath(visitado, path, PosOf(m), 1);
      ok := Buscar(tab, m.linha, m.coluna, passo + 1, visitado, caminho);
      assert movimentos[i..][0] == m && movimentos[i..][1..] == movimentos[i + 1..];
      if ok {
        return true;
      }
      i := i + 1;
    }
    return false;
  }

  /**
    Search for a knight's tour from (linhaInicial, colunaInicial) on a fresh
    marker grid; the tour, or None where the C# code returns null.
   */
  method EncontrarCaminho(tab: Tabuleiro, linhaInicial: int, colunaInicial: int) returns (r: Option<seq<Pos>>)
    requires InBounds(tab.Linhas, tab.Colunas, (linhaInicial, colunaInicial))
    ensures r == Explore(tab.Linhas, tab.Colunas, [(linhaInicial, colunaInicial)])
    ensures r.Some? ==> IsKnightTour(tab.Linhas, tab.Colunas, (linhaInicial, colunaInicial), r.value)
    ensures r.Some? ==> forall p :: InBounds(tab.Linhas, tab.Colunas, p) ==> p in r.value
  {
    var visitado := new int[tab.Linhas, tab.Colunas]((i, j) => 0);
    var caminho := new Lista();
    assert 1 <= tab.Linhas * tab.Colunas;
    assert MarksPath(visitado, caminho.itens);
    assert caminho.itens + [(linhaInicial, colunaInicial)] == [(linhaInicial, colunaInicial)];
    var found := Buscar(tab, linhaInicial, colunaInicial, 1, visitado, caminho);
    ExploreFindsTour(tab.Linhas, tab.Colunas, (linhaInicial, colunaInicial));
    if found {
      TourCoversBoard(tab.Linhas, tab.Colunas, caminho.itens);
      return Some(caminho.itens);
    }
    return None;
  }

  /**
    The marking loop of the animation: each cell on the path gets its step
    number (the last one, where a cell repeats); cells off the path keep
    their marker. A repetition-free path written on a blank board is then
    encoded exactly as the search encodes it.
   */
  method AnimarCaminho(tab: Tabuleiro, caminho: seq<Pos>)
    requires tab.Valid()
    requires forall k :: 0 <= k < |caminho| ==> InBounds(tab.Linhas, tab.Colunas, caminho[k])
    modifies tab.OrdemPassos
    ensures forall i, j :: 0 <= i < tab.Linhas && 0 <= j < tab.Colunas ==>
      tab.OrdemPassos[i, j] == if (i, j) in caminho then OrderOf(caminho, (i, j)) else old(tab.OrdemPassos[i, j])
    ensures Distinct(caminho) && (forall i, j :: 0 <= i < tab.Linhas && 0 <= j < tab.Colunas ==> old(tab.OrdemPassos[i, j]) == 0)
      ==> MarksPath(tab.OrdemPassos, caminho)
  {
    var passo := 0;
    while passo < |caminho|
      invariant 0 <= passo <= |caminho|
      invariant forall i, j :: 0 <= i < tab.Linhas && 0 <= j < tab.Colunas ==>
        tab.OrdemPassos[i, j] == if (i, j) in caminho[..passo] then OrderOf(caminho[..passo], (i, j)) else old(tab.OrdemPassos[i, j])
    {
      var (linha, coluna) := caminho[passo];
      assert InBounds(tab.Linhas, tab.Colunas, caminho[passo]);
      tab.OrdemPassos[linha, coluna] := passo + 1;
      assert caminho[..passo + 1] == caminho[..passo] + [caminho[passo]];
      forall i, j | 0 <= i < tab.Linhas && 0 <= j < tab.Colunas
        ensures tab.OrdemPassos[i, j]
          == if (i, j) in caminho[..passo + 1] then OrderOf(caminho[..passo + 1], (i, j)) else old(tab.OrdemPassos[i, j])
      {
        OrderOfAppend(caminho[..passo], caminho[passo], (i, j));
      }
      passo := passo + 1;
    }
    assert caminho[..passo] == caminho;
  }
}
