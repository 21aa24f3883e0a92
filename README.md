# Knight's tour search (CavaloSolitario), modelled in Dafny

This project models the knight's-tour solver in `Program.cs`. The program
searches for a knight's tour on a board of `Linhas` × `Colunas` cells,
starting from a given cell. The search is recursive, depth-first and
backtracking, and it orders candidate moves by Warnsdorff's rule: fewest
onward moves first.

- `moves.dfy`, module `KnightMoves`: the offset table `MovimentoCavalo`
  (`DeltaLinha`, `DeltaColuna`) and what a knight move is.
- `board.dfy`, module `Board`:
  - the `Tabuleiro` class (dimensions plus the `OrdemPassos` marker grid);
  - the `Lista` class, which stands for the `List<(int, int)>` path that the search mutates;
  - the invariant `MarksPath(visitado, caminho)`. It says that every cell's marker is its 1-based position on the path, 0 when the cell is not on the path, and that the path repeats no cell.
- `tour_spec.dfy`, module `TourSpec`: a pure description of the same search.
  - `Explore` / `ExploreFrom` read the visited cells off the path instead of a marker array.
  - `Candidates` lists the valid moves in table order with their degrees.
  - `SortByGrau` sorts them by ascending degree.
  - Lemmas prove what a successful search returns.
- `tour_cover.dfy`, module `TourCover`: the counting argument that a repetition-free path of `Linhas*Colunas` board cells covers the board.
- `search.dfy`, module `Search`: the imperative code.
  - `PosicaoValida`, `ContarMovimentos` (counting loop), `GerarMovimentos` (the candidate loop of `Buscar`).
  - `Buscar` (recursive method over an `array2<int>` and the mutable list), with its mark and undo steps `Marcar` / `Desmarcar`.
  - `TentarMovimentos`, the `foreach` over the sorted candidates. It is a separate method, mutually recursive with `Buscar`.
  - `EncontrarCaminho`, and the marking loop of `AnimarCaminho`.

`Buscar` is proved against `Explore`:
- It succeeds exactly when `Explore` returns a path, and then the list holds that path.
- It keeps `MarksPath` on every exit.
- On failure, the list and every marker are as they were before the call.

The lemmas about `Explore` prove the properties of a returned path:
- its length is `Linhas*Colunas` and it starts at the start cell;
- its cells are on the board and pairwise distinct;
- every step is one of the eight table offsets;
- it covers every cell.

Points where the code's behaviour shapes the model:
- The code has no error results. An out-of-range start cell fails on array indexing (Program.cs:128), and negative dimensions fail on allocation (Program.cs:13). These are preconditions here.
- The search does not write to the board object. It writes to a local array, `visitado`, allocated by `EncontrarCaminho`. `Tabuleiro.OrdemPassos` is filled only afterwards, by `AnimarCaminho`.
- Ties between candidates of equal degree are not ordered stably by the code. `List.Sort` is an unstable introsort. See `SortByGrau` below.
- The degree of a candidate is counted while the current cell is already marked.

## Model

| member | source | states |
|---|---|---|
| `KnightMoves.MoveTableIsKnight` | Program.cs:42-43 | the table has 8 entries, each is a knight displacement (the absolute values of the row and column offsets are 1 and 2 in some order), and no entry repeats |
| `KnightMoves.OffsetIndex` | Program.cs:42-43 | every knight displacement is realised by some entry of the table (the table is complete) |
| `KnightMoves.KnightStepIffTableMove` | Program.cs:42-43 | a step is a knight move if and only if it is the destination of one of the 8 table entries |
| `Board.Tabuleiro.constructor` | Program.cs:9-14 | the board keeps the given dimensions and a fresh marker grid of that size with every cell 0 |
| `Board.MarkerIffOnPath` | Program.cs:128-129 | under the search invariant, `visitado[p] == k > 0` exactly when `caminho[k-1] == p`, and `visitado[p] == 0` exactly when p is not on the path |
| `TourSpec.CandidatesExact` | Program.cs:135-145 | every generated candidate is an in-bounds, unvisited knight-move destination of the current cell carrying that cell's onward degree; every valid destination of the table moves is generated |
| `TourSpec.CandidatesComplete` | Program.cs:136-144 | every unvisited on-board knight neighbour of the current cell is among the candidates |
| `TourSpec.InsertByGrau` | Program.cs:146 | inserting into a degree-sorted list keeps it sorted and adds exactly the new element |
| `TourSpec.SortByGrau` | Program.cs:146 | the candidate list after sorting is in non-decreasing order of degree and is a permutation of the unsorted list |
| `TourSpec.SortedByGrauPairwise` | Program.cs:146 | in the sorted candidate list no candidate precedes one of smaller degree |
| `TourSpec.CandidatesDistinct` | Program.cs:135-145 | no destination is generated twice, because every candidate comes from a different entry of the table |
| `TourSpec.PermutationKeepsDistinct` | Program.cs:146 | sorting the candidate list cannot introduce a repeated destination |
| `TourSpec.OrderedCandidatesDistinct` | Program.cs:146-152 | the moves are tried so that no candidate comes after one of larger degree, and no destination is tried twice |
| `TourSpec.OrderedCandidatesExact` | Program.cs:135-146 | the moves tried by one step form the same set as the valid knight moves from the current cell, in non-decreasing order of degree, each with its degree computed with the current cell marked |
| `TourSpec.ExploreSound` | Program.cs:126-157 | a successful search extends the path it started from to a path of length `Linhas*Colunas` that stays on the board, repeats no cell and moves by knight steps |
| `TourSpec.ExploreFromSound` | Program.cs:148-152 | trying the candidates in order returns, if anything, such a full knight path extending the current path |
| `TourSpec.ExploreFindsTour` | Program.cs:116-123 | a search started from one cell can only return a knight's tour of the board starting at that cell |
| `TourSpec.SingleCellBoard` | Program.cs:131-132 | on a 1×1 board the search returns the one-cell path at once |
| `TourSpec.CentreOf3x3HasNoTour` | Program.cs:135-156 | from the centre of a 3×3 board no move is valid, so the search reports failure |
| `TourCover.TourCoversBoard` | Program.cs:131 | a repetition-free on-board path of length `Linhas*Colunas` contains every cell of the board |
| `Search.PosicaoValida` | Program.cs:159-164 | holds for a cell on the board whose marker is 0; the marker is read only when the cell is in bounds (the bounds test short-circuits), so the predicate is defined for every cell |
| `Search.PosicaoValidaIffFree` | Program.cs:159-164 | under the search invariant, `PosicaoValida` holds exactly for cells that are on the board and not on the path |
| `Search.ValidMoveCountIsFreeCount` | Program.cs:166-177 | the number of table moves passing `PosicaoValida` equals the number of moves reaching an on-board cell not on the path |
| `Search.ContarMovimentos` | Program.cs:166-177 | returns the number of table offsets whose destination passes `PosicaoValida`, a value in 0..8; it changes nothing |
| `Search.GerarMovimentos` | Program.cs:135-145 | the candidate list built by the loop is exactly `Candidates`: the valid destinations in table order with their degrees |
| `Search.Marcar` | Program.cs:128-129 | marking the cell with `passo` and appending it to the list extends the encoded path by that cell |
| `Search.Desmarcar` | Program.cs:154-155 | clearing the marker and removing the last list entry restores the encoding of the shorter path |
| `Search.Buscar` | Program.cs:126-157 | succeeds exactly when the search from the extended path succeeds, leaving that full path in the list; keeps the marker invariant; on failure leaves the list and every marker exactly as before |
| `Search.TentarMovimentos` | Program.cs:148-152 | the first successful descent decides the result; a failed descent leaves list and markers as they were |
| `Search.EncontrarCaminho` | Program.cs:116-123 | returns the result of the search from the start cell; a returned path is a knight's tour from the start cell covering every cell of the board |
| `Search.AnimarCaminho` | Program.cs:98-101 | every cell of the path gets the step number of its last occurrence and all other markers are kept; a repetition-free path marked on a blank board is encoded exactly as the search encodes it |

## Left out

- Console I/O is not modelled, because it is presentation only: the prompts and `Convert.ToInt32` parsing in `Main`, `Tabuleiro.Exibir`, printing the path, `Console.ReadKey`, `Console.Clear`.
- `Stopwatch` timing and the `Thread.Sleep` pacing of the animation are not modelled. `AnimarCaminho` keeps only its marking loop, and its `passoAPasso` flag, which only selects rendering, is dropped.
- `Main` itself is not modelled. It only reads the input and chooses between printing and animating.
- `int` arithmetic, including `Linhas*Colunas`, is modelled with unbounded integers. 32-bit overflow on huge boards is not captured.
- SortByGrau: `List.Sort` is unstable, so the code may try candidates of equal degree in any order. The model fixes one order, a stable insertion sort. `Explore`, `Buscar` and `EncontrarCaminho` therefore describe one of the orders the code may take. The returned path is specific to that order. The properties of any returned path (a tour from the start cell) do not depend on it.
- Buscar: requires `passo <= Linhas*Colunas`. This always holds in the code, because a full path stops the recursion. The requirement gives the termination measure.
- Completeness of the backtracking is not proved. When the search fails, the model does not show that no tour exists from that start.
- Running time and recursion depth (stack overflow on large boards) are not modelled.
- `EncontrarCaminho`: the local marker array it allocates is discarded, as in the code. That it is back to all zeros after a failed search is stated by `Buscar`'s postcondition, not by `EncontrarCaminho`'s.
