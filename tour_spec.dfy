/**
  A value-level description of the backtracking search: the same
  depth-first exploration as Buscar, with the set of visited cells read off
  the path instead of a marker array. Buscar is proved to compute exactly
  this function, and the properties of a found tour are proved about it.
 */
module TourSpec {
  import opened KnightMoves
  import opened Board

  datatype Option<T> = None | Some(value: T)

  /** A candidate destination together with its Warnsdorff degree. */
  datatype Movimento = Movimento(linha: int, coluna: int, grau: int)

  function PosOf(m: Movimento): Pos
  {
    (m.linha, m.coluna)
  }

  function Last(path: seq<Pos>): Pos
    requires |path| > 0
  {
    path[|path| - 1]
  }

  /** The cell is on the board and not yet on the path. */
  predicate Free(linhas: int, colunas: int, path: seq<Pos>, p: Pos)
  {
    InBounds(linhas, colunas, p) && p !in path
  }

  /** How many of the first n table moves from p reach a free cell. */
  function FreeCount(linhas: int, colunas: int, path: seq<Pos>, p: Pos, n: int): (r: int)
    requires 0 <= n <= 8
    ensures 0 <= r <= n
  {
    if n == 0 then 0
    else FreeCount(linhas, colunas, path, p, n - 1)
         + (if Free(linhas, colunas, path, Target(p, n - 1)) then 1 else 0)
  }

  /**
    The free destinations of the first n table moves from the last cell of
    the path, in table order, each with the number of free cells one further
    move away.
   */
  function Candidates(linhas: int, colunas: int, path: seq<Pos>, n: int): seq<Movimento>
    requires |path| > 0 && 0 <= n <= 8
  {
    if n == 0 then []
    else
      var q := Target(Last(path), n - 1);
      Candidates(linhas, colunas, path, n - 1)
      + (if Free(linhas, colunas, path, q)
         then [Movimento(q.0, q.1, FreeCount(linhas, colunas, path, q, 8))]
         else [])
  }

  /**
    Every candidate is a free knight-move destination of the last cell and
    carries that destination's degree; conversely every free destination of
    the first n table moves is a candidate.
   */
  lemma {:induction false} CandidatesExact(linhas: int, colunas: int, path: seq<Pos>, n: int)
    requires |path| > 0 && 0 <= n <= 8
    ensures forall m :: m in Candidates(linhas, colunas, path, n) ==>
      Free(linhas, colunas, path, PosOf(m)) && KnightStep(Last(path), PosOf(m))
      && m.grau == FreeCount(linhas, colunas, path, PosOf(m), 8)
    ensures forall i :: 0 <= i < n && Free(linhas, colunas, path, Target(Last(path), i)) ==>
      exists m :: m in Candidates(linhas, colunas, path, n) && PosOf(m) == Target(Last(path), i)
  {
    if n > 0 {
      CandidatesExact(linhas, colunas, path, n - 1);
      MoveTableIsKnight();
      var q := Target(Last(path), n - 1);
      if Free(linhas, colunas, path, q) {
        var m := Movimento(q.0, q.1, FreeCount(linhas, colunas, path, q, 8));
        assert m in Candidates(linhas, colunas, path, n);
      }
    }
  }

  /** Every free knight-move destination of the last cell is a candidate. */
  lemma CandidatesComplete(linhas: int, colunas: int, path: seq<Pos>, q: Pos)
    requires |path| > 0
    requires Free(linhas, colunas, path, q) && KnightStep(Last(path), q)
    ensures exists m :: m in Candidates(linhas, colunas, path, 8) && PosOf(m) == q
  {
    CandidatesExact(linhas, colunas, path, 8);
    var i := OffsetIndex(q.0 - Last(path).0, q.1 - Last(path).1);
    assert Target(Last(path), i) == q;
  }

  /** Each candidate's degree is at most the next one's: non-decreasing order. */
  predicate SortedByGrau(s: seq<Movimento>)
  {
    forall a :: 0 < a < |s| ==> s[a - 1].grau <= s[a].grau
  }

  /** In a list sorted by degree, every candidate comes no later than any candidate of larger degree. */
  lemma {:induction false} SortedByGrauPairwise(s: seq<Movimento>, a: int, b: int)
    requires SortedByGrau(s) && 0 <= a <= b < |s|
    ensures s[a].grau <= s[b].grau
    decreases b - a
  {
    if a < b {
      SortedByGrauPairwise(s, a, b - 1);
    }
  }

  /** Insert m into a list sorted by degree, ahead of every entry of equal or larger degree. */
  function InsertByGrau(m: Movimento, s: seq<Movimento>): (r: seq<Movimento>)
    requires SortedByGrau(s)
    ensures |r| == |s| + 1
    ensures SortedByGrau(r)
    ensures multiset(r) == multiset(s) + multiset{m}
    ensures r[0] == m || (|s| > 0 && r[0] == s[0])
  {
    if s == [] || m.grau <= s[0].grau then [m] + s
    else
      assert s == [s[0]] + s[1..];
      [s[0]] + InsertByGrau(m, s[1..])
  }

  /**
    The ordering step of the search (List.Sort by ascending degree): an
    insertion sort, so the result is sorted by degree and a permutation of
    the candidates.
   */
  function SortByGrau(s: seq<Movimento>): (r: seq<Movimento>)
    ensures SortedByGrau(r)
    ensures multiset(r) == multiset(s)
  {
    if s == [] then []
    else
      assert s == [s[0]] + s[1..];
      InsertByGrau(s[0], SortByGrau(s[1..]))
  }

  /**
    The order in which one search step tries its moves: exactly the free
    knight-move destinations of the last cell, by ascending degree.
   */
  lemma OrderedCandidatesExact(linhas: int, colunas: int, path: seq<Pos>)
    requires |path| > 0
    ensures SortedByGrau(SortByGrau(Candidates(linhas, colunas, path, 8)))
    ensures forall m :: m in SortByGrau(Candidates(linhas, colunas, path, 8)) ==>
      Free(linhas, colunas, path, PosOf(m)) && KnightStep(Last(path), PosOf(m))
      && m.grau == FreeCount(linhas, colunas, path, PosOf(m), 8)
    ensures forall q :: Free(linhas, colunas, path, q) && KnightStep(Last(path), q) ==>
      exists m :: m in SortByGrau(Candidates(linhas, colunas, path, 8)) && PosOf(m) == q
  {
    var cands := Candidates(linhas, colunas, path, 8);
    var sorted := SortByGrau(cands);
    CandidatesExact(linhas, colunas, path, 8);
    forall m | m in sorted
      ensures m in cands
    {
      assert m in multiset(sorted);
    }
    forall q | Free(linhas, colunas, path, q) && KnightStep(Last(path), q)
      ensures exists m :: m in sorted && PosOf(m) == q
    {
      CandidatesComplete(linhas, colunas, path, q);
      var m :| m in cands && PosOf(m) == q;
      assert m in multiset(cands);
    }
  }

  /**
    The candidates come from distinct table entries, so no destination is
    generated twice; each one is the destination of one of the first n entries.
   */
  lemma {:induction false} CandidatesDistinct(linhas: int, colunas: int, path: seq<Pos>, n: int)
    requires |path| > 0 && 0 <= n <= 8
    ensures forall m :: m in Candidates(linhas, colunas, path, n) ==>
      exists i :: 0 <= i < n && PosOf(m) == Target(Last(path), i)
    ensures forall a, b :: 0 <= a < b < |Candidates(linhas, colunas, path, n)| ==>
      PosOf(Candidates(linhas, colunas, path, n)[a]) != PosOf(Candidates(linhas, colunas, path, n)[b])
  {
    if n > 0 {
      CandidatesDistinct(linhas, colunas, path, n - 1);
      MoveTableIsKnight();
      var prev := Candidates(linhas, colunas, path, n - 1);
      var q := Target(Last(path), n - 1);
      forall m | m in prev
        ensures PosOf(m) != q
      {
        var i :| 0 <= i < n - 1 && PosOf(m) == Target(Last(path), i);
        assert (DeltaLinha[i], DeltaColuna[i]) != (DeltaLinha[n - 1], DeltaColuna[n - 1]);
      }
    }
  }

  /** A sequence without repeated elements holds each value at most once. */
  lemma {:induction false} CountAtMostOne(s: seq<Movimento>, x: Movimento)
    requires forall a, b :: 0 <= a < b < |s| ==> s[a] != s[b]
    ensures multiset(s)[x] <= 1
  {
    if s != [] {
      var init := s[..|s| - 1];
      assert s == init + [s[|s| - 1]];
      CountAtMostOne(init, x);
      assert s[|s| - 1] !in init;
    }
  }

  /** An element at two positions occurs at least twice. */
  lemma RepeatedCountsTwice(s: seq<Movimento>, a: int, b: int)
    requires 0 <= a < b < |s| && s[a] == s[b]
    ensures multiset(s)[s[a]] >= 2
  {
    assert s == s[..b] + s[b..];
    assert s[a] in s[..b];
    assert s[b] in s[b..];
  }

  /** Reordering a list of moves without repeated destinations repeats none either. */
  lemma PermutationKeepsDistinct(c: seq<Movimento>, s: seq<Movimento>)
    requires multiset(s) == multiset(c)
    requires forall a, b :: 0 <= a < b < |c| ==> PosOf(c[a]) != PosOf(c[b])
    ensures forall a, b :: 0 <= a < b < |s| ==> PosOf(s[a]) != PosOf(s[b])
  {
    forall a, b | 0 <= a < b < |s|
      ensures PosOf(s[a]) != PosOf(s[b])
    {
      if PosOf(s[a]) == PosOf(s[b]) {
        assert s[a] in multiset(c) && s[b] in multiset(c);
        var i :| 0 <= i < |c| && c[i] == s[a];
        var j :| 0 <= j < |c| && c[j] == s[b];
        assert i == j;
        RepeatedCountsTwice(s, a, b);
        CountAtMostOne(c, s[a]);
      }
    }
  }

  /**
    After sorting, each candidate is tried no earlier than every candidate of
    smaller degree, and no destination is tried twice.
   */
  lemma OrderedCandidatesDistinct(linhas: int, colunas: int, path: seq<Pos>)
    requires |path| > 0
    ensures forall a, b :: 0 <= a <= b < |SortByGrau(Candidates(linhas, colunas, path, 8))| ==>
      SortByGrau(Candidates(linhas, colunas, path, 8))[a].grau <= SortByGrau(Candidates(linhas, colunas, path, 8))[b].grau
    ensures forall a, b :: 0 <= a < b < |SortByGrau(Candidates(linhas, colunas, path, 8))| ==>
      PosOf(SortByGrau(Candidates(linhas, colunas, path, 8))[a]) != PosOf(SortByGrau(Candidates(linhas, colunas, path, 8))[b])
  {
    var cands := Candidates(linhas, colunas, path, 8);
    var sorted := SortByGrau(cands);
    forall a, b | 0 <= a <= b < |sorted|
      ensures sorted[a].grau <= sorted[b].grau
    {
      SortedByGrauPairwise(sorted, a, b);
    }
    CandidatesDistinct(linhas, colunas, path, 8);
    PermutationKeepsDistinct(cands, sorted);
  }

  /**
    The search from a path whose last cell has just been marked: done when
    the path covers the board, otherwise the candidates are tried in order
    of ascending degree.
   */
  function Explore(linhas: int, colunas: int, path: seq<Pos>): Option<seq<Pos>>
    requires 1 <= |path| <= linhas * colunas
    decreases linhas * colunas - |path|, 1
  {
    if |path| == linhas * colunas then Some(path)
    else ExploreFrom(linhas, colunas, path, SortByGrau(Candidates(linhas, colunas, path, 8)))
  }

  /** Try the candidates in order; the first one whose search succeeds decides. */
  function ExploreFrom(linhas: int, colunas: int, path: seq<Pos>, movs: seq<Movimento>): Option<seq<Pos>>
    requires 1 <= |path| < linhas * colunas
    decreases linhas * colunas - |path|, 0, |movs|
  {
    if movs == [] then None
    else
      match Explore(linhas, colunas, path + [PosOf(movs[0])])
      case Some(t) => Some(t)
      case None => ExploreFrom(linhas, colunas, path, movs[1..])
  }

  /** On the board, without repetition, each step a knight move. */
  ghost predicate IsKnightPath(linhas: int, colunas: int, path: seq<Pos>)
  {
    && (forall k :: 0 <= k < |path| ==> InBounds(linhas, colunas, path[k]))
    && Distinct(path)
    && (forall k :: 0 < k < |path| ==> KnightStep(path[k - 1], path[k]))
  }

  /** A knight's tour of the board starting at start. */
  ghost predicate IsKnightTour(linhas: int, colunas: int, start: Pos, t: seq<Pos>)
  {
    |t| == linhas * colunas && |t| > 0 && t[0] == start && IsKnightPath(linhas, colunas, t)
  }

  /** A result of the search extends the path it started from to a full knight path. */
  lemma {:induction false} ExploreSound(linhas: int, colunas: int, path: seq<Pos>)
    requires 1 <= |path| <= linhas * colunas
    requires IsKnightPath(linhas, colunas, path)
    ensures Explore(linhas, colunas, path).Some? ==>
      var t := Explore(linhas, colunas, path).value;
      |t| == linhas * colunas && path <= t && IsKnightPath(linhas, colunas, t)
    decreases linhas * colunas - |path|, 1
  {
    if |path| < linhas * colunas {
      OrderedCandidatesExact(linhas, colunas, path);
      ExploreFromSound(linhas, colunas, path, SortByGrau(Candidates(linhas, colunas, path, 8)));
    }
  }

  lemma {:induction false} ExploreFromSound(linhas: int, colunas: int, path: seq<Pos>, movs: seq<Movimento>)
    requires 1 <= |path| < linhas * colunas
    requires IsKnightPath(linhas, colunas, path)
    requires forall m :: m in movs ==> Free(linhas, colunas, path, PosOf(m)) && KnightStep(Last(path), PosOf(m))
    ensures ExploreFrom(linhas, colunas, path, movs).Some? ==>
      var t := ExploreFrom(linhas, colunas, path, movs).value;
      |t| == linhas * colunas && path <= t && IsKnightPath(linhas, colunas, t)
    decreases linhas * colunas - |path|, 0, |movs|
  {
    if movs != [] {
      var q := PosOf(movs[0]);
      var next := path + [q];
      assert movs[0] in movs;
      assert IsKnightPath(linhas, colunas, next) by {
        forall k | 0 < k < |next|
          ensures KnightStep(next[k - 1], next[k])
        {
          if k < |path| {
            assert next[k - 1] == path[k - 1] && next[k] == path[k];
          }
        }
      }
      ExploreSound(linhas, colunas, next);
      ExploreFromSound(linhas, colunas, path, movs[1..]);
      if Explore(linhas, colunas, next).Some? {
        assert path <= next;
      }
    }
  }

  /** The search started from a single cell can only return a knight's tour from that cell. */
  lemma ExploreFindsTour(linhas: int, colunas: int, start: Pos)
    requires 1 <= linhas * colunas
    requires InBounds(linhas, colunas, start)
    ensures Explore(linhas, colunas, [start]).Some? ==>
      IsKnightTour(linhas, colunas, start, Explore(linhas, colunas, [start]).value)
  {
    ExploreSound(linhas, colunas, [start]);
    if Explore(linhas, colunas, [start]).Some? {
      var t := Explore(linhas, colunas, [start]).value;
      assert [start] <= t;
      assert t[0] == start;
    }
  }

  /** On a one-cell board the search stops at once with the start cell as the whole tour. */
  lemma SingleCellBoard(start: Pos)
    ensures Explore(1, 1, [start]) == Some([start])
  {
  }

  /** From the centre of a 3 x 3 board every knight move leaves the board, so the search fails. */
  lemma CentreOf3x3HasNoTour()
    ensures Explore(3, 3, [(1, 1)]) == None
  {
    NoCandidatesFromCentre(8);
  }

  lemma {:induction false} NoCandidatesFromCentre(n: int)
    requires 0 <= n <= 8
    ensures Candidates(3, 3, [(1, 1)], n) == []
  {
    if n > 0 {
      NoCandidatesFromCentre(n - 1);
      assert !InBounds(3, 3, Target((1, 1), n - 1));
    }
  }
}
