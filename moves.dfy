/**
  The knight's offset table (class MovimentoCavalo): eight (row, column)
  displacements, tried in this fixed order by every move enumeration.
 */
module KnightMoves {

  /** A board cell as a (row, column) pair. */
  type Pos = (int, int)

  const DeltaLinha: seq<int> := [2, 1, -1, -2, -2, -1, 1, 2]
  const DeltaColuna: seq<int> := [1, 2, 2, 1, -1, -2, -2, -1]

  function Abs(x: int): nat
  {
    if x < 0 then -x else x
  }

  /** {|dr|, |dc|} = {1, 2}: the displacement of a knight move. */
  predicate IsKnightOffset(dr: int, dc: int)
  {
    (Abs(dr) == 1 && Abs(dc) == 2) || (Abs(dr) == 2 && Abs(dc) == 1)
  }

  /** Two cells one knight move apart. */
  predicate KnightStep(a: Pos, b: Pos)
  {
    IsKnightOffset(b.0 - a.0, b.1 - a.1)
  }

  /** The destination of table entry i from p. */
  function Target(p: Pos, i: int): Pos
    requires 0 <= i < 8
  {
    (p.0 + DeltaLinha[i], p.1 + DeltaColuna[i])
  }

  /** Every entry of the table is a knight move, and no entry is repeated. */
  lemma MoveTableIsKnight()
    ensures |DeltaLinha| == 8 && |DeltaColuna| == 8
    ensures forall i :: 0 <= i < 8 ==> IsKnightOffset(DeltaLinha[i], DeltaColuna[i])
    ensures forall i, j :: 0 <= i < j < 8 ==> (DeltaLinha[i], DeltaColuna[i]) != (DeltaLinha[j], DeltaColuna[j])
  {
  }

  /** The table entry that realises a given knight displacement. */
  function OffsetIndex(dr: int, dc: int): (i: int)
    requires IsKnightOffset(dr, dc)
    ensures 0 <= i < 8 && DeltaLinha[i] == dr && DeltaColuna[i] == dc
  {
    if dr == 2 && dc == 1 then 0
    else if dr == 1 && dc == 2 then 1
    else if dr == -1 && dc == 2 then 2
    else if dr == -2 && dc == 1 then 3
    else if dr == -2 && dc == -1 then 4
    else if dr == -1 && dc == -2 then 5
    else if dr == 1 && dc == -2 then 6
    else 7
  }

  /** A step is a knight move exactly when some table entry produces it. */
  lemma KnightStepIffTableMove(a: Pos, b: Pos)
    ensures KnightStep(a, b) <==> exists i :: 0 <= i < 8 && Target(a, i) == b
  {
    if KnightStep(a, b) {
      var i := OffsetIndex(b.0 - a.0, b.1 - a.1);
      assert Target(a, i) == b;
    }
    if exists i :: 0 <= i < 8 && Target(a, i) == b {
      var i :| 0 <= i < 8 && Target(a, i) == b;
      MoveTableIsKnight();
      assert IsKnightOffset(DeltaLinha[i], DeltaColuna[i]);
    }
  }
}
