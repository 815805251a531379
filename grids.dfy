/**
 * Boolean occupancy grids, indexed `[row][column]`, and the number of
 * occupied cells in them. Both the 4x4 piece masks and the playfield are
 * grids of this kind.
 */
module Grids {

  type Grid = seq<seq<bool>>

  /** `g` has exactly `h` rows of exactly `w` cells each. */
  predicate WellFormed(g: Grid, w: int, h: int)
  {
    |g| == h && forall r :: 0 <= r < |g| ==> |g[r]| == w
  }

  function B2N(b: bool): nat
  {
    if b then 1 else 0
  }

  /** Number of occupied cells of a row (counted from its last cell). */
  function RowCount(s: seq<bool>): nat
  {
    if |s| == 0 then 0 else RowCount(s[..|s| - 1]) + B2N(s[|s| - 1])
  }

  /** Number of occupied cells of a grid (counted from its last row). */
  function GridCount(g: Grid): nat
  {
    if |g| == 0 then 0 else GridCount(g[..|g| - 1]) + RowCount(g[|g| - 1])
  }

  /** A row has an occupied cell exactly when its count is positive. */
  lemma {:induction false} RowCountZero(s: seq<bool>)
    ensures RowCount(s) == 0 <==> forall i :: 0 <= i < |s| ==> !s[i]
  {
    if |s| > 0 {
      var p := s[..|s| - 1];
      RowCountZero(p);
      if RowCount(s) == 0 {
        forall i | 0 <= i < |s| ensures !s[i] {
          if i < |s| - 1 { assert s[i] == p[i]; }
        }
      } else if forall i :: 0 <= i < |s| ==> !s[i] {
        forall i | 0 <= i < |p| ensures !p[i] { assert p[i] == s[i]; }
        assert false;
      }
    }
  }

  /** A row is full exactly when its count is its length. */
  lemma {:induction false} RowCountFull(s: seq<bool>)
    ensures RowCount(s) <= |s|
    ensures RowCount(s) == |s| <==> forall i :: 0 <= i < |s| ==> s[i]
  {
    if |s| > 0 {
      var p := s[..|s| - 1];
      RowCountFull(p);
      if RowCount(s) == |s| {
        forall i | 0 <= i < |s| ensures s[i] {
          if i < |s| - 1 { assert s[i] == p[i]; }
        }
      } else if forall i :: 0 <= i < |s| ==> s[i] {
        forall i | 0 <= i < |p| ensures p[i] { assert p[i] == s[i]; }
        assert false;
      }
    }
  }

  /**
   * A row that is the cell-wise union of two rows with no common occupied
   * cell holds as many occupied cells as the two together.
   */
  lemma {:induction false} DisjointUnionRowCount(a: seq<bool>, b: seq<bool>, o: seq<bool>)
    requires |a| == |b| == |o|
    requires forall i :: 0 <= i < |o| ==> o[i] == (a[i] || b[i])
    requires forall i :: 0 <= i < |o| ==> !(a[i] && b[i])
    ensures RowCount(o) == RowCount(a) + RowCount(b)
  {
    if |o| > 0 {
      var n := |o| - 1;
      DisjointUnionRowCount(a[..n], b[..n], o[..n]);
    }
  }

  /** The grid version of DisjointUnionRowCount, row by row. */
  lemma {:induction false} DisjointUnionGridCount(a: Grid, b: Grid, o: Grid)
    requires |a| == |b| == |o|
    requires forall r :: 0 <= r < |o| ==> RowCount(o[r]) == RowCount(a[r]) + RowCount(b[r])
    ensures GridCount(o) == GridCount(a) + GridCount(b)
  {
    if |o| > 0 {
      var n := |o| - 1;
      DisjointUnionGridCount(a[..n], b[..n], o[..n]);
    }
  }

  /** The count of a row of four cells, written out. */
  lemma RowCount4(s: seq<bool>)
    requires |s| == 4
    ensures RowCount(s) == B2N(s[0]) + B2N(s[1]) + B2N(s[2]) + B2N(s[3])
  {
    assert s[..3][..2] == s[..2];
    assert s[..2][..1] == s[..1];
    assert s[..1][..0] == [];
    assert RowCount(s[..1]) == B2N(s[0]);
    assert RowCount(s[..2]) == B2N(s[0]) + B2N(s[1]);
    assert RowCount(s[..3]) == B2N(s[0]) + B2N(s[1]) + B2N(s[2]);
  }

  /** The count of a grid of four rows, written out. */
  lemma GridCount4(g: Grid)
    requires |g| == 4
    ensures GridCount(g) == RowCount(g[0]) + RowCount(g[1]) + RowCount(g[2]) + RowCount(g[3])
  {
    assert g[..3][..2] == g[..2];
    assert g[..2][..1] == g[..1];
    assert g[..1][..0] == [];
  }
}
