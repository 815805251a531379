/**
 * The playfield (src/board.rs): a W x H grid of locked cells, the falling
 * block, its position and the score. The pure functions first state what
 * each operation computes; the class `Board` then carries out the source's
 * loops in place and is proved against them.
 */
module Boards {
  import opened Grids
  import opened Blocks

  /** A grid position; `y` grows downwards from row 0 at the top. */
  datatype Point = Point(x: int, y: int)
  {
    function Offset(dx: int, dy: int): Point
    {
      Point(x + dx, y + dy)
    }
  }

  /** The directions of `mv`. */
  datatype Dir = Left | Right | Up | Down

  /** The keys the board reacts to; every other key is `Other`. */
  datatype Key = Up | Down | Left | Right | Space | Other

  // ---------------------------------------------------------------------
  // Collision

  /**
   * Mask cell (x, y) of `m`, placed with its box at `p`, is occupied and
   * lies outside [0,w) x [0,h) or on a locked cell of `g`.
   */
  predicate Hits(g: Grid, w: int, h: int, m: Mask, p: Point, x: int, y: int)
    requires WellFormed(g, w, h) && 0 <= x < 4 && 0 <= y < 4
  {
    var absX, absY := p.x + x, p.y + y;
    m[y][x] && (absY >= h || absY < 0 || absX >= w || absX < 0 || g[absY][absX])
  }

  /** Some occupied cell of the mask placed at `p` hits a wall, the floor, the top or a locked cell. */
  predicate Collides(g: Grid, w: int, h: int, m: Mask, p: Point)
    requires WellFormed(g, w, h)
  {
    exists y, x :: 0 <= y < 4 && 0 <= x < 4 && Hits(g, w, h, m, p, x, y)
  }

  /** Every occupied cell of the mask placed at `p` lies inside the field. */
  predicate InBounds(w: int, h: int, m: Mask, p: Point)
  {
    forall y, x :: 0 <= y < 4 && 0 <= x < 4 && m[y][x] ==> 0 <= p.x + x < w && 0 <= p.y + y < h
  }

  /** A piece that does not collide lies inside the field and off every locked cell. */
  lemma NoCollisionPlacement(g: Grid, w: int, h: int, m: Mask, p: Point)
    requires WellFormed(g, w, h) && !Collides(g, w, h, m, p)
    ensures InBounds(w, h, m, p)
    ensures forall y, x :: 0 <= y < 4 && 0 <= x < 4 && m[y][x] ==> !g[p.y + y][p.x + x]
  {
    forall y, x | 0 <= y < 4 && 0 <= x < 4 && m[y][x]
      ensures 0 <= p.x + x < w && 0 <= p.y + y < h && !g[p.y + y][p.x + x]
    {
      assert !Hits(g, w, h, m, p, x, y);
    }
  }

  /**
   * Collision is monotone in the grid: a piece that collides keeps
   * colliding once more cells are locked.
   */
  lemma CollidesMonotone(g: Grid, g': Grid, w: int, h: int, m: Mask, p: Point)
    requires WellFormed(g, w, h) && WellFormed(g', w, h)
    requires forall r, c :: 0 <= r < h && 0 <= c < w && g[r][c] ==> g'[r][c]
    requires Collides(g, w, h, m, p)
    ensures Collides(g', w, h, m, p)
  {
    var y, x :| 0 <= y < 4 && 0 <= x < 4 && Hits(g, w, h, m, p, x, y);
    assert Hits(g', w, h, m, p, x, y);
  }

  /**
   * A fresh block spawned at the top centre of a field whose row 1 is full
   * collides: every shape has a cell in row 1.
   */
  lemma SpawnOnFullRowOneCollides(g: Grid, w: int, h: int, variant: BlockType)
    requires 5 <= w && 4 <= h && WellFormed(g, w, h)
    requires RowFull(g[1])
    ensures Collides(g, w, h, New(variant).cells, Point(w / 2, 0))
  {
    NewShape(variant);
    var x :| 0 <= x <= 2 && New(variant).cells[1][x];
    assert g[1][w / 2 + x];
    assert Hits(g, w, h, New(variant).cells, Point(w / 2, 0), x, 1);
  }

  /** A fresh block spawned at the top centre of a field at least 5 x 4 lies inside it. */
  lemma SpawnInBounds(w: int, h: int, variant: BlockType)
    requires 5 <= w && 4 <= h
    ensures InBounds(w, h, New(variant).cells, Point(w / 2, 0))
  {
  }

  // ---------------------------------------------------------------------
  // Locking a piece

  /** Mask `m` placed at `p` occupies grid cell (row `r`, column `c`). */
  predicate Covers(m: Mask, p: Point, r: int, c: int)
  {
    0 <= r - p.y < 4 && 0 <= c - p.x < 4 && m[r - p.y][c - p.x]
  }

  /** The grid with the piece's occupied cells locked in. */
  function Locked(g: Grid, m: Mask, p: Point): Grid
  {
    seq(|g|, r requires 0 <= r < |g| =>
      seq(|g[r]|, c requires 0 <= c < |g[r]| => g[r][c] || Covers(m, p, r, c)))
  }

  /**
   * Locking sets exactly the cells under the piece's occupied mask cells
   * and leaves every other cell as it was.
   */
  lemma LockedCells(g: Grid, w: int, h: int, m: Mask, p: Point)
    requires WellFormed(g, w, h) && InBounds(w, h, m, p)
    ensures WellFormed(Locked(g, m, p), w, h)
    ensures forall y, x :: 0 <= y < 4 && 0 <= x < 4 && m[y][x] ==> Locked(g, m, p)[p.y + y][p.x + x]
    ensures forall r, c :: 0 <= r < h && 0 <= c < w && !Covers(m, p, r, c) ==>
      Locked(g, m, p)[r][c] == g[r][c]
  {
  }

  /** The piece drawn on an empty w x h grid. */
  function Footprint(m: Mask, p: Point, w: nat, h: nat): Grid
  {
    seq(h, r => seq(w, c => Covers(m, p, r, c)))
  }

  /** The first `k` cells of a grid row that holds mask row `row` from column `px` on. */
  function ShiftedRow(row: seq<bool>, px: int, k: nat): seq<bool>
    requires |row| == 4
  {
    seq(k, c => 0 <= c - px < 4 && row[c - px])
  }

  /** How many occupied cells of a four-cell row fall in columns [0, k) when shifted by `px`. */
  function CellsBefore(row: seq<bool>, px: int, k: int): nat
    requires |row| == 4
  {
    B2N(row[0] && 0 <= px < k) + B2N(row[1] && 0 <= px + 1 < k) +
    B2N(row[2] && 0 <= px + 2 < k) + B2N(row[3] && 0 <= px + 3 < k)
  }

  lemma {:induction false} ShiftedRowCount(row: seq<bool>, px: int, k: nat)
    requires |row| == 4
    ensures RowCount(ShiftedRow(row, px, k)) == CellsBefore(row, px, k)
  {
    if k > 0 {
      assert ShiftedRow(row, px, k)[..k - 1] == ShiftedRow(row, px, k - 1);
      ShiftedRowCount(row, px, k - 1);
    }
  }

  /** How many occupied mask cells fall in rows [0, k) when the mask's top is at row `py`. */
  function RowsBefore(m: Mask, py: int, k: int): nat
  {
    (if 0 <= py < k then RowCount(m[0]) else 0) + (if 0 <= py + 1 < k then RowCount(m[1]) else 0) +
    (if 0 <= py + 2 < k then RowCount(m[2]) else 0) + (if 0 <= py + 3 < k then RowCount(m[3]) else 0)
  }

  /** Row `r` of the footprint holds the cells of the matching mask row, or none. */
  lemma FootprintRowCount(m: Mask, p: Point, w: nat, h: nat, r: nat)
    requires InBounds(w, h, m, p) && r < h
    ensures RowCount(Footprint(m, p, w, h)[r]) == if 0 <= r - p.y < 4 then RowCount(m[r - p.y]) else 0
  {
    var f := Footprint(m, p, w, h)[r];
    if 0 <= r - p.y < 4 {
      var row := m[r - p.y];
      assert f == ShiftedRow(row, p.x, w);
      ShiftedRowCount(row, p.x, w);
      RowCount4(row);
    } else {
      RowCountZero(f);
    }
  }

  lemma {:induction false} FootprintPrefixCount(m: Mask, p: Point, w: nat, h: nat, k: nat)
    requires InBounds(w, h, m, p) && k <= h
    ensures GridCount(Footprint(m, p, w, h)[..k]) == RowsBefore(m, p.y, k)
  {
    if k > 0 {
      var f := Footprint(m, p, w, h);
      assert f[..k][..k - 1] == f[..k - 1];
      FootprintPrefixCount(m, p, w, h, k - 1);
      FootprintRowCount(m, p, w, h, k - 1);
    }
  }

  /** A piece inside the field has as many cells in its footprint as in its mask. */
  lemma FootprintCount(m: Mask, p: Point, w: nat, h: nat)
    requires InBounds(w, h, m, p)
    ensures GridCount(Footprint(m, p, w, h)) == GridCount(m)
  {
    var f := Footprint(m, p, w, h);
    FootprintPrefixCount(m, p, w, h, h);
    assert f[..h] == f;
    GridCount4(m);
    forall y | 0 <= y < 4 && !(0 <= p.y + y < h) ensures RowCount(m[y]) == 0 {
      RowCountZero(m[y]);
    }
  }

  /**
   * Locking a piece that does not collide adds exactly the mask's number of
   * occupied cells to the number of locked cells.
   */
  lemma LockedCount(g: Grid, w: nat, h: nat, m: Mask, p: Point)
    requires WellFormed(g, w, h) && !Collides(g, w, h, m, p)
    ensures GridCount(Locked(g, m, p)) == GridCount(g) + GridCount(m)
  {
    NoCollisionPlacement(g, w, h, m, p);
    var lk, f := Locked(g, m, p), Footprint(m, p, w, h);
    forall r | 0 <= r < h ensures RowCount(lk[r]) == RowCount(g[r]) + RowCount(f[r]) {
      forall c | 0 <= c < w ensures !(g[r][c] && f[r][c]) {
        if Covers(m, p, r, c) {
          assert m[r - p.y][c - p.x];
        }
      }
      DisjointUnionRowCount(g[r], f[r], lk[r]);
    }
    DisjointUnionGridCount(g, f, lk);
    FootprintCount(m, p, w, h);
  }

  // ---------------------------------------------------------------------
  // Line clearing

  /** Every cell of the row is locked. */
  predicate RowFull(s: seq<bool>)
  {
    forall x :: 0 <= x < |s| ==> s[x]
  }

  predicate NoFullRow(g: Grid)
  {
    forall r :: 0 <= r < |g| ==> !RowFull(g[r])
  }

  /** `clear(row)`: rows 1..row take the contents of the row above; row 0 and the rows below `row` stay. */
  function ShiftDown(g: Grid, row: nat): Grid
    requires row < |g|
  {
    seq(|g|, r requires 0 <= r < |g| => if 1 <= r <= row then g[r - 1] else g[r])
  }

  /** Row by row: rows 1..row move down by one, row 0 and every row below `row` keep their contents. */
  lemma ShiftDownRows(g: Grid, row: nat)
    requires row < |g|
    ensures |ShiftDown(g, row)| == |g|
    ensures forall r :: 1 <= r <= row ==> ShiftDown(g, row)[r] == g[r - 1]
    ensures ShiftDown(g, row)[0] == g[0]
    ensures forall r :: row < r < |g| ==> ShiftDown(g, row)[r] == g[r]
  {
  }

  /** `clear(0)` changes nothing. */
  lemma ShiftDownZero(g: Grid)
    requires 0 < |g|
    ensures ShiftDown(g, 0) == g
  {
  }

  /** The grid after `try_clear`'s scan has passed rows y..|g|-1, top to bottom, in place. */
  function ClearFrom(g: Grid, y: nat): Grid
    decreases |g| - y
  {
    if y >= |g| then g
    else if RowFull(g[y]) then ClearFrom(ShiftDown(g, y), y + 1)
    else ClearFrom(g, y + 1)
  }

  /** The line values `try_clear`'s scan records over rows y..|g|-1. */
  function LinesFrom(g: Grid, y: nat): seq<nat>
    decreases |g| - y
  {
    if y >= |g| then []
    else if RowFull(g[y]) then [|g| - y] + LinesFrom(ShiftDown(g, y), y + 1)
    else LinesFrom(g, y + 1)
  }

  /** The line values `|g| - r` of the rows r >= y that are full in `g` itself, top to bottom. */
  function FullLines(g: Grid, y: nat): seq<nat>
    decreases |g| - y
  {
    if y >= |g| then []
    else (if RowFull(g[y]) then [|g| - y] else []) + FullLines(g, y + 1)
  }

  /** Unfolding the scan at a full row y. */
  lemma ScanFullUnfold(g: Grid, y: nat)
    requires y < |g| && RowFull(g[y])
    ensures ClearFrom(g, y) == ClearFrom(ShiftDown(g, y), y + 1)
    ensures LinesFrom(g, y) == [|g| - y] + LinesFrom(ShiftDown(g, y), y + 1)
  {
  }

  /** One step of the scan over a full row y: the row is cleared and its line value recorded. */
  lemma ScanFull(g: Grid, g': Grid, y: nat, lines: seq<nat>, lines': seq<nat>, target: Grid, targetLines: seq<nat>)
    requires y < |g| && RowFull(g[y]) && g' == ShiftDown(g, y) && lines' == lines + [|g| - y]
    requires ClearFrom(g, y) == target && lines + LinesFrom(g, y) == targetLines
    ensures ClearFrom(g', y + 1) == target
    ensures lines' + LinesFrom(g', y + 1) == targetLines
  {
    ScanFullUnfold(g, y);
    AppendAssoc(lines, [|g| - y], LinesFrom(g', y + 1));
  }

  lemma AppendAssoc<T>(a: seq<T>, b: seq<T>, c: seq<T>)
    ensures (a + b) + c == a + (b + c)
  {
  }

  /** One step of the scan over a row y that is not full: nothing changes. */
  lemma ScanSkip(g: Grid, y: nat, lines: seq<nat>, target: Grid, targetLines: seq<nat>)
    requires y < |g| && !RowFull(g[y])
    requires ClearFrom(g, y) == target && lines + LinesFrom(g, y) == targetLines
    ensures ClearFrom(g, y + 1) == target && lines + LinesFrom(g, y + 1) == targetLines
  {
  }

  lemma ClearFromWellFormed(g: Grid, w: int, h: int, y: nat)
    requires WellFormed(g, w, h)
    ensures WellFormed(ClearFrom(g, y), w, h)
    decreases |g| - y
  {
    if y < |g| {
      if RowFull(g[y]) {
        ClearFromWellFormed(ShiftDown(g, y), w, h, y + 1);
      } else {
        ClearFromWellFormed(g, w, h, y + 1);
      }
    }
  }

  /** FullLines at row y: the line of row y when it is full, then the rest. */
  lemma FullLinesStep(g: Grid, y: nat)
    requires y < |g|
    ensures FullLines(g, y) == (if RowFull(g[y]) then [|g| - y] else []) + FullLines(g, y + 1)
  {
  }

  /** FullLines from row y only looks at rows y and below. */
  lemma {:induction false} FullLinesAgree(g1: Grid, g2: Grid, y: nat)
    requires |g1| == |g2|
    requires forall r :: y <= r < |g1| ==> g1[r] == g2[r]
    ensures FullLines(g1, y) == FullLines(g2, y)
    decreases |g1| - y
  {
    if y < |g1| {
      FullLinesAgree(g1, g2, y + 1);
      FullLinesStep(g1, y);
      FullLinesStep(g2, y);
      assert g1[y] == g2[y];
    }
  }

  /**
   * The scan records exactly the rows that were full before it started:
   * a clear only rewrites rows the scan has already passed.
   */
  lemma {:induction false} LinesFromFull(g: Grid, y: nat)
    ensures LinesFrom(g, y) == FullLines(g, y)
    decreases |g| - y
  {
    if y < |g| {
      if RowFull(g[y]) {
        var s := ShiftDown(g, y);
        LinesFromFull(s, y + 1);
        FullLinesAgree(s, g, y + 1);
      } else {
        LinesFromFull(g, y + 1);
      }
    }
  }

  /** A value v is recorded exactly when row |g| - v is full. */
  lemma {:induction false} FullLinesMembers(g: Grid, y: nat, v: int)
    ensures v in FullLines(g, y) <==> y < |g| && 1 <= v <= |g| - y && RowFull(g[|g| - v])
    decreases |g| - y
  {
    if y < |g| {
      FullLinesMembers(g, y + 1, v);
      var head: seq<nat> := if RowFull(g[y]) then [|g| - y] else [];
      assert FullLines(g, y) == head + FullLines(g, y + 1);
      assert v in FullLines(g, y) <==> v in head || v in FullLines(g, y + 1);
      assert v in head <==> v == |g| - y && RowFull(g[y]);
    }
  }

  /** How many full rows can lie at or below row y when they all lie in rows [lo, lo + 4). */
  function WindowRows(y: int, lo: int): nat
  {
    if y <= lo then 4 else if y < lo + 4 then lo + 4 - y else 0
  }

  lemma {:induction false} FullLinesInWindow(g: Grid, y: nat, lo: int)
    requires forall r :: y <= r < |g| && RowFull(g[r]) ==> lo <= r < lo + 4
    ensures |FullLines(g, y)| <= WindowRows(y, lo)
    decreases |g| - y
  {
    if y < |g| {
      FullLinesInWindow(g, y + 1, lo);
    }
  }

  /**
   * Locking one piece into a grid with no full row leaves at most four
   * full rows, so `get_score` is never asked about more than four lines.
   */
  lemma LockedFullLines(g: Grid, m: Mask, p: Point)
    requires NoFullRow(g)
    ensures |FullLines(Locked(g, m, p), 0)| <= 4
  {
    var lk := Locked(g, m, p);
    forall r | 0 <= r < |lk| && !(p.y <= r < p.y + 4) ensures lk[r] == g[r] {
      assert forall c :: 0 <= c < |lk[r]| ==> lk[r][c] == g[r][c];
    }
    FullLinesInWindow(lk, 0, p.y);
  }

  lemma {:induction false} ClearFromNoFullRowAux(g: Grid, y: nat)
    requires 0 < |g| && !RowFull(g[0])
    requires forall r :: 0 <= r < y && r < |g| ==> !RowFull(g[r])
    ensures NoFullRow(ClearFrom(g, y))
    decreases |g| - y
  {
    if y < |g| {
      if RowFull(g[y]) {
        var s := ShiftDown(g, y);
        assert forall r :: 0 <= r < y + 1 ==> !RowFull(s[r]) by {
          forall r | 0 <= r < y + 1 ensures !RowFull(s[r]) {
            if 1 <= r { assert s[r] == g[r - 1]; } else { assert s[r] == g[0]; }
          }
        }
        ClearFromNoFullRowAux(s, y + 1);
      } else {
        ClearFromNoFullRowAux(g, y + 1);
      }
    }
  }

  /** When row 0 is not full, the scan leaves no full row behind. */
  lemma ClearFromNoFullRow(g: Grid)
    requires 0 < |g| && !RowFull(g[0])
    ensures NoFullRow(ClearFrom(g, 0))
  {
    ClearFromNoFullRowAux(g, 0);
  }

  // ---------------------------------------------------------------------
  // Scoring

  /**
   * `get_score(y, lines)`: the score for a cleared line of value `y` when
   * `lines` lines were cleared at once. More than four lines is the
   * source's `unreachable!()`, excluded here.
   */
  function GetScore(y: nat, lines: nat): nat
    requires lines <= 4
  {
    match lines
    case 0 => 0
    case 1 => 40 * y
    case 2 => 100 * y
    case 3 => 300 * y
    case 4 => 1200 * y
  }

  /** The multiplier for each number of lines cleared at once. */
  const LineBase: seq<nat> := [0, 40, 100, 300, 1200]

  lemma GetScoreTable(y: nat, lines: nat)
    requires lines <= 4
    ensures GetScore(y, lines) == LineBase[lines] * y
  {
  }

  /** Score of a whole clear: each recorded line scored with the total count `n`. */
  function TotalScore(lines: seq<nat>, n: nat): nat
    requires n <= 4
  {
    if |lines| == 0 then 0 else TotalScore(lines[..|lines| - 1], n) + GetScore(lines[|lines| - 1], n)
  }

  function Sum(s: seq<nat>): nat
  {
    if |s| == 0 then 0 else Sum(s[..|s| - 1]) + s[|s| - 1]
  }

  /** All lines of one clear share one multiplier: the score is the multiplier times their total value. */
  lemma {:induction false} TotalScoreUniform(lines: seq<nat>, n: nat)
    requires n <= 4
    ensures TotalScore(lines, n) == LineBase[n] * Sum(lines)
  {
    if |lines| > 0 {
      TotalScoreUniform(lines[..|lines| - 1], n);
      var s, v := Sum(lines[..|lines| - 1]), lines[|lines| - 1];
      assert LineBase[n] * (s + v) == LineBase[n] * s + LineBase[n] * v;
    }
  }

  /** With the bottom row the only full row from y on, the scan records just line 1 and clears the bottom row. */
  lemma {:induction false} BottomOnly(g: Grid, y: nat)
    requires 0 < |g| && y < |g| && RowFull(g[|g| - 1])
    requires forall r :: y <= r < |g| - 1 ==> !RowFull(g[r])
    ensures FullLines(g, y) == [1]
    ensures ClearFrom(g, y) == ShiftDown(g, |g| - 1)
    decreases |g| - y
  {
    if y < |g| - 1 {
      BottomOnly(g, y + 1);
    } else {
      assert FullLines(g, y) == [1] + FullLines(g, y + 1);
      assert ClearFrom(g, y) == ClearFrom(ShiftDown(g, y), y + 1);
    }
  }

  /**
   * When only the bottom row is full, `try_clear` records line 1 alone,
   * shifts every row above it down by one and adds 40.
   */
  lemma BottomLineScore(g: Grid)
    requires 0 < |g| && RowFull(g[|g| - 1])
    requires forall r :: 0 <= r < |g| - 1 ==> !RowFull(g[r])
    ensures LinesFrom(g, 0) == FullLines(g, 0) == [1]
    ensures ClearFrom(g, 0) == ShiftDown(g, |g| - 1)
    ensures TotalScore(FullLines(g, 0), |FullLines(g, 0)|) == 40
  {
    BottomOnly(g, 0);
    LinesFromFull(g, 0);
    assert [1][..0] == [];
  }

  /** With no full row from y on, the scan changes nothing and records nothing. */
  lemma {:induction false} ClearFromNoFull(g: Grid, y: nat)
    requires forall r :: y <= r < |g| ==> !RowFull(g[r])
    ensures ClearFrom(g, y) == g && LinesFrom(g, y) == [] && FullLines(g, y) == []
    decreases |g| - y
  {
    if y < |g| {
      ClearFromNoFull(g, y + 1);
    }
  }

  /**
   * A lock that fills no row: the scan leaves the locked grid as it is,
   * nothing is scored, and the number of locked cells grows by exactly the
   * piece's cell count.
   */
  lemma LockWithoutClear(g: Grid, w: nat, h: nat, m: Mask, p: Point)
    requires WellFormed(g, w, h) && !Collides(g, w, h, m, p) && NoFullRow(Locked(g, m, p))
    ensures ClearFrom(Locked(g, m, p), 0) == Locked(g, m, p)
    ensures FullLines(Locked(g, m, p), 0) == []
    ensures TotalScore(FullLines(Locked(g, m, p), 0), 0) == 0
    ensures GridCount(ClearFrom(Locked(g, m, p), 0)) == GridCount(g) + GridCount(m)
  {
    ClearFromNoFull(Locked(g, m, p), 0);
    LockedCount(g, w, h, m, p);
  }

  /** The scan never changes row 0: `clear` leaves it as it was. */
  lemma {:induction false} ClearFromRowZero(g: Grid, y: nat)
    requires 0 < |g|
    ensures |ClearFrom(g, y)| == |g| && ClearFrom(g, y)[0] == g[0]
    decreases |g| - y
  {
    if y < |g| {
      if RowFull(g[y]) {
        ShiftDownRows(g, y);
        ClearFromRowZero(ShiftDown(g, y), y + 1);
      } else {
        ClearFromRowZero(g, y + 1);
      }
    }
  }

  /**
   * A full row 0 is recorded by every scan (as line |g|) and is still full
   * afterwards, so it counts against `get_score`'s four-line limit at every
   * later lock.
   */
  lemma FullRowZeroStays(g: Grid)
    requires 0 < |g| && RowFull(g[0])
    ensures |g| in FullLines(g, 0)
    ensures |ClearFrom(g, 0)| == |g| && RowFull(ClearFrom(g, 0)[0])
  {
    FullLinesMembers(g, 0, |g|);
    ClearFromRowZero(g, 0);
  }

  /** A 5-row grid with every row full records five lines. */
  lemma FullLinesFive(g: Grid)
    requires |g| == 5 && forall r :: 0 <= r < 5 ==> RowFull(g[r])
    ensures FullLines(g, 0) == [5, 4, 3, 2, 1]
  {
    assert FullLines(g, 4) == [1];
    assert FullLines(g, 3) == [2, 1];
    assert FullLines(g, 2) == [3, 2, 1];
    assert FullLines(g, 1) == [4, 3, 2, 1];
  }

  // ---------------------------------------------------------------------
  // The board

  class Board {
    const size: Point
    var block: Block
    var blockPos: Point
    var cells: Grid
    var score: nat

    /** The grid matches the size, and the falling block lies inside the field. */
    ghost predicate Valid()
      reads this
    {
      5 <= size.x && 4 <= size.y && WellFormed(cells, size.x, size.y) &&
      InBounds(size.x, size.y, block.cells, blockPos)
    }

    /** The falling block hits a wall, the floor or a locked cell where it stands. */
    ghost predicate PieceCollides()
      reads this
      requires WellFormed(cells, size.x, size.y)
    {
      Collides(cells, size.x, size.y, block.cells, blockPos)
    }

    /**
     * Moving down from here does not reach `get_score`'s `unreachable!()`:
     * if the block would lock, at most four rows are full after locking.
     */
    ghost predicate DownSafe()
      reads this
      requires Valid()
    {
      Collides(cells, size.x, size.y, block.cells, blockPos.Offset(0, 1)) ==>
        |FullLines(Locked(cells, block.cells, blockPos), 0)| <= 4
    }

    /** With no full row on the board, moving down is safe. */
    lemma NoFullRowDownSafe()
      requires Valid() && NoFullRow(cells)
      ensures DownSafe()
    {
      LockedFullLines(cells, block.cells, blockPos);
    }

    /**
     * Without the no-full-row hypothesis the bound fails: on a 5 x 5 field
     * whose row 0 is full and whose rows 1..4 are full except column 0, an
     * upright I at (-1, 1) lies inside the field, touches no locked cell,
     * and locking it leaves five full rows.
     */
    lemma FullRowZeroNotDownSafe()
      requires size == Point(5, 5) && block == New(I) && blockPos == Point(-1, 1)
      requires cells == [[true, true, true, true, true],
                         [false, true, true, true, true],
                         [false, true, true, true, true],
                         [false, true, true, true, true],
                         [false, true, true, true, true]]
      ensures Valid() && !PieceCollides()
      ensures !DownSafe()
    {
      assert Hits(cells, 5, 5, block.cells, blockPos.Offset(0, 1), 1, 3);
      var lk := Locked(cells, block.cells, blockPos);
      forall r | 0 <= r < 5 ensures RowFull(lk[r]) {
        assert forall c :: 0 <= c < 5 ==> lk[r][c];
      }
      FullLinesFive(lk);
    }

    /** A board just made by `Board::new(w, h)` whose first block has shape `next`. */
    ghost predicate IsNew(w: int, h: int, next: BlockType)
      reads this
    {
      size == Point(w, h) && block == New(next) && blockPos == Point(w / 2, 0) && score == 0 &&
      WellFormed(cells, w, h) && forall r, c :: 0 <= r < h && 0 <= c < w ==> !cells[r][c]
    }

    /** `Board::new(w, h)`, with the first block's shape supplied by the caller. */
    constructor (w: int, h: int, next: BlockType)
      requires 5 <= w && 4 <= h
      ensures Valid() && IsNew(w, h, next)
    {
      size := Point(w, h);
      block := New(next);
      blockPos := Point(w / 2, 0);
      cells := seq(h, _ => seq(w, _ => false));
      score := 0;
      SpawnInBounds(w, h, next);
    }

    /** The new state after `mv(Left)` (dx = -1) or `mv(Right)` (dx = 1). */
    twostate predicate Shifted(dx: int)
      reads this
      requires old(Valid())
    {
      var target := old(blockPos).Offset(dx, 0);
      block == old(block) && cells == old(cells) && score == old(score) &&
      blockPos == if Collides(old(cells), size.x, size.y, old(block).cells, target) then old(blockPos) else target
    }

    /** The new state after `rotate`: the clockwise turn at the first of three positions that fits. */
    twostate predicate Turned()
      reads this
      requires old(Valid())
    {
      var cand, p := Rotated(old(block), Clockwise), old(blockPos);
      cells == old(cells) && score == old(score) &&
      if !Collides(old(cells), size.x, size.y, cand.cells, p) then
        block == cand && blockPos == p
      else if !Collides(old(cells), size.x, size.y, cand.cells, p.Offset(1, 0)) then
        block == cand && blockPos == p.Offset(1, 0)
      else if !Collides(old(cells), size.x, size.y, cand.cells, p.Offset(-1, 0)) then
        block == cand && blockPos == p.Offset(-1, 0)
      else
        block == old(block) && blockPos == p
    }

    /**
     * The new state after `mv(Down)`: one row down if that is free;
     * otherwise the block is locked, full rows are cleared and scored, and
     * a block of shape `next` is placed at the top centre.
     */
    twostate predicate Fell(next: BlockType)
      reads this
      requires old(Valid())
    {
      var below := old(blockPos).Offset(0, 1);
      if !Collides(old(cells), size.x, size.y, old(block).cells, below) then
        block == old(block) && blockPos == below && cells == old(cells) && score == old(score)
      else
        var locked := Locked(old(cells), old(block).cells, old(blockPos));
        var lines := FullLines(locked, 0);
        |lines| <= 4 &&
        cells == ClearFrom(locked, 0) && score == old(score) + TotalScore(lines, |lines|) &&
        block == New(next) && blockPos == Point(size.x / 2, 0)
    }

    /** The new state after `input(key)`. */
    twostate predicate Handled(key: Key, next: BlockType)
      reads this
      requires old(Valid())
    {
      match key
      case Up => unchanged(this)
      case Down => Fell(next)
      case Left => Shifted(-1)
      case Right => Shifted(1)
      case Space => Turned()
      case Other => unchanged(this)
    }

    /** `input`: the arrows move the block, Space rotates it, other keys do nothing. */
    method Input(key: Key, next: BlockType)
      requires Valid()
      requires key == Key.Down ==> DownSafe()
      modifies this
      ensures Valid()
      ensures Handled(key, next)
      ensures key != Key.Down && !old(PieceCollides()) ==> !PieceCollides()
    {
      match key {
        case Up =>
          var _ := Mv(Dir.Up, next);
        case Down =>
          var _ := Mv(Dir.Down, next);
        case Left =>
          var _ := Mv(Dir.Left, next);
        case Right =>
          var _ := Mv(Dir.Right, next);
        case Space =>
          Rotate();
        case Other =>
      }
    }

    /** `rotate`: the wall kick tries the turned block at pos, then pos + (1, 0), then pos + (-1, 0). */
    method Rotate()
      requires Valid()
      modifies this
      ensures Valid()
      ensures Turned()
      ensures !old(PieceCollides()) ==> !PieceCollides()
    {
      var rotatedBlock := Blocks.Rotate(block, Clockwise);
      var pos := blockPos;
      var hit := CheckCollision(rotatedBlock, pos);
      if !hit {
        NoCollisionPlacement(cells, size.x, size.y, rotatedBlock.cells, pos);
        block := rotatedBlock;
        return;
      }
      pos := blockPos.Offset(1, 0);
      hit := CheckCollision(rotatedBlock, pos);
      if !hit {
        NoCollisionPlacement(cells, size.x, size.y, rotatedBlock.cells, pos);
        block := rotatedBlock;
        blockPos := pos;
        return;
      }
      pos := blockPos.Offset(-1, 0);
      hit := CheckCollision(rotatedBlock, pos);
      if !hit {
        NoCollisionPlacement(cells, size.x, size.y, rotatedBlock.cells, pos);
        block := rotatedBlock;
        blockPos := pos;
      }
    }

    /** `step`: one tick of gravity; true when the newly placed block collides (game over). */
    method Step(next: BlockType) returns (over: bool)
      requires Valid() && DownSafe()
      modifies this
      ensures Valid()
      ensures Fell(next)
      ensures over == PieceCollides()
    {
      over := Mv(Dir.Down, next);
    }

    /** `mv`: Up does nothing; Left and Right shift when free; Down falls or locks. */
    method Mv(dir: Dir, next: BlockType) returns (r: bool)
      requires Valid()
      requires dir == Dir.Down ==> DownSafe()
      modifies this
      ensures Valid()
      ensures dir == Dir.Up ==> !r && unchanged(this)
      ensures dir == Dir.Left ==> !r && Shifted(-1)
      ensures dir == Dir.Right ==> !r && Shifted(1)
      ensures dir == Dir.Down ==> Fell(next) && r == PieceCollides()
      ensures dir != Dir.Down && !old(PieceCollides()) ==> !PieceCollides()
    {
      match dir {
        case Up =>
          return false;
        case Down =>
          r := Fall(next);
        case Left =>
          var hit := CheckCollision(block, blockPos.Offset(-1, 0));
          if !hit {
            NoCollisionPlacement(cells, size.x, size.y, block.cells, blockPos.Offset(-1, 0));
            blockPos := blockPos.(x := blockPos.x - 1);
          }
          return false;
        case Right =>
          var hit := CheckCollision(block, blockPos.Offset(1, 0));
          if !hit {
            NoCollisionPlacement(cells, size.x, size.y, block.cells, blockPos.Offset(1, 0));
            blockPos := blockPos.(x := blockPos.x + 1);
          }
          return false;
      }
    }

    /** The `Down` arm of `mv`: fall one row when free, otherwise lock, clear and spawn. */
    method Fall(next: BlockType) returns (over: bool)
      requires Valid() && DownSafe()
      modifies this
      ensures Valid()
      ensures Fell(next)
      ensures over == PieceCollides()
    {
      var hit := CheckCollision(block, blockPos.Offset(0, 1));
      if hit {
        DropBlock();
        TryClear();
        block := New(next);
        blockPos := Point(size.x / 2, 0);
        SpawnInBounds(size.x, size.y, next);
        over := CheckCollision(block, blockPos);
        if over {
          return true;
        }
      } else {
        NoCollisionPlacement(cells, size.x, size.y, block.cells, blockPos.Offset(0, 1));
        blockPos := blockPos.(y := blockPos.y + 1);
      }
      return false;
    }

    /** `check_collision`: scans the 16 mask cells and stops at the first one that hits. */
    method CheckCollision(b: Block, pos: Point) returns (r: bool)
      requires WellFormed(cells, size.x, size.y)
      ensures r == Collides(cells, size.x, size.y, b.cells, pos)
    {
      for y := 0 to 4
        invariant forall y', x' :: 0 <= y' < y && 0 <= x' < 4 ==> !Hits(cells, size.x, size.y, b.cells, pos, x', y')
      {
        for x := 0 to 4
          invariant forall y', x' :: 0 <= y' < y && 0 <= x' < 4 ==> !Hits(cells, size.x, size.y, b.cells, pos, x', y')
          invariant forall x' :: 0 <= x' < x ==> !Hits(cells, size.x, size.y, b.cells, pos, x', y)
        {
          if b.cells[y][x] {
            var absX := pos.x + x;
            var absY := pos.y + y;
            if absY >= size.y || absY < 0 || absX >= size.x || absX < 0 || cells[absY][absX] {
              assert Hits(cells, size.x, size.y, b.cells, pos, x, y);
              return true;
            }
          }
        }
      }
      return false;
    }

    /** `drop_block`: locks the falling block's occupied cells into the grid. */
    method DropBlock()
      requires Valid()
      modifies this
      ensures Valid()
      ensures cells == Locked(old(cells), block.cells, blockPos)
      ensures block == old(block) && blockPos == old(blockPos) && score == old(score)
      ensures !old(PieceCollides()) ==> GridCount(cells) == old(GridCount(cells)) + GridCount(block.cells)
    {
      for y := 0 to 4
        invariant WellFormed(cells, size.x, size.y)
        invariant block == old(block) && blockPos == old(blockPos) && score == old(score)
        invariant forall r, c :: 0 <= r < size.y && 0 <= c < size.x ==>
          cells[r][c] == (old(cells)[r][c] || (Covers(block.cells, blockPos, r, c) && r - blockPos.y < y))
      {
        for x := 0 to 4
          invariant WellFormed(cells, size.x, size.y)
          invariant block == old(block) && blockPos == old(blockPos) && score == old(score)
          invariant forall r, c :: 0 <= r < size.y && 0 <= c < size.x ==>
            cells[r][c] == (old(cells)[r][c] || (Covers(block.cells, blockPos, r, c) &&
              (r - blockPos.y < y || (r - blockPos.y == y && c - blockPos.x < x))))
        {
          if block.cells[y][x] {
            var absY := blockPos.y + y;
            var absX := blockPos.x + x;
            cells := cells[absY := cells[absY][absX := true]];
          }
        }
      }
      LockedCells(old(cells), size.x, size.y, block.cells, blockPos);
      assert forall r :: 0 <= r < size.y ==> cells[r] == Locked(old(cells), block.cells, blockPos)[r];
      if !Collides(old(cells), size.x, size.y, block.cells, blockPos) {
        LockedCount(old(cells), size.x, size.y, block.cells, blockPos);
      }
    }

    /**
     * `try_clear`: scans the rows top to bottom, clearing each full row in
     * place and recording its line value, then adds the score of every
     * recorded line.
     */
    method TryClear()
      requires WellFormed(cells, size.x, size.y) && |FullLines(cells, 0)| <= 4
      modifies this
      ensures WellFormed(cells, size.x, size.y)
      ensures cells == ClearFrom(old(cells), 0)
      ensures score == old(score) + TotalScore(FullLines(old(cells), 0), |FullLines(old(cells), 0)|)
      ensures score >= old(score)
      ensures block == old(block) && blockPos == old(blockPos)
      ensures 0 < size.y && !RowFull(old(cells)[0]) ==> NoFullRow(cells)
    {
      var lines := ClearRows();
      LinesFromFull(old(cells), 0);
      AddScores(lines);
      ClearFromWellFormed(old(cells), size.x, size.y, 0);
      if 0 < size.y && !RowFull(old(cells)[0]) {
        ClearFromNoFullRow(old(cells));
      }
    }

    /** The first loop of `try_clear`: clears every full row, top to bottom, and records its line value. */
    method ClearRows() returns (lines: seq<nat>)
      requires WellFormed(cells, size.x, size.y)
      modifies this
      ensures WellFormed(cells, size.x, size.y)
      ensures cells == ClearFrom(old(cells), 0)
      ensures lines == LinesFrom(old(cells), 0)
      ensures block == old(block) && blockPos == old(blockPos) && score == old(score)
    {
      ghost var target, targetLines := ClearFrom(cells, 0), LinesFrom(cells, 0);
      lines := [];
      for y := 0 to size.y
        invariant WellFormed(cells, size.x, size.y)
        invariant ClearFrom(cells, y) == target
        invariant lines + LinesFrom(cells, y) == targetLines
        invariant score == old(score) && block == old(block) && blockPos == old(blockPos)
      {
        lines := ScanRow(y, lines);
      }
    }

    /** One pass of the first loop of `try_clear`: clears row y if it is full and records its line value. */
    method ScanRow(y: int, lines: seq<nat>) returns (lines': seq<nat>)
      requires WellFormed(cells, size.x, size.y) && 0 <= y < size.y
      modifies this
      ensures WellFormed(cells, size.x, size.y)
      ensures cells == if RowFull(old(cells)[y]) then ShiftDown(old(cells), y) else old(cells)
      ensures lines' == lines + if RowFull(old(cells)[y]) then [size.y - y] else []
      ensures ClearFrom(cells, y + 1) == old(ClearFrom(cells, y))
      ensures lines' + LinesFrom(cells, y + 1) == lines + old(LinesFrom(cells, y))
      ensures block == old(block) && blockPos == old(blockPos) && score == old(score)
    {
      ghost var target, targetLines := ClearFrom(cells, y), lines + LinesFrom(cells, y);
      var full := ShouldClear(y);
      if full {
        ghost var before := cells;
        Clear(y);
        lines' := lines + [size.y - y];
        ScanFull(before, cells, y, lines, lines', target, targetLines);
      } else {
        lines' := lines;
        ScanSkip(cells, y, lines, target, targetLines);
      }
    }

    /** The second loop of `try_clear`: every recorded line scores with the number of lines as multiplier. */
    method AddScores(lines: seq<nat>)
      requires |lines| <= 4
      modifies this
      ensures score == old(score) + TotalScore(lines, |lines|)
      ensures cells == old(cells) && block == old(block) && blockPos == old(blockPos)
    {
      for i := 0 to |lines|
        invariant score == old(score) + TotalScore(lines[..i], |lines|)
        invariant cells == old(cells) && block == old(block) && blockPos == old(blockPos)
      {
        assert lines[..i + 1][..i] == lines[..i];
        score := score + GetScore(lines[i], |lines|);
      }
      assert lines[..|lines|] == lines;
    }

    /** `should_clear(row)`: every cell of the row is locked. */
    method ShouldClear(row: int) returns (r: bool)
      requires WellFormed(cells, size.x, size.y) && 0 <= row < size.y
      ensures r == RowFull(cells[row])
      ensures r <==> RowCount(cells[row]) == size.x
    {
      RowCountFull(cells[row]);
      for x := 0 to size.x
        invariant forall c :: 0 <= c < x ==> cells[row][c]
      {
        if !cells[row][x] {
          return false;
        }
      }
      return true;
    }

    /**
     * `clear(row)`: from row - 1 up to row 0, copies each row into the one
     * below it, cell by cell. Row 0 keeps its contents.
     */
    method Clear(row: int)
      requires WellFormed(cells, size.x, size.y) && 0 <= row < size.y
      modifies this
      ensures WellFormed(cells, size.x, size.y)
      ensures cells == ShiftDown(old(cells), row)
      ensures block == old(block) && blockPos == old(blockPos) && score == old(score)
    {
      var y := row;
      while y > 0
        invariant 0 <= y <= row
        invariant WellFormed(cells, size.x, size.y)
        invariant block == old(block) && blockPos == old(blockPos) && score == old(score)
        invariant forall r :: 0 <= r <= y ==> cells[r] == old(cells)[r]
        invariant forall r :: y < r <= row ==> cells[r] == old(cells)[r - 1]
        invariant forall r :: row < r < size.y ==> cells[r] == old(cells)[r]
      {
        y := y - 1;
        CopyRowDown(y);
      }
      assert forall r :: 0 <= r < size.y ==> cells[r] == ShiftDown(old(cells), row)[r];
    }

    /** The inner loop of `clear`: copies row y into row y + 1, cell by cell. */
    method CopyRowDown(y: int)
      requires WellFormed(cells, size.x, size.y) && 0 <= y && y + 1 < size.y
      modifies this
      ensures WellFormed(cells, size.x, size.y)
      ensures cells == old(cells)[y + 1 := old(cells)[y]]
      ensures block == old(block) && blockPos == old(blockPos) && score == old(score)
    {
      for x := 0 to size.x
        invariant WellFormed(cells, size.x, size.y)
        invariant block == old(block) && blockPos == old(blockPos) && score == old(score)
        invariant forall r :: 0 <= r < size.y && r != y + 1 ==> cells[r] == old(cells)[r]
        invariant forall c :: 0 <= c < x ==> cells[y + 1][c] == old(cells)[y][c]
      {
        cells := cells[y + 1 := cells[y + 1][x := cells[y][x]]];
      }
      assert cells[y + 1] == old(cells)[y];
      assert forall r :: 0 <= r < size.y ==> cells[r] == old(cells)[y + 1 := old(cells)[y]][r];
    }
  }
}
