/**
 * The Game of Life rules on a value grid, independent of any object.
 *
 * A grid of dimension `n` stores `n + 2` rows of `n + 2` cells: the outer ring is a
 * sentinel border that is always dead, and the logical cell (r, c) lives at storage
 * position (r + 1, c + 1). `true` is a live cell (VIVANT), `false` a dead one (MORT).
 */
module LifeGrid {

  type Grid = seq<seq<bool>>

  const VIVANT: bool := true
  const MORT: bool := false

  /** `g` has `n + 2` rows of `n + 2` cells. */
  predicate Shaped(g: Grid, n: nat)
  {
    |g| == n + 2 && forall r :: 0 <= r < |g| ==> |g[r]| == n + 2
  }

  /** Storage position (r, c) is an interior cell of a grid of dimension `n`. */
  predicate Interior(n: nat, r: int, c: int)
  {
    1 <= r <= n && 1 <= c <= n
  }

  /** Every cell of the sentinel ring is dead. */
  predicate DeadBorder(g: Grid, n: nat)
    requires Shaped(g, n)
  {
    forall r, c :: 0 <= r < n + 2 && 0 <= c < n + 2 && !Interior(n, r, c) ==> g[r][c] == MORT
  }

  /** The 3x3 window centred on (r, c) lies inside `g`. */
  predicate Around(g: Grid, r: int, c: int)
  {
    1 <= r && r + 1 < |g| && 1 <= c &&
    c + 1 < |g[r - 1]| && c + 1 < |g[r]| && c + 1 < |g[r + 1]|
  }

  function Alive(b: bool): nat
  {
    if b == VIVANT then 1 else 0
  }

  /** Number of live cells among the eight cells that surround (r, c); the centre is not counted. */
  function Neighbours(g: Grid, r: int, c: int): (k: nat)
    requires Around(g, r, c)
    ensures k <= 8
  {
    Alive(g[r - 1][c - 1]) + Alive(g[r - 1][c]) + Alive(g[r - 1][c + 1]) +
    Alive(g[r][c - 1]) + Alive(g[r][c + 1]) +
    Alive(g[r + 1][c - 1]) + Alive(g[r + 1][c]) + Alive(g[r + 1][c + 1])
  }

  /** The fate of a cell that was `alive` and had `k` live neighbours. */
  function NextState(alive: bool, k: nat): bool
  {
    if k == 2 then alive else if k == 3 then VIVANT else MORT
  }

  /** The value of storage cell (r, c) one generation after `g`: an interior cell follows
      the rule with its neighbours read in `g`; a border cell is left as it is. */
  function NextCell(g: Grid, n: nat, r: int, c: int): bool
    requires Shaped(g, n) && 0 <= r < n + 2 && 0 <= c < n + 2
  {
    if Interior(n, r, c) then NextState(g[r][c], Neighbours(g, r, c)) else g[r][c]
  }

  /** One generation, every cell computed from the previous generation `g` alone. */
  function Step(g: Grid, n: nat): (h: Grid)
    requires Shaped(g, n)
    ensures Shaped(h, n)
  {
    seq(n + 2, r requires 0 <= r < n + 2 =>
      seq(n + 2, c requires 0 <= c < n + 2 => NextCell(g, n, r, c)))
  }

  /** The grid of dimension `n` whose cells are all dead. */
  function Blank(n: nat): (g: Grid)
  {
    seq(n + 2, r => seq(n + 2, c => MORT))
  }

  /** Number of live cells in `s`. */
  function Count(s: seq<bool>): (k: nat)
    ensures k <= |s|
  {
    if s == [] then 0 else Count(s[..|s| - 1]) + Alive(s[|s| - 1])
  }

  /** Number of live interior cells in the first `rows` interior rows. */
  function RowsAlive(g: Grid, n: nat, rows: nat): nat
    requires Shaped(g, n) && rows <= n
  {
    if rows == 0 then 0 else RowsAlive(g, n, rows - 1) + Count(g[rows][1..n + 1])
  }

  /** Number of live interior cells. */
  function Population(g: Grid, n: nat): nat
    requires Shaped(g, n)
  {
    RowsAlive(g, n, n)
  }

  // ---- Templates ----

  /** Row count of a template. */
  function TemplateRows(t: seq<seq<bool>>): nat
  {
    |t|
  }

  /** Column count of a template: the length of its first row, or 0 when it has none. */
  function TemplateCols(t: seq<seq<bool>>): nat
  {
    if |t| == 0 then 0 else |t[0]|
  }

  /** A template fits when neither its row count nor its column count exceeds the dimension. */
  predicate Fits(t: seq<seq<bool>>, n: nat)
  {
    !(TemplateRows(t) > n || TemplateCols(t) > n)
  }

  /** The value read at template position (i, j); a position past the end of a short row
      reads as dead. */
  function TemplateCell(t: seq<seq<bool>>, i: nat, j: nat): bool
  {
    if i < |t| && j < |t[i]| then t[i][j] else MORT
  }

  /** The grid of dimension `n` holding template `t` at its top-left corner, dead elsewhere. */
  function Stamp(t: seq<seq<bool>>, n: nat): (g: Grid)
  {
    seq(n + 2, r => seq(n + 2, c =>
      1 <= r <= TemplateRows(t) && 1 <= c <= TemplateCols(t) && TemplateCell(t, r - 1, c - 1)))
  }

  // ---- Properties ----

  /** An interior cell of a shaped grid has its whole 3x3 window inside the grid, so the
      neighbour count never reads outside it. */
  lemma InteriorHasWindow(g: Grid, n: nat, r: int, c: int)
    requires Shaped(g, n) && Interior(n, r, c)
    ensures Around(g, r, c)
    ensures Neighbours(g, r, c) <= 8
  {
  }

  /** The step rule, with the neighbours counted in the previous generation `g`:
      exactly 3 gives life, exactly 2 keeps the state, anything else gives death. */
  lemma StepRule(g: Grid, n: nat, r: int, c: int)
    requires Shaped(g, n) && Interior(n, r, c)
    ensures Neighbours(g, r, c) == 3 ==> Step(g, n)[r][c] == VIVANT
    ensures Neighbours(g, r, c) == 2 ==> Step(g, n)[r][c] == g[r][c]
    ensures Neighbours(g, r, c) != 2 && Neighbours(g, r, c) != 3 ==> Step(g, n)[r][c] == MORT
  {
  }

  /** Every cell of a step is the next state of that cell. */
  lemma StepCells(g: Grid, n: nat)
    requires Shaped(g, n)
    ensures forall r, c {:trigger Step(g, n)[r][c]} :: 0 <= r < n + 2 && 0 <= c < n + 2 ==> Step(g, n)[r][c] == NextCell(g, n, r, c)
  {
  }

  /** A step leaves every border cell as it was, so a dead border stays dead. */
  lemma StepKeepsBorder(g: Grid, n: nat)
    requires Shaped(g, n)
    ensures forall r, c :: 0 <= r < n + 2 && 0 <= c < n + 2 && !Interior(n, r, c) ==> Step(g, n)[r][c] == g[r][c]
    ensures DeadBorder(g, n) ==> DeadBorder(Step(g, n), n)
  {
  }

  /** Counting one more cell of a row. */
  lemma CountExtend(row: seq<bool>, lo: nat, hi: nat)
    requires lo <= hi < |row|
    ensures Count(row[lo..hi + 1]) == Count(row[lo..hi]) + Alive(row[hi])
  {
    assert row[lo..hi + 1][..hi - lo] == row[lo..hi];
  }

  /** Every row of live-cell counts is bounded by the row length, so at most `n * n` cells live. */
  lemma {:induction false} RowsAliveBound(g: Grid, n: nat, rows: nat)
    requires Shaped(g, n) && rows <= n
    ensures RowsAlive(g, n, rows) <= rows * n
  {
    if rows > 0 {
      RowsAliveBound(g, n, rows - 1);
      assert |g[rows][1..n + 1]| == n;
      assert (rows - 1) * n + n == rows * n;
    }
  }

  lemma PopulationBound(g: Grid, n: nat)
    requires Shaped(g, n)
    ensures Population(g, n) <= n * n
  {
    RowsAliveBound(g, n, n);
  }

  lemma {:induction false} CountDead(s: seq<bool>)
    requires forall i :: 0 <= i < |s| ==> s[i] == MORT
    ensures Count(s) == 0
  {
    if s != [] {
      CountDead(s[..|s| - 1]);
    }
  }

  lemma {:induction false} RowsAliveBlank(n: nat, rows: nat)
    requires rows <= n
    ensures Shaped(Blank(n), n) && RowsAlive(Blank(n), n, rows) == 0
  {
    if rows > 0 {
      RowsAliveBlank(n, rows - 1);
      CountDead(Blank(n)[rows][1..n + 1]);
    }
  }

  /** The grid `g` with every interior cell (r, c) replaced by the coin flip of draw
      `draws[r - 1][c - 1]`: alive exactly when the draw is even. */
  function Seeded(g: Grid, n: nat, draws: seq<seq<nat>>): (h: Grid)
    requires Shaped(g, n) && RandomDraws(draws, n)
    ensures Shaped(h, n)
  {
    seq(n + 2, r requires 0 <= r < n + 2 =>
      seq(n + 2, c requires 0 <= c < n + 2 =>
        if Interior(n, r, c) then Coin(draws[r - 1][c - 1]) else g[r][c]))
  }

  /** `draws` holds one number per interior cell of a grid of dimension `n`, as produced by
      `Math.floor(Math.random() * 10000)`. */
  predicate RandomDraws(draws: seq<seq<nat>>, n: nat)
  {
    |draws| == n && forall i :: 0 <= i < n ==> |draws[i]| == n
  }

  /** Seeding sets every interior cell from its own draw and leaves the border as it was,
      so a dead border stays dead. */
  lemma SeededKeepsBorder(g: Grid, n: nat, draws: seq<seq<nat>>)
    requires Shaped(g, n) && RandomDraws(draws, n)
    ensures forall r, c :: 0 <= r < n + 2 && 0 <= c < n + 2 && !Interior(n, r, c) ==> Seeded(g, n, draws)[r][c] == g[r][c]
    ensures forall r, c :: Interior(n, r, c) ==> Seeded(g, n, draws)[r][c] == Coin(draws[r - 1][c - 1])
    ensures DeadBorder(g, n) ==> DeadBorder(Seeded(g, n, draws), n)
  {
  }

  /** A draw gives a live cell exactly when it is even. */
  function Coin(nb: nat): bool
  {
    if nb % 2 == 0 then VIVANT else MORT
  }

  /** The all-dead grid is shaped, has a dead border and no live cell. */
  lemma BlankIsEmpty(n: nat)
    ensures Shaped(Blank(n), n) && DeadBorder(Blank(n), n)
    ensures Population(Blank(n), n) == 0
  {
    RowsAliveBlank(n, n);
  }

  /** A template that fits stamps its cells at (i + 1, j + 1) and leaves every other cell
      of the grid dead: the border, the cells past the template's first-row width or row
      count, and the cells past the end of a row shorter than the first. */
  lemma StampPlacesTemplate(t: seq<seq<bool>>, n: nat)
    requires Fits(t, n)
    ensures Shaped(Stamp(t, n), n) && DeadBorder(Stamp(t, n), n)
    ensures forall i, j :: 0 <= i < TemplateRows(t) && 0 <= j < TemplateCols(t) && j < |t[i]| ==>
      Stamp(t, n)[i + 1][j + 1] == t[i][j]
    ensures forall r, c :: 0 <= r < n + 2 && 0 <= c < n + 2 && !(1 <= r <= TemplateRows(t) && 1 <= c <= TemplateCols(t) && c - 1 < |t[r - 1]|) ==>
      Stamp(t, n)[r][c] == MORT
  {
  }

  /** Writing a template row by row and column by column: in `g`, the cells before
      (r0, c0) in row-major order hold those of `s`, and the cells from (r0, c0) on are dead. */
  ghost predicate WrittenUpTo(g: Grid, s: Grid, n: nat, r0: nat, c0: nat)
  {
    Shaped(g, n) && Shaped(s, n) &&
    forall r, c {:trigger g[r][c]} :: 0 <= r < n + 2 && 0 <= c < n + 2 ==>
      g[r][c] == if r < r0 || (r == r0 && c < c0) then s[r][c] else MORT
  }

  /** A blank grid holds the dead top border row of any stamp. */
  lemma StampBegin(t: seq<seq<bool>>, n: nat)
    ensures WrittenUpTo(Blank(n), Stamp(t, n), n, 1, 0)
  {
  }

  /** Column 0 of a stamp is the dead left border: a row starts written up to column 1. */
  lemma StampRowBegin(g: Grid, t: seq<seq<bool>>, n: nat, r0: nat)
    requires WrittenUpTo(g, Stamp(t, n), n, r0, 0)
    ensures WrittenUpTo(g, Stamp(t, n), n, r0, 1)
  {
  }

  /** Writing template cell (i, j) at (i + 1, j + 1), the next cell in row-major order,
      moves the written prefix one cell on. */
  lemma StampWrite(g: Grid, g': Grid, t: seq<seq<bool>>, n: nat, i: nat, j: nat)
    requires Fits(t, n) && WrittenUpTo(g, Stamp(t, n), n, i + 1, j + 1)
    requires i < TemplateRows(t) && j < TemplateCols(t)
    requires g' == g[i + 1 := g[i + 1][j + 1 := TemplateCell(t, i, j)]]
    ensures WrittenUpTo(g', Stamp(t, n), n, i + 1, j + 2)
  {
  }

  /** Past the template's last column a stamp row is dead: the row is complete. */
  lemma StampRowEnd(g: Grid, t: seq<seq<bool>>, n: nat, r0: nat)
    requires Fits(t, n) && WrittenUpTo(g, Stamp(t, n), n, r0, TemplateCols(t) + 1)
    ensures WrittenUpTo(g, Stamp(t, n), n, r0 + 1, 0)
  {
  }

  /** Past the template's last row a stamp is dead: the grid is the stamp. */
  lemma StampEnd(g: Grid, t: seq<seq<bool>>, n: nat)
    requires Fits(t, n) && WrittenUpTo(g, Stamp(t, n), n, TemplateRows(t) + 1, 0)
    ensures g == Stamp(t, n)
  {
    forall r | 0 <= r < n + 2
      ensures g[r] == Stamp(t, n)[r]
    {
      assert forall c :: 0 <= c < n + 2 ==> g[r][c] == Stamp(t, n)[r][c];
    }
  }

  const BlinkerVertical: Grid :=
    [[false, false, false, false, false],
     [false, false, true, false, false],
     [false, false, true, false, false],
     [false, false, true, false, false],
     [false, false, false, false, false]]

  const BlinkerHorizontal: Grid :=
    [[false, false, false, false, false],
     [false, false, false, false, false],
     [false, true, true, true, false],
     [false, false, false, false, false],
     [false, false, false, false, false]]

  lemma StampVertical()
    ensures Stamp([[false, true, false], [false, true, false], [false, true, false]], 3) == BlinkerVertical
  {
    var g := Stamp([[false, true, false], [false, true, false], [false, true, false]], 3);
    forall r | 0 <= r < 5 ensures g[r] == BlinkerVertical[r] {
      assert forall c :: 0 <= c < 5 ==> g[r][c] == BlinkerVertical[r][c];
    }
  }

  lemma StampHorizontal()
    ensures Stamp([[false, false, false], [true, true, true], [false, false, false]], 3) == BlinkerHorizontal
  {
    var g := Stamp([[false, false, false], [true, true, true], [false, false, false]], 3);
    forall r | 0 <= r < 5 ensures g[r] == BlinkerHorizontal[r] {
      assert forall c :: 0 <= c < 5 ==> g[r][c] == BlinkerHorizontal[r][c];
    }
  }

  lemma StepVertical()
    ensures Step(BlinkerVertical, 3) == BlinkerHorizontal
  {
    var g := Step(BlinkerVertical, 3);
    forall r | 0 <= r < 5 ensures g[r] == BlinkerHorizontal[r] {
      forall c | 0 <= c < 5 ensures g[r][c] == BlinkerHorizontal[r][c] {
        if Interior(3, r, c) {
          assert g[r][c] == NextState(BlinkerVertical[r][c], Neighbours(BlinkerVertical, r, c));
        }
      }
    }
  }

  /** The blinker: a vertical bar of three live cells on a 3x3 interior becomes horizontal. */
  lemma Blinker()
    ensures Step(Stamp([[false, true, false], [false, true, false], [false, true, false]], 3), 3)
         == Stamp([[false, false, false], [true, true, true], [false, false, false]], 3)
  {
    StampVertical();
    StampHorizontal();
    StepVertical();
  }
}
