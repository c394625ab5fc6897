/**
 * The Game of Life engine: the grid, the run state and the operations that change them.
 * Drawing the buttons, styling and messages are not modelled; the timer is represented
 * by the handle it returns, and the random source by the numbers it draws.
 */
module Conway {
  import opened Wrappers
  import opened LifeGrid

  class Simulation {
    /** The interior dimension N; the stored grid has N + 2 rows and columns. */
    var size: nat
    /** The stored grid, border included (`tabCellules`). */
    var cells: array2<bool>
    var isRunning: bool
    /** The handle of the repeating timer, `None` when no timer is armed. */
    var tempo: Option<nat>
    /** The generation counter shown in the status message. */
    var step: int

    /** The value of the stored grid. */
    ghost var grid: Grid

    /** `grid` is the value of `cells`, and both have the dimension `size`. */
    ghost predicate Coupled()
      reads this, cells
    {
      cells.Length0 == size + 2 && cells.Length1 == size + 2 && Shaped(grid, size) &&
      forall r, c {:trigger cells[r, c]} :: 0 <= r < size + 2 && 0 <= c < size + 2 ==> grid[r][c] == cells[r, c]
    }

    /** The object invariant: the grid is coupled to its value, the engine runs exactly when
        a timer is armed, timer handles are positive, and the sentinel border is dead. */
    ghost predicate Valid()
      reads this, cells
    {
      size >= 1 && Coupled() &&
      (isRunning <==> tempo.Some?) &&
      (tempo.Some? ==> tempo.value > 0) &&
      DeadBorder(grid, size)
    }

    /** Builds the engine at the given dimension, stopped, and seeds it at random. */
    constructor (dimension: nat, draws: seq<seq<nat>>)
      requires dimension >= 1 && RandomDraws(draws, dimension)
      ensures Valid() && fresh(cells)
      ensures size == dimension && !isRunning && tempo == None && step == 1
      ensures grid == Seeded(Blank(dimension), dimension, draws)
    {
      size := dimension;
      isRunning := false;
      tempo := None;
      step := 1;
      cells := new bool[0, 0];
      grid := [];
      new;
      InitCellules();
      BlankIsEmpty(size);
      Evolution(draws);
    }

    /** Replaces the grid by a fresh all-dead grid of `size + 2` rows of `size + 2` cells. */
    method InitCellules()
      modifies this`cells, this`grid
      ensures fresh(cells) && Coupled()
      ensures grid == Blank(size)
    {
      var tab := new bool[size + 2, size + 2];
      for ligne := 0 to size + 2
        invariant forall r, c :: 0 <= r < ligne && 0 <= c < size + 2 ==> tab[r, c] == MORT
      {
        for col := 0 to size + 2
          invariant forall r, c :: 0 <= r < ligne && 0 <= c < size + 2 ==> tab[r, c] == MORT
          invariant forall c :: 0 <= c < col ==> tab[ligne, c] == MORT
        {
          tab[ligne, col] := MORT;
        }
      }
      cells := tab;
      grid := Blank(size);
    }

    /** Changes the dimension and reallocates an all-dead grid. The run state is not touched. */
    method SetDimension(dimension: nat)
      requires Valid() && dimension >= 1
      modifies this`size, this`cells, this`grid
      ensures Valid() && fresh(cells)
      ensures size == dimension && grid == Blank(dimension)
    {
      size := dimension;
      InitCellules();
      BlankIsEmpty(size);
    }

    /** Seeds every interior cell from its own draw; the border is not touched. */
    method Evolution(draws: seq<seq<nat>>)
      requires Valid() && RandomDraws(draws, size)
      modifies cells, this`grid
      ensures Valid()
      ensures grid == Seeded(old(grid), size, draws)
    {
      ghost var target := Seeded(grid, size, draws);
      ghost var before := grid;
      for i := 0 to size
        invariant grid == before
        invariant forall r, c {:trigger cells[r, c]} :: 0 <= r < size + 2 && 0 <= c < size + 2 ==>
          cells[r, c] == if 1 <= r <= i && 1 <= c <= size then target[r][c] else grid[r][c]
      {
        for j := 0 to size
          invariant grid == before
          invariant forall r, c {:trigger cells[r, c]} :: 0 <= r < size + 2 && 0 <= c < size + 2 ==>
            cells[r, c] == if (1 <= r <= i && 1 <= c <= size) || (r == i + 1 && 1 <= c <= j) then target[r][c] else grid[r][c]
        {
          cells[i + 1, j + 1] := Coin(draws[i][j]);
        }
      }
      grid := target;
    }

    /** A click on logical cell (ligne, col): while stopped it flips storage cell
        (ligne + 1, col + 1) and nothing else; while running nothing changes. */
    method TraitementCellule(ligne: nat, col: nat)
      requires Valid() && ligne < size && col < size
      modifies cells, this`grid
      ensures Valid()
      ensures isRunning ==> grid == old(grid)
      ensures !isRunning ==> grid == old(grid)[ligne + 1 := old(grid)[ligne + 1][col + 1 := !old(grid)[ligne + 1][col + 1]]]
    {
      if !isRunning {
        cells[ligne + 1, col + 1] := !cells[ligne + 1, col + 1];
        grid := grid[ligne + 1 := grid[ligne + 1][col + 1 := !grid[ligne + 1][col + 1]]];
      }
    }

    /** Writes one storage cell. */
    method SetEtatCellule(ligne: nat, col: nat, etat: bool)
      requires Coupled() && ligne < size + 2 && col < size + 2
      modifies cells, this`grid
      ensures Coupled()
      ensures grid == old(grid)[ligne := old(grid)[ligne][col := etat]]
    {
      cells[ligne, col] := etat;
      grid := grid[ligne := grid[ligne][col := etat]];
    }

    /** A copy of the grid that later writes do not reach (the JSON deep copy). */
    method Snapshot() returns (clone: Grid)
      requires Coupled()
      ensures clone == grid
    {
      clone := [];
      for i := 0 to size + 2
        invariant clone == grid[..i]
      {
        var row := [];
        for j := 0 to size + 2
          invariant row == grid[i][..j]
        {
          row := row + [cells[i, j]];
        }
        assert row == grid[i];
        assert grid[..i + 1] == grid[..i] + [grid[i]];
        clone := clone + [row];
      }
      assert grid[..size + 2] == grid;
    }

    /** Counts the live cells around storage cell (ligne, col) of `tab`, visiting the nine
        offsets row by row and skipping the centre. */
    method NbVoisinesVivantes(ligne: nat, col: nat, tab: Grid) returns (compte: nat)
      requires Around(tab, ligne, col)
      ensures compte == Neighbours(tab, ligne, col)
      ensures compte <= 8
    {
      compte := 0;
      for i := -1 to 2
        invariant compte == WindowPart(tab, ligne, col, i, -1)
      {
        for j := -1 to 2
          invariant compte == WindowPart(tab, ligne, col, i, j)
        {
          if i == 0 && j == 0 {
            continue;
          }
          if tab[ligne + i][col + j] == VIVANT {
            compte := compte + 1;
          }
        }
      }
      WindowComplete(tab, ligne, col);
    }

    /** Live cells among the offsets visited before (i, j), in row-major order over
        [-1, 1] x [-1, 1], the centre excluded. */
    ghost function WindowPart(tab: Grid, ligne: nat, col: nat, i: int, j: int): nat
      requires Around(tab, ligne, col) && -1 <= i <= 2 && -1 <= j <= 2
      decreases i + 1, j + 1
    {
      if j > -1 then
        WindowPart(tab, ligne, col, i, j - 1) +
          (if i == 2 || (i == 0 && j - 1 == 0) then 0 else Alive(tab[ligne + i][col + j - 1]))
      else if i > -1 then WindowPart(tab, ligne, col, i - 1, 2)
      else 0
    }

    /** The whole window, visited to its end, is the neighbour count. */
    lemma WindowComplete(tab: Grid, ligne: nat, col: nat)
      requires Around(tab, ligne, col)
      ensures WindowPart(tab, ligne, col, 2, -1) == Neighbours(tab, ligne, col)
    {
      assert WindowPart(tab, ligne, col, 0, 2) ==
        Alive(tab[ligne - 1][col - 1]) + Alive(tab[ligne - 1][col]) + Alive(tab[ligne - 1][col + 1]) +
        Alive(tab[ligne][col - 1]) + Alive(tab[ligne][col + 1]);
    }

    /** One generation of the Game of Life, computed from a snapshot of the grid taken
        before any cell is written. Returns the live and dead interior counts. */
    method EvolutionConway() returns (vivantes: nat, mortes: nat)
      requires Valid()
      modifies cells, this`grid, this`step
      ensures Valid()
      ensures grid == Step(old(grid), size)
      ensures vivantes == Population(grid, size)
      ensures vivantes + mortes == size * size
      ensures step == old(step) + 1
    {
      var clone := Snapshot();
      ghost var next := Step(clone, size);
      StepKeepsBorder(clone, size);
      StepCells(clone, size);
      vivantes, mortes := EvolutionLignes(clone, next);
      step := step + 1;
      grid := next;
    }

    /** The outer loop of one generation: rows 1 to `size` are brought to their next state
        in order, and the live and dead interior cells of the new grid are counted. */
    method EvolutionLignes(clone: Grid, ghost next: Grid) returns (vivantes: nat, mortes: nat)
      requires Shaped(clone, size) && Shaped(next, size)
      requires forall r, c {:trigger next[r][c]} :: 0 <= r < size + 2 && 0 <= c < size + 2 ==> next[r][c] == NextCell(clone, size, r, c)
      requires cells.Length0 == size + 2 && cells.Length1 == size + 2
      requires forall r, c {:trigger cells[r, c]} :: 0 <= r < size + 2 && 0 <= c < size + 2 ==>
        cells[r, c] == clone[r][c]
      modifies cells
      ensures forall r, c {:trigger cells[r, c]} :: 0 <= r < size + 2 && 0 <= c < size + 2 ==>
        cells[r, c] == if 1 <= r <= size then next[r][c] else clone[r][c]
      ensures vivantes == RowsAlive(next, size, size)
      ensures vivantes + mortes == size * size
    {
      vivantes, mortes := 0, 0;
      var ligne := 1;
      while ligne <= size
        invariant 1 <= ligne <= size + 1
        invariant forall r, c {:trigger cells[r, c]} :: 0 <= r < size + 2 && 0 <= c < size + 2 ==>
          cells[r, c] == if 1 <= r < ligne then next[r][c] else clone[r][c]
        invariant vivantes == RowsAlive(next, size, ligne - 1)
        invariant vivantes + mortes == (ligne - 1) * size
      {
        vivantes, mortes := EvolutionLigne(ligne, clone, next, vivantes, mortes);
        assert RowsAlive(next, size, ligne) == RowsAlive(next, size, ligne - 1) + Count(next[ligne][1..size + 1]);
        RowMore(ligne, size);
        ligne := ligne + 1;
      }
      RowMore(ligne, size);
    }

    /** Counting one more row of `n` cells. */
    lemma RowMore(k: nat, n: nat)
      requires k >= 1
      ensures (k - 1) * n + n == k * n
      ensures k == n + 1 ==> (k - 1) * n == n * n
    {
    }

    /** The inner loop of one generation: row `ligne` is brought to its next state, cell by
        cell, and its live and dead cells are added to the running counts. */
    method EvolutionLigne(ligne: nat, clone: Grid, ghost next: Grid, vivantes0: nat, mortes0: nat)
      returns (vivantes: nat, mortes: nat)
      requires Shaped(clone, size) && Shaped(next, size) && 1 <= ligne <= size
      requires forall r, c {:trigger next[r][c]} :: 0 <= r < size + 2 && 0 <= c < size + 2 ==> next[r][c] == NextCell(clone, size, r, c)
      requires cells.Length0 == size + 2 && cells.Length1 == size + 2
      requires forall r, c {:trigger cells[r, c]} :: 0 <= r < size + 2 && 0 <= c < size + 2 ==>
        cells[r, c] == if 1 <= r < ligne then next[r][c] else clone[r][c]
      modifies cells
      ensures forall r, c {:trigger cells[r, c]} :: 0 <= r < size + 2 && 0 <= c < size + 2 ==>
        cells[r, c] == if 1 <= r <= ligne then next[r][c] else clone[r][c]
      ensures vivantes == vivantes0 + Count(next[ligne][1..size + 1])
      ensures vivantes + mortes == vivantes0 + mortes0 + size
    {
      vivantes, mortes := vivantes0, mortes0;
      var col := 1;
      while col <= size
        invariant 1 <= col <= size + 1
        invariant forall r, c {:trigger cells[r, c]} :: 0 <= r < size + 2 && 0 <= c < size + 2 ==>
          cells[r, c] == if 1 <= r < ligne || (r == ligne && c < col) then next[r][c] else clone[r][c]
        invariant vivantes == vivantes0 + Count(next[ligne][1..col])
        invariant vivantes + mortes == vivantes0 + mortes0 + col - 1
      {
        EvolutionCellule(ligne, col, clone, next);
        CountExtend(next[ligne], 1, col);
        if cells[ligne, col] == VIVANT {
          vivantes := vivantes + 1;
        } else {
          mortes := mortes + 1;
        }
        col := col + 1;
      }
    }

    /** The rule applied to interior storage cell (ligne, col), reading its neighbours in the
        snapshot: two live neighbours keep the state, three make it live, any other count
        makes it dead. No other cell is written. */
    method EvolutionCellule(ligne: nat, col: nat, clone: Grid, ghost next: Grid)
      requires Shaped(clone, size) && Shaped(next, size) && Interior(size, ligne, col)
      requires next[ligne][col] == NextCell(clone, size, ligne, col)
      requires cells.Length0 == size + 2 && cells.Length1 == size + 2
      requires cells[ligne, col] == clone[ligne][col]
      modifies cells
      ensures cells[ligne, col] == next[ligne][col]
      ensures forall r, c {:trigger cells[r, c]} :: 0 <= r < size + 2 && 0 <= c < size + 2 && (r != ligne || c != col) ==>
        cells[r, c] == old(cells[r, c])
    {
      var voisins := NbVoisinesVivantes(ligne, col, clone);
      if voisins == 2 {
        // the state is kept
      } else if voisins == 3 {
        cells[ligne, col] := VIVANT;
      } else {
        cells[ligne, col] := MORT;
      }
    }

    /** Loads a template: one that does not fit leaves the grid as it was; otherwise the grid
        is reallocated all dead and the template is stamped at the top-left corner. */
    method ChargeTemplate(template: seq<seq<bool>>) returns (loaded: bool)
      requires Valid()
      modifies this`cells, this`grid
      ensures Valid()
      ensures loaded == Fits(template, size)
      ensures !loaded ==> cells == old(cells) && grid == old(grid)
      ensures loaded ==> fresh(cells) && grid == Stamp(template, size)
    {
      var templateRows := |template|;
      var templateCols := if |template| == 0 then 0 else |template[0]|;
      if templateRows > size || templateCols > size {
        return false;
      }
      InitCellules();
      EcritTemplate(template);
      StampPlacesTemplate(template, size);
      loaded := true;
    }

    /** Writes the cells of a template that fits into an all-dead grid, row by row, the
        template's cell (i, j) going to storage cell (i + 1, j + 1). */
    method EcritTemplate(template: seq<seq<bool>>)
      requires Coupled() && Fits(template, size) && grid == Blank(size)
      modifies cells, this`grid
      ensures Coupled() && grid == Stamp(template, size)
    {
      var templateRows := |template|;
      StampBegin(template, size);
      for ligne := 0 to templateRows
        invariant Coupled()
        invariant WrittenUpTo(grid, Stamp(template, size), size, ligne + 1, 0)
      {
        EcritLigne(template, ligne);
      }
      StampEnd(grid, template, size);
    }

    /** Writes row `ligne` of a template that fits into storage row `ligne + 1`, column by
        column; the rows above it are already written and the rows below it are still dead. */
    method EcritLigne(template: seq<seq<bool>>, ligne: nat)
      requires Coupled() && Fits(template, size) && ligne < |template|
      requires WrittenUpTo(grid, Stamp(template, size), size, ligne + 1, 0)
      modifies cells, this`grid
      ensures Coupled() && WrittenUpTo(grid, Stamp(template, size), size, ligne + 2, 0)
    {
      var templateCols := if |template| == 0 then 0 else |template[0]|;
      assert templateCols == TemplateCols(template);
      StampRowBegin(grid, template, size, ligne + 1);
      for col := 0 to templateCols
        invariant Coupled()
        invariant WrittenUpTo(grid, Stamp(template, size), size, ligne + 1, col + 1)
      {
        EcritCellule(template, ligne, col);
      }
      StampRowEnd(grid, template, size, ligne + 1);
    }

    /** Writes cell (ligne, col) of a template that fits into storage cell (ligne + 1, col + 1),
        the next one in row-major order. */
    method EcritCellule(template: seq<seq<bool>>, ligne: nat, col: nat)
      requires Coupled() && Fits(template, size) && ligne < TemplateRows(template) && col < TemplateCols(template)
      requires WrittenUpTo(grid, Stamp(template, size), size, ligne + 1, col + 1)
      modifies cells, this`grid
      ensures Coupled() && WrittenUpTo(grid, Stamp(template, size), size, ligne + 1, col + 2)
    {
      ghost var before := grid;
      SetEtatCellule(ligne + 1, col + 1, TemplateCell(template, ligne, col));
      StampWrite(before, grid, template, size, ligne, col);
    }

    /** Arms the timer with `handle` unless one is already armed. */
    method StartSimulation(handle: nat)
      requires Valid() && handle > 0
      modifies this`tempo, this`isRunning
      ensures Valid()
      ensures old(tempo).Some? ==> tempo == old(tempo) && isRunning == old(isRunning)
      ensures old(tempo).None? ==> tempo == Some(handle) && isRunning
    {
      if tempo.None? {
        tempo := Some(handle);
        isRunning := true;
      }
    }

    /** Disarms the timer if one is armed. */
    method StopSimulation()
      requires Valid()
      modifies this`tempo, this`isRunning
      ensures Valid()
      ensures old(tempo).None? ==> tempo == old(tempo) && isRunning == old(isRunning)
      ensures old(tempo).Some? ==> tempo == None && !isRunning
    {
      if tempo.Some? {
        tempo := None;
        isRunning := false;
      }
    }

    /** Stops the engine and reallocates an all-dead grid of the same dimension. */
    method ResetSimulation()
      requires Valid()
      modifies this`tempo, this`isRunning, this`cells, this`grid
      ensures Valid() && fresh(cells)
      ensures !isRunning && tempo == None
      ensures size == old(size) && grid == Blank(size)
    {
      StopSimulation();
      InitCellules();
      BlankIsEmpty(size);
    }
  }
}
