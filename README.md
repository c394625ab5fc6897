# Game of Life engine and article search, modelled in Dafny

This project models the two logic kernels of a small browser application.

- **The Game of Life engine**: the `Simulation` class of `src/conway.ts`.
  - It owns a square boolean grid of `N + 2` rows of `N + 2` cells. The outer ring is a dead sentinel border. Logical cell `(r, c)` is stored at `(r + 1, c + 1)`.
  - It can seed the grid at random, toggle a cell by hand while stopped, and load a template.
  - It computes one generation from a snapshot of the previous one.
  - It keeps a small run state: `isRunning` and the timer handle `tempo`.
- **The search cursor of the article editor**: the `Editeur` class of `src/editeur.ts`.
  - It finds every non-overlapping occurrence of a term in the content blocks. Each block is scanned with repeated `indexOf` calls, each resuming at the end of the previous match.
  - It keeps a cursor on the current occurrence that moves forward or backward with wrap-around.
  - It splits a block into before / match / after for highlighting.

## Files

- `wrappers.dfy`: module `Wrappers`, the `Option` type.
- `lifegrid.dfy`: module `LifeGrid`, the value-level rules.
  - A grid is a `seq<seq<bool>>`, with `VIVANT = true` and `MORT = false`.
  - `Neighbours` is the neighbour count and `NextState` the rule.
  - `Step` is one whole generation computed from the previous grid alone.
  - `Population` counts the live interior cells.
  - `Seeded` is the random seeding, driven by the numbers drawn.
  - `Stamp` is the result of loading a template.
  - The file also holds the lemmas about these definitions, including the blinker example.
- `conway.dfy`: module `Conway`, the class `Simulation`.
  - The grid is an `array2<bool>` with a ghost value `grid`. Every method that changes the grid is proved against the functions of `LifeGrid`.
  - The generation step is split into methods for the outer loop, the inner loop and one cell. All neighbour counts read the snapshot.
- `searchspec.dfy`: module `SearchSpec`, the value-level search.
  - JavaScript `indexOf`, `substring` and blank-term test on strings.
  - The repeated-`indexOf` scan of one block (`Occurrences`), and the whole page (`DocumentOccurrences`).
  - The highlight split (`HighlightMotif`) and the cursor move (`Moved`).
  - Soundness, order, non-overlap and completeness lemmas.
- `search.dfy`: module `Search`, the class `Editeur`.
  - The fields `motifRecherche`, `occurrences` and `occurrenceIndex`, and the methods that reassign them.
  - The scan loop appends to `occurrences` exactly as the source does.

Two behaviours of the code worth stating plainly:

- Clicking a cell while the simulation runs only logs a message; the grid does not change (src/conway.ts:165-172).
- Content blocks are numbered from 0, in document order.

## Model

| member | source | states |
|---|---|---|
| LifeGrid.Neighbours | src/conway.ts:500-509 | a cell has at most 8 live neighbours among the eight cells around it |
| LifeGrid.InteriorHasWindow | src/conway.ts:500-509 | for every interior cell of a well-shaped grid, the whole 3x3 window lies inside the grid, so counting never reads outside it, and the count is in 0..8 |
| LifeGrid.Step | src/conway.ts:444-469 | a generation keeps the grid at N + 2 rows of N + 2 cells |
| LifeGrid.StepRule | src/conway.ts:450-458 | with neighbours counted in the previous generation: exactly 3 makes the cell alive, exactly 2 keeps its previous state, any other count makes it dead |
| LifeGrid.StepCells | src/conway.ts:444-469 | every cell of the new generation is the rule applied to that cell of the old grid, its neighbours read in the old grid |
| LifeGrid.StepKeepsBorder | src/conway.ts:448-449 | a generation leaves every border cell as it was, so a dead border stays dead |
| LifeGrid.RowsAliveBound | src/conway.ts:461-465 | the first k interior rows hold at most k * N live cells |
| LifeGrid.PopulationBound | src/conway.ts:461-465 | at most N * N interior cells are alive |
| LifeGrid.BlankIsEmpty | src/conway.ts:142-152 | the all-dead grid has N + 2 rows of N + 2 cells, a dead border and no live cell |
| LifeGrid.Seeded | src/conway.ts:254-266 | random seeding keeps the grid's shape |
| LifeGrid.SeededKeepsBorder | src/conway.ts:256-260 | seeding sets interior cell (i + 1, j + 1) alive exactly when draw (i, j) is even, and leaves the border as it was |
| LifeGrid.StampPlacesTemplate | src/conway.ts:531-538 | a loaded template that fits puts template cell (i, j) at (i + 1, j + 1), and every other cell is dead: the border, the cells outside the template's rows and first-row width, and the cells past the end of a row shorter than the first |
| LifeGrid.StampWrite | src/conway.ts:536 | writing template cell (i, j) at (i + 1, j + 1) extends the part of the grid already equal to the loaded template by one cell |
| LifeGrid.StampEnd | src/conway.ts:534-538 | once every template row is written, the grid equals the loaded template |
| LifeGrid.Blinker | src/conway.ts:444-469 | a vertical bar of three live cells in a 3x3 interior becomes a horizontal bar after one generation |
| Conway.Simulation.constructor | src/conway.ts:77-86 | a new engine has the requested dimension, is stopped with no timer, has step counter 1, and holds an all-dead grid seeded from the draws |
| Conway.Simulation.InitCellules | src/conway.ts:142-152 | the grid is replaced by a fresh all-dead grid of size + 2 rows of size + 2 cells |
| Conway.Simulation.SetDimension | src/conway.ts:96-99 | the dimension changes and the grid becomes a fresh all-dead grid of that dimension; the run state is kept |
| Conway.Simulation.Evolution | src/conway.ts:254-266 | every interior cell is set from its own draw, the border is untouched, and the engine invariant holds |
| Conway.Simulation.TraitementCellule | src/conway.ts:163-173 | while stopped, exactly storage cell (ligne + 1, col + 1) is flipped and nothing else changes; while running, the grid is unchanged |
| Conway.Simulation.SetEtatCellule | src/conway.ts:481-487 | exactly the given storage cell takes the given state |
| Conway.Simulation.Snapshot | src/conway.ts:445 | the copy equals the grid, as a value that later writes to the array cannot reach |
| Conway.Simulation.NbVoisinesVivantes | src/conway.ts:500-509 | the loop over the nine offsets, skipping the centre, counts exactly the live neighbours, a number in 0..8 |
| Conway.Simulation.WindowComplete | src/conway.ts:502-507 | the row-major visit of the window, centre excluded, ends with the neighbour count |
| Conway.Simulation.EvolutionConway | src/conway.ts:444-472 | the new grid is one generation of the old one; `vivantes` is the number of live interior cells; `vivantes + mortes == size * size`; the step counter grows by exactly 1; the border stays dead; since every neighbour count reads the snapshot, the result does not depend on the order cells are visited |
| Conway.Simulation.EvolutionLignes | src/conway.ts:448-469 | after the outer loop every interior row holds its next state, the border rows keep the snapshot, and the counts are the new population and its complement in size * size |
| Conway.Simulation.EvolutionLigne | src/conway.ts:449-468 | after the inner loop row `ligne` holds its next state, other rows are unchanged, and the row's live and dead cells are added to the counts |
| Conway.Simulation.EvolutionCellule | src/conway.ts:450-458 | the cell takes the next state computed from the snapshot, and no other cell is written |
| Conway.Simulation.ChargeTemplate | src/conway.ts:520-541 | a template with more rows, or a longer first row, than the dimension leaves the grid as it was; otherwise the grid is all dead except template cell (i, j) at (i + 1, j + 1) |
| Conway.Simulation.EcritTemplate | src/conway.ts:534-538 | writing the template rows into an all-dead grid yields exactly the loaded template |
| Conway.Simulation.EcritLigne | src/conway.ts:535-537 | writing one template row extends the written part of the grid by that whole row |
| Conway.Simulation.EcritCellule | src/conway.ts:536 | writing one template cell extends the written part of the grid by that cell |
| Conway.Simulation.StartSimulation | src/conway.ts:397-407 | with a timer already armed nothing changes; otherwise the timer handle is stored and the engine runs |
| Conway.Simulation.StopSimulation | src/conway.ts:409-420 | with no timer armed nothing changes; otherwise the timer is cleared and the engine stops |
| Conway.Simulation.ResetSimulation | src/conway.ts:422-431 | the engine is stopped with no timer, keeps its dimension, and holds a fresh all-dead grid |
| SearchSpec.MatchAtSlice | src/editeur.ts:156 | a match at k is exactly a slice of the text, starting at k, that equals the term |
| SearchSpec.IndexOf | src/editeur.ts:156 | `indexOf` answers -1 or a position between the clamped start and the last position where the term fits |
| SearchSpec.IndexOfSpec | src/editeur.ts:156 | `indexOf` answers a real match, and no match lies between the start and the answer, or after the start at all when it answers -1 |
| SearchSpec.IndexOfLeftmost | src/editeur.ts:156 | the leftmost match at or after the start is the answer of `indexOf` |
| SearchSpec.OccurrencesUnfold | src/editeur.ts:156-159 | the scan records what `indexOf` answers, then resumes at the end of that match, and stops at -1 |
| SearchSpec.GreedyCons | src/editeur.ts:156-159 | the match `indexOf` finds, followed by a greedy scan from its end, is a greedy scan from the start |
| SearchSpec.OccurrencesGreedy | src/editeur.ts:156-159 | the repeated-`indexOf` scan is a greedy leftmost scan: each start is the first match at or after the end of the previous one, and nothing matches after the last one's end |
| SearchSpec.GreedyScanIsOccurrences | src/editeur.ts:156-159 | any greedy leftmost scan equals the repeated-`indexOf` scan, so the two definitions agree |
| SearchSpec.OccurrencesOrdered | src/editeur.ts:156-159 | each recorded start is a match at or after the start position, and consecutive starts differ by at least the term length, so the matches are increasing and do not overlap |
| SearchSpec.OccurrencesCover | src/editeur.ts:156-159 | every match at or after the start position is a recorded start or lies inside a recorded match |
| SearchSpec.TagCons | src/editeur.ts:157 | recording the first start of a block's scan, then the rest, records the whole scan |
| SearchSpec.ScanStep | src/editeur.ts:156-159 | one loop turn keeps "recorded so far plus still to be found" equal to the block's occurrences appended to those recorded before |
| SearchSpec.DocumentSound | src/editeur.ts:152-160 | every recorded occurrence is a match of the term in an existing block |
| SearchSpec.DocumentOrdered | src/editeur.ts:152-160 | recorded occurrences follow document order: blocks in order, and within a block starts increasing by at least the term length |
| SearchSpec.DocumentComplete | src/editeur.ts:152-160 | every match of the term in every block is recorded or overlaps a recorded match of the same block |
| SearchSpec.SearchExample | src/editeur.ts:152-160 | searching "Tous" in "Tous sont égaux" and "Nul ne peut" records one occurrence, in the first block at position 0 |
| SearchSpec.HighlightMotif | src/editeur.ts:181-190 | before + match + after is the block text, the before part has the start's length, and for a real match the middle part is the term |
| SearchSpec.Moved | src/editeur.ts:172-174 | a cursor move over n > 0 occurrences lands in 0..n-1 |
| SearchSpec.MovedIsModular | src/editeur.ts:172-174 | from a valid cursor, forward is +1 modulo n and backward is -1 modulo n; backward from -1 lands on the last occurrence |
| SearchSpec.MovedRoundTrip | src/editeur.ts:172-174 | from a valid cursor, a forward move then a backward move returns to it, and so does the reverse |
| Search.Editeur.constructor | src/editeur.ts:7-9 | a new editor has no term, no occurrences and cursor -1 |
| Search.Editeur.InitRecherche | src/editeur.ts:145-164 | the term is stored; the occurrences are exactly those of the term in the blocks, none for a blank term; with none the cursor is -1 and no new highlight is drawn (a highlight from an earlier search stays on the page); otherwise the cursor is 0 and the first occurrence is highlighted |
| Search.Editeur.RechercheBloc | src/editeur.ts:153-159 | the scan loop of one block appends exactly that block's repeated-`indexOf` occurrences, in order |
| Search.Editeur.Recherche | src/editeur.ts:167-178 | with no occurrences nothing changes; otherwise the cursor moves one step with wrap-around, stays in range, and the highlight splits the block into before, the term, and after |
| Search.Editeur.EffacerRecherche | src/editeur.ts:193-198 | the term becomes empty, the occurrences empty and the cursor -1, so a following `Recherche` changes nothing |

## Left out

- Page construction, styling, buttons, messages and console logging are presentation only. This covers `initPlateau` beyond its call to `initCellules`, `creerBouton`, `creerBoutonsLigne`, `majEtatCellule`, `updatePlateau`, `initListeners` and `afficherMessage`, and the `Editeur` constructor's page building and styling methods.
- `setInterval`/`clearInterval` and the delay are not modelled as time. The timer is the handle it returns, passed to `StartSimulation` as a positive number. A tick of the timer is a call to `EvolutionConway`.
- `Math.random()` is not modelled as randomness. `Evolution` and the constructor take the numbers drawn, one per interior cell, as a parameter.
- The `DIMENSIONS` lookup in `setDimension` is not modelled. The size is a number at least 1. `constantes.ts`, with `DIMENSIONS`, `TEMPLATES`, `DELAY`, `STYLE_JEU` and `DIV_JEU`, is not part of this model.
- Saving to and loading from `localStorage` through JSON is foreign I/O and is left out. The JSON deep copy inside a generation step is modelled as `Snapshot`.
- Conway.Simulation.EvolutionConway: the message shows the step counter's value before the increment. Only the counter, which grows by 1, is modelled.
- Conway.Simulation.ChargeTemplate: templates are typed `any[][]` in the source. The model takes booleans. A cell missing from a row shorter than the first row is modelled as dead: the source stores `undefined` there, and every later test treats that value as not alive.
- SearchSpec.IsBlank: models `trim() === ""` with a fixed set of white-space characters, not JavaScript's full set.
- Strings are sequences of characters. UTF-16 surrogate pairs, which `indexOf` and `substring` count as two units, are not modelled.
- Search.Editeur.Recherche: removing the previous highlight's CSS class is page styling and is not modelled.
- Search.Editeur.Recherche: rebuilding a block's markup through `innerHTML` is represented by the three-part split.
  - The model takes each block's text content as constant.
  - This assumes the text contains no characters that HTML parsing would reinterpret.
