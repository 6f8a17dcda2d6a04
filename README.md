# Contour evolution scripts: grid export and temporary-layer names

This project models the two pieces of logic the repository's GRASS GIS scripts
carry out themselves. Everything else in the scripts is handed to GRASS modules.

- **r.out.js** reads a direction raster and a speed raster cell by cell. For
  each cell it builds a vector text `[dx,dy,m]` and collects one list of vector
  texts per direction row (`rows`). It then transposes `rows` into column-major
  order: `ncols` is the length of the first row, and column `i` holds cell `i`
  of every row. Finally it prints `columns = [` followed by the rendered
  columns `[...]\n` joined with `,`, then `]`. The model is `OutJs`
  (`out_js.dfy`). It keeps the script's two loop nests as methods
  (`BuildRows`, `RenderColumns`) and the whole script as the method `Export`
  that runs them in turn. Each is proved equal to a specification function
  (`Rows`, `ColumnTexts`, `ExportText`). Lemmas state what those functions
  mean. The Python `IndexError`s are `Err` values that carry the position
  where they are raised:
  - `rows[0]` on an empty grid;
  - `speed[i]` or `speed_row[j]` past the end of the speed grid;
  - `row[i]` on a row shorter than the first.
- **OutJsDecode** (`out_js_decode.dfy`) is a reader for the printed text. It
  cuts the text at brackets and commas and returns the pieces as strings; it
  does not evaluate them as numbers. The round-trip lemma `ExportRoundTrip`
  proves that the text is unambiguous: it determines every column, and each
  vector gives back its cell's three number texts.
- **r.contour.evolution** names its temporary layers with
  `create_tmp_map_name` (prefix `rcontourevolution_`). Each elevation raster
  gets four names: contours, contours at the level, points, and space-time
  points. The level text `str(level)` has its dots replaced by underscores.
  There are also eight shared `stc_surface_*` names. The main loop collects
  one space-time point layer per raster and reads `years[i]` for each raster
  `i`. The model is `ContourEvolution` (`contour_evolution.dfy`). It proves
  that every name of one run is unique per (raster, stage), which needs a
  level text that ends in a digit, and that no stage name equals a shared
  name, for every level text.
- `Results` (`results.dfy`) holds `Option` and `Result`. `Text` (`text.dfy`)
  holds Python's `str.join` (`Join`) and the split the reader uses to undo it
  (`Split`; `SplitJoin` and `JoinSplit` prove the two inverse).

## Model

| member | source | states |
|---|---|---|
| `Text.SplitJoin` | r.out.js.py:71 | splitting `','.join(parts)` on the comma gives the parts back when no part contains a comma, so the join is unambiguous |
| `Text.JoinSplit` | r.out.js.py:71 | joining the pieces of any text split at the separator gives the text back, so with `SplitJoin` the reader's split is the exact inverse of the join |
| `OutJs.CellTextParts` | r.out.js.py:65-71 | the vector text is `[` dx `,` dy `,` m `]`, where m is the text of the speed cell alone |
| `OutJs.BuildRows` | r.out.js.py:60-74 | the nested row loops, which fetch `speed[i]` and `speed_row[j]` and append each vector text, return exactly `Rows`: the rows, or the first `IndexError` |
| `OutJs.RowsErrorPersists` | r.out.js.py:61-65 | once a row has raised, the result is that error whatever the later rows hold |
| `OutJs.RowsUpToMeaning` | r.out.js.py:60-74 | after `n` direction rows, the loop has succeeded iff none of those rows faults. On success it holds one vector list per row, in order. Otherwise it holds the fault of the first faulty row |
| `OutJs.RowsSucceed` | r.out.js.py:61-65 | reading succeeds iff the speed grid has a row for every direction row and a cell under every direction cell |
| `OutJs.RowsContent` | r.out.js.py:60-74 | `rows` has one entry per direction row. `rows[i]` has one vector per cell of direction row `i`, and vector `j` comes from `direction[i][j]` and `speed[i][j]` |
| `OutJs.RowsFirstFault` | r.out.js.py:61-65 | a failure is the error of the first direction row whose speed row is missing (`speed[i]`) or too short (`speed_row[j]`, `j` = its length). Every earlier row was read completely |
| `OutJs.SpeedBeyondExtentUnread` | r.out.js.py:61-65 | iteration is driven by the direction grid alone. Changing or adding speed rows or cells outside its extent leaves `rows` unchanged |
| `OutJs.ShortestRow` | r.out.js.py:81-84 | gives the first of the shortest rows: no row is shorter, and every earlier row is longer |
| `OutJs.TransposeFails` | r.out.js.py:78-84 | the transpose fails iff there are no rows (`rows[0]`) or some row is shorter than the first |
| `OutJs.TransposeEntries` | r.out.js.py:78-85 | `columns` has `ncols = len(rows[0])` entries, each with `len(rows)` cells. Entry `k` of column `i` is `rows[k][i]`. Cells past `ncols` are dropped |
| `OutJs.TransposeTwice` | r.out.js.py:80-85 | on a rectangular grid with at least one column, transposing twice gives the rows back |
| `OutJs.RenderColumns` | r.out.js.py:78-85 | the column loops return each column of the transpose rendered as `[` + join + `]\n`. A short row raises at the smallest missing column and the first row lacking it, the position the loops reach first |
| `OutJs.Export` | r.out.js.py:60-87 | the whole script returns `ExportText`: the printed text `columns = [` + join of the columns + `]`, or the first error |
| `OutJs.ExportMeaning` | r.out.js.py:60-87 | the export succeeds iff there is a direction row, no row is shorter than the first, and speed covers direction. The text then lists, for each column `i`, the vectors of cell `i` of every row in row order |
| `OutJsDecode.DecodeCell` | r.out.js.py:71 | each vector text is bracketed, and reading it gives back `(dx, dy, m)` when the number texts contain no comma or closing bracket |
| `OutJsDecode.ParseColumnRoundTrip` | r.out.js.py:85 | reading a rendered column gives back its list of vector texts |
| `OutJsDecode.DecodeDocument` | r.out.js.py:85-87 | reading `columns = [` + join of the rendered columns + `]` gives back the columns |
| `OutJsDecode.GridVectorDecodes` | r.out.js.py:65-71 | vector `k` of printed column `i` reads back as the three numbers of cell `(k, i)` |
| `OutJsDecode.ExportRoundTrip` | r.out.js.py:60-87 | on exportable grids, reading the printed text gives back exactly the grid's columns |
| `ContourEvolution.TmpMapNameRoundTrip` | r.contour.evolution.py:75-77 | every temporary name starts with `rcontourevolution_` and gives back the name it was made from |
| `ContourEvolution.TmpMapNameInjective` | r.contour.evolution.py:75-77 | two names give the same temporary name iff they are equal |
| `ContourEvolution.Underscored` | r.contour.evolution.py:85 | `level_str` has the length of `str(level)` and differs from it only where `.` became `_` |
| `ContourEvolution.UnderscoredHasNoDot` | r.contour.evolution.py:85 | `level_str` contains no `.`, and replacing again changes nothing |
| `ContourEvolution.StageSuffixChain` | r.contour.evolution.py:84-88 | each stage's suffix (`_contours`, `_contours_level_L`, `..._points`, `..._points_stc`) is a proper prefix of the next |
| `ContourEvolution.StageChain` | r.contour.evolution.py:84-88 | for one elevation, `contours`, `contours_level`, `contours_level_points` and `contours_level_points_stc` each are a proper prefix of the next, so they are pairwise distinct |
| `ContourEvolution.StageNameInjective` | r.contour.evolution.py:84-88 | for a level text ending in a digit, two stage names are equal iff both raster and stage are equal |
| `ContourEvolution.SurfaceNamesDistinct` | r.contour.evolution.py:103-110 | the eight shared `stc_surface_*` names are pairwise distinct |
| `ContourEvolution.SurfaceHasNoContoursMark` | r.contour.evolution.py:103-110 | no shared literal contains `_c` |
| `ContourEvolution.StageNameNotSurface` | r.contour.evolution.py:84-110 | no per-raster name equals a shared name, whatever the raster name and the level text: a stage name has `_c` right after the raster name |
| `ContourEvolution.CollectStcNames` | r.contour.evolution.py:79-100 | the loop succeeds iff there are at least as many years as rasters. It then holds one `_points_stc` name per raster, in input order. Otherwise it fails reading `years[len(years)]` |
| `ContourEvolution.StcNamesDistinct` | r.contour.evolution.py:79-100 | two entries of `contours_level_points_stcs` are equal iff their rasters are equal, for every level text |
| `ContourEvolution.ExtraYearsIgnored` | r.contour.evolution.py:82-99 | as written, one raster with two years runs without error and gives the usual name list, while the count-checked version refuses it with a count mismatch (1 raster, 2 years) |
| `ContourEvolution.CheckedStcNames` | r.contour.evolution.py:37 | the count-checked version succeeds iff the counts match, and then gives the same list as the loop as written |

## Left out

- GRASS module runs are not modelled, because their behaviour is outside this repository. These are `run_command`, `parse_command` and `rmapcalc`: `r.contour`, `v.extract`, `v.to.points`, `v.transform`, `v.patch`, `v.surf.rst`, `r.slope.aspect`, `r.univar` and the map-algebra expressions. Only the layer names they receive are modelled.
- Option parsing (`gcore.parser()` and the comma splitting of `raster` and `years`) is left out: the lists are parameters.
- Raster reading with `RasterRow` is left out. The two grids are parameters, and a `speed[i]` or `speed_row[j]` out of range is modelled as the `IndexError` of a Python list. r.out.js reads the fixed maps `elev_lid_aspect` and `elev_lid_slope` and ignores its declared input and output options.
- Printing is left out: `Export` returns the text that is printed.
- Floating-point work is left out: cos and sin of the direction in radians, the products, and `str()` of the results. `Formatter` stands for the three number texts of a cell. `float(options['level'])`, `str(level)`, the `'level=%f'` filter text and the `r.univar` maximum are left out too; the level is the opaque text `str(level)`.
- The commented-out variants (the first row-wise dump, the per-process temporary names) are not modelled.
- Layers created before a failure stay in the GIS workspace. Side effects of a partly completed run are not modelled.
- `CollectStcNames` returns only the list the script keeps. It reads `years[i]` (which is where it can fail) but does not record the z shift passed to `v.transform`.
- `StageNameInjective`: the uniqueness proof requires `str(level)` to end in a digit. That is true of every finite float; `nan` and `inf` are not covered.
- `ExportRoundTrip`: assumes the number texts contain no comma and no closing bracket, as Python's `str()` of a float never does.
- A dimension mismatch between the two rasters is not rejected, because the code does not reject it. A speed grid larger than the direction grid is silently truncated (`SpeedBeyondExtentUnread`), and a smaller one fails with an `IndexError`. The model follows the code.

## Findings

| source | as written | input that shows it | evidently intended | confidence | as-written member | corrected member |
|---|---|---|---|---|---|---|
| r.contour.evolution.py:37 | the `years` option says it must have as many entries as `raster`, but the loop (lines 82-99) fails only when there are fewer years, after it has processed every earlier raster, and silently ignores extra years | `raster=elev_2001`, `years=2001,2002` | refuse a count mismatch before any raster is processed | medium, not executed | `ContourEvolution.ExtraYearsIgnored` | `ContourEvolution.CheckedStcNames` |
