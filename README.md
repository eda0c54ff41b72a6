# p2d_gmsh in Dafny

A model of `p2d_gmsh.py`, a converter from a single-block, two-dimensional
Plot3D formatted ("P3Dfmt") grid to a Gmsh legacy ASCII 2.2 mesh. It has two modules:

- `Plot3D` (`plot3d.dfy`) models the grid reader, `P3DfmtFile.load`.
  - The input is a sequence of lines. Each line is already stripped and split into tokens.
  - A token is what `int()` and `float()` make of it: `IntText`, `FloatText` or `OtherText`.
  - A blank line is the empty sequence. Reading past the end gives a blank line, as `readline` does at end of file.
  - The reader checks the block count and reads `idim jdim`.
  - It then fills `jdim` x-columns and `jdim` y-columns. For each column it adds whole lines of values until at least `idim` are collected, and keeps the first `idim`.
  - The method `P3DfmtFile.Load` does this imperatively: a `while` loop per column, numpy-style `array2` buffers filled column by column, and a class whose fields it updates.
  - It is proved equal to the functional reading `Parse`, which is built from `ReadColumns` and `Gather`.
  - Fatal conditions are `LoadError` values: those the program reports and exits on, and the errors `int()`, `float()` and `np.zeros` raise.
  - The "excess coordinates" diagnostics are returned as a list of `Warning`s.
- `Gmsh` (`gmsh.dfy`) models the converter `GmshFile.consume` and the writer `save` / `_write_header` / `_write_nodes` / `_write_elements`.
  - `Consume` appends nodes and quadrilaterals to the object's `nodes` and `elements` fields with nested loops. It is proved equal to the functions `BlockNodes` and `BlockQuads`.
  - The ids, counts, ranges and the 2×2 neighbourhood of each quadrilateral are proved about those functions.
  - The writer produces the file as a list of output lines, each a list of fields.
  - `ReadMesh`, which reads that layout back, is the writer's partner: `MeshRoundTrip` proves that it recovers exactly the nodes and elements written.

The element of a 2×2 grid is `1 3 2 1 1 3 4 2`: its corners are the nodes at (0,0), (1,0), (1,1) and (0,1), with ids 1, 3, 4 and 2 (lemma `Gmsh.TwoByTwo`). This is what p2d_gmsh.py:143-146 computes.

## Model

| member | source | states |
|---|---|---|
| Plot3D.LineAt | p2d_gmsh.py:54 | defines `fp.readline().strip()` at a line position: the line itself, or a blank line past the end of the file (also at :67); `GatherEnd` and `ColumnsUnexpectedEnd` state what reaching it mid-column does |
| Plot3D.ParseFloats | p2d_gmsh.py:57 | `list(map(float, ...))` succeeds exactly when every token is a number, and then gives one value per token, in order |
| Plot3D.BlockCount | p2d_gmsh.py:31-35 | a blank first line is the "missing block count" error, and only that; `int(first_line)` succeeds exactly on a line holding one integer token |
| Plot3D.Dimensions | p2d_gmsh.py:40-48 | a blank second line is the "missing dimensions" error, and only that; the dimensions are read exactly from a line of two non-negative integer tokens (a negative one fails at allocation) |
| Plot3D.Gather | p2d_gmsh.py:53-58 | the inner `while` loop collects at least `need` values when it succeeds, and fails only with the end-of-input or bad-coordinate error naming this column's row |
| Plot3D.GatherSuccess | p2d_gmsh.py:53-58 | on success the loop has read the shortest run of non-blank, all-numeric lines that holds `need` values, and the values are those lines' values in order |
| Plot3D.GatherSucceeds | p2d_gmsh.py:53-58 | conversely, when the lines ahead form such a shortest non-blank, all-numeric run, the loop succeeds with exactly their values and stops after the run |
| Plot3D.GatherEnd | p2d_gmsh.py:53-56 | the loop stops with "unexpected end" exactly when the run of non-blank lines ahead is all numeric but holds too few values |
| Plot3D.GatherColumn | p2d_gmsh.py:52-58 | the imperative column loop computes exactly `Gather` from an empty value list |
| Plot3D.Excess | p2d_gmsh.py:59-60 | a column warns exactly when it collected more than `idim` values |
| Plot3D.ReadColumns | p2d_gmsh.py:51-61 | reading `n` columns gives `n` columns and `n + 1` line bounds starting at the first line, or an end-of-input / bad-coordinate error for this axis naming a row in 1..n |
| Plot3D.ColumnLengths | p2d_gmsh.py:61 | every stored column holds exactly `idim` values (`values[:idim]`) |
| Plot3D.WarningRows | p2d_gmsh.py:59-60 | every warning of a read of `n` columns is for this axis and names a row in 1..n, and their rows strictly increase: the warnings come in column order, at most one per column |
| Plot3D.ColumnsFailurePersists | p2d_gmsh.py:51-61 | once a column fails, reading more columns fails with the same error |
| Plot3D.ColumnsSpans | p2d_gmsh.py:51-61 | column j is the first `idim` values of the shortest run of non-blank numeric lines after column j - 1; row j + 1 warns exactly when that run held more than `idim` values |
| Plot3D.ColumnSpanAt | p2d_gmsh.py:51-61 | the same, for one column j |
| Plot3D.LastColumnSpan | p2d_gmsh.py:52-61 | the same, for the last column read |
| Plot3D.GatherSpan | p2d_gmsh.py:52-58 | a successful gather occupies exactly the lines the span predicate describes |
| Plot3D.SpanGathers | p2d_gmsh.py:53-61 | conversely, the lines of a span are gathered into their values, and the column draws the excess warning exactly when those lines hold more than `idim` values |
| Plot3D.ColumnsDropLast | p2d_gmsh.py:51 | the read of n columns extends the read of n - 1: earlier columns, bounds and warnings are unchanged |
| Plot3D.ColumnsExtend | p2d_gmsh.py:52-61 | a successful gather of column j extends the read by `values[:idim]`, its end line and its warning, if any |
| Plot3D.ColumnsAdvance | p2d_gmsh.py:52-61 | conversely to `ColumnSpanAt`: when the lines after column j form a span, reading column j + 1 succeeds with that column and end line, warning exactly when the lines held more than `idim` values |
| Plot3D.ColumnsBreak | p2d_gmsh.py:55-56 | a failed gather of column j ends the whole read with that error |
| Plot3D.ColumnsUnexpectedEnd | p2d_gmsh.py:55-56 | an end-of-input error names row j + 1 of the column being read: all earlier columns were read, and the non-blank lines left are numeric but too few |
| Plot3D.ColumnsStopAt | p2d_gmsh.py:53-71 | for both the x-column loop (lines 53-56) and the y-column loop (lines 66-71): conversely, such a short run after column j makes the read fail naming row j + 1, whatever the number of columns |
| Plot3D.FromColumns | p2d_gmsh.py:61 | the `idim`×`jdim` array whose column j is `cols[j]` (`x[:, j] = ...`) |
| Plot3D.Parse | p2d_gmsh.py:26-78 | a blank first line, a count other than 1 and a blank second line give their errors; a success read count 1 and the grid's own dimensions, and the grid is well formed |
| Plot3D.ParseColumns | p2d_gmsh.py:50-78 | the loaded x and y are the x-columns read from line 2 and the y-columns read from where they ended, and the warnings are the x-warnings followed by the y-warnings |
| Plot3D.ParseLoads | p2d_gmsh.py:26-78 | a valid header (count 1, then two dimensions) followed by successful x and y reads means the file loads, with those dimensions and the x-warnings followed by the y-warnings |
| Plot3D.ParseColumnError | p2d_gmsh.py:50-82 | after a valid header, an error reading the x-columns, or reading the y-columns after the x-columns succeeded, is the error of the whole load, unchanged |
| Plot3D.ExcessExample | p2d_gmsh.py:53-61 | a 2-by-1 grid whose x line holds three values loads with the first two as x, the y line as y, and exactly one warning, for x row 1 |
| Plot3D.StoreColumn | p2d_gmsh.py:61 | the column assignment stores `col` as column j, keeping the columns already stored, and leaves every other column of the array as it was |
| Plot3D.ReadColumn | p2d_gmsh.py:52-61 | one pass of the column loop extends the read by one column (stored in the array, warning if any) and leaves the later columns as they were, or ends it with the error and leaves the array unchanged |
| Plot3D.FillColumns | p2d_gmsh.py:50-76 | the column loop fills the array with exactly the columns of `ReadColumns` and returns its warnings and next line, or its error |
| Plot3D.P3DfmtFile.constructor | p2d_gmsh.py:12-14 | a reader with no blocks and a block count of 0 |
| Plot3D.P3DfmtFile.Load | p2d_gmsh.py:26-82 | on success the file holds exactly `[Parse(lines).grid]` and returns its warnings; on failure it returns `Parse`'s error and keeps its blocks; the block count is updated whenever line 1 held an integer |
| Gmsh.NodeId | p2d_gmsh.py:143-146 | defines the node id of grid point (i, j), `i*jdim + j + 1`; `NodeIdRange` and `NodeIdInjective` state its range and that it is one-to-one |
| Gmsh.Cells | p2d_gmsh.py:140-141 | defines the length of `range(n - 1)`: n - 1, and 0 when n is 0; `SingleBlockElements` states the resulting element count and that there are none when a dimension is at most 1 |
| Gmsh.Quad | p2d_gmsh.py:143-148 | defines the element list `[el_id, 3, 2, 1, n1, n2, n3, n4]` of cell (i, j); `QuadWellConnected` and `CellNeighbourhood` state its corners |
| Gmsh.NodeIdRange | p2d_gmsh.py:143-146 | `i*jdim + j + 1` lies in 1..idim*jdim for every grid point |
| Gmsh.NodeIdInjective | p2d_gmsh.py:136 | distinct grid points have distinct node ids |
| Gmsh.RowNodes | p2d_gmsh.py:135-137 | the nodes of one grid row: ids follow on, with the coordinates of that row's points and z = 0.0 |
| Gmsh.GridNodes | p2d_gmsh.py:134-137 | `m * jdim` nodes with consecutive ids and z = 0.0 |
| Gmsh.GridNodesAt | p2d_gmsh.py:134-137 | the node at position `i*jdim + j` holds grid point (i, j) |
| Gmsh.RowQuads | p2d_gmsh.py:141-148 | the quadrilaterals of one cell row, ids following on |
| Gmsh.GridQuads | p2d_gmsh.py:140-148 | `m * (jdim - 1)` elements with consecutive ids, type 3, 2 tags, physical tag 1 |
| Gmsh.GridQuadsAt | p2d_gmsh.py:140-148 | the element at position `i*(jdim - 1) + j` is the quadrilateral of cell (i, j) |
| Gmsh.QuadWellConnected | p2d_gmsh.py:143-146 | a cell's four corner ids are distinct and lie in 1..idim*jdim |
| Gmsh.GridQuadsWellConnected | p2d_gmsh.py:140-148 | every generated element references four distinct existing nodes |
| Gmsh.BlockNodes | p2d_gmsh.py:130-137 | the nodes for all blocks are numbered on consecutively from the existing count |
| Gmsh.BlockQuads | p2d_gmsh.py:130-148 | the elements for all blocks are numbered on consecutively from the existing count |
| Gmsh.BlockNodesStep | p2d_gmsh.py:130-137 | converting one more block appends exactly that block's nodes |
| Gmsh.BlockQuadsStep | p2d_gmsh.py:130-148 | converting one more block appends exactly that block's elements |
| Gmsh.SingleBlock | p2d_gmsh.py:129-148 | converting one grid into an empty mesh gives that grid's nodes and elements |
| Gmsh.SingleBlockNodes | p2d_gmsh.py:134-137 | exactly idim*jdim nodes, ids 1..n in row-major order, z = 0.0, and grid point (i, j) at id `i*jdim + j + 1` |
| Gmsh.SingleBlockElements | p2d_gmsh.py:140-148 | exactly (idim-1)*(jdim-1) elements, none when a dimension is at most 1, ids from 1, type 3, 2 tags, physical tag 1, four distinct existing corners |
| Gmsh.CellNeighbourhood | p2d_gmsh.py:140-148 | the element of cell (i, j) joins the nodes of (i, j), (i+1, j), (i+1, j+1) and (i, j+1), in that order |
| Gmsh.CellQuad | p2d_gmsh.py:142-148 | the element with id `i*(jdim-1) + j + 1` is the quadrilateral of cell (i, j) |
| Gmsh.PointNode | p2d_gmsh.py:136-137 | the node with id `i*jdim + j + 1` carries grid point (i, j) |
| Gmsh.TwoByTwo | p2d_gmsh.py:140-148 | a 2×2 grid gives 4 nodes and the single element `1 3 2 1 1 3 4 2` |
| Gmsh.NodeLine | p2d_gmsh.py:119 | defines one node line, its id, x, y and z in that order; `DecodeNodeLines` states that the lines read back to the nodes |
| Gmsh.ElementLine | p2d_gmsh.py:126 | defines one element line, its eight integers in list order; `DecodeElementLines` states that the lines read back to the elements |
| Gmsh.HeaderSection | p2d_gmsh.py:111-113 | defines the format section `$MeshFormat`, `2.2 0 8`, `$EndMeshFormat`; `MeshRoundTrip` states that a reader recognises it |
| Gmsh.MeshLines | p2d_gmsh.py:106-108 | defines the whole file as header, node section, element section; `MeshRoundTrip` states that it reads back to the nodes and elements written |
| Gmsh.NodeSection | p2d_gmsh.py:115-120 | `$Nodes`, a count line equal to the number of nodes, one line per node in order, `$EndNodes` |
| Gmsh.ElementSection | p2d_gmsh.py:122-127 | `$Elements`, a count line equal to the number of elements, one line per element in order, `$EndElements` |
| Gmsh.DecodeNodeLines | p2d_gmsh.py:118-119 | node lines read back to the nodes written |
| Gmsh.DecodeElementLines | p2d_gmsh.py:125-126 | element lines read back to the elements written |
| Gmsh.MeshRoundTrip | p2d_gmsh.py:106-127 | the written file reads back to exactly the nodes and elements written |
| Gmsh.GmshFile.constructor | p2d_gmsh.py:87-89 | an empty mesh |
| Gmsh.GmshFile.Consume | p2d_gmsh.py:129-148 | the nodes and elements grow by exactly `BlockNodes` / `BlockQuads` of the reader's blocks |
| Gmsh.GmshFile.AppendNodes | p2d_gmsh.py:134-137 | the node loop appends the grid's nodes in row-major order, ids from the node count |
| Gmsh.GmshFile.AppendQuads | p2d_gmsh.py:140-148 | the element loop appends one quadrilateral per cell, ids from the element count |
| Gmsh.GmshFile.WriteHeader | p2d_gmsh.py:110-113 | `$MeshFormat`, `2.2 0 8`, `$EndMeshFormat` |
| Gmsh.GmshFile.WriteNodes | p2d_gmsh.py:115-120 | the node section of the current nodes |
| Gmsh.GmshFile.WriteElements | p2d_gmsh.py:122-127 | the element section of the current elements |
| Gmsh.GmshFile.Save | p2d_gmsh.py:99-108 | the header, then the node section, then the element section |

## Left out

- The command-line wiring (p2d_gmsh.py:150-161) is glue. Its flow is a fresh reader `Load`, then `Consume` into a fresh `GmshFile`, then `Save`.
- File I/O is left out: opening the input, choosing between a file and standard output, and writing text. Input is a list of tokenised lines; output is a list of lines of fields.
- The `print` diagnostics and `sys.exit(1)` are left out. Fatal conditions are `LoadError` results and the excess-coordinates messages are `Warning`s.
  - The y end-of-input exit (p2d_gmsh.py:69-71) is the same `UnexpectedEnd` error, tagged with axis `Y`.
  - Warnings issued before a fatal error are not returned with the error.
- Number text is abstract: `int()`/`float()` parsing, float formatting in `str()` and f-strings, IEEE doubles, `inf`/`nan`.
  - Coordinates are `real` values that are only carried through.
  - Output fields are `Int`/`Num`/`Word` items, not characters.
- numpy arrays and their `shape`: a grid stores its coordinates as sequences of rows together with its dimensions.
- The reader's constructor with a filename is not modelled separately; it is the empty constructor followed by `Load`.
- The reader keeps no blocks (`[]`) where the source keeps `None` before a load.
- `Gmsh.BlockQuads`: element corner ids are not shifted past nodes that were already in the mesh or that belong to earlier blocks, exactly as in the source. The adjacency properties are therefore stated for one grid converted into an empty mesh. That is the program's only use: the reader accepts exactly one block, and the mesh is fresh.
