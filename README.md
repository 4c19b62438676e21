# Mosaic tile optimiser, modelled in Dafny

`optimize_mosaic.py` reads a 32 x 32 LDraw mosaic built from 1x1 tiles. It then
re-tiles the mosaic greedily with larger catalog tiles, writes the optimised part
list and counts the parts.

This project models four parts of that program:

- **The catalog.** `Catalog.Tiles` is the ordered list of tile shapes: 2x2, 2x1,
  1x2 and 1x1, with their part numbers.
- **The packer, `optimize_grid`.** For each tile in catalog order, it scans
  candidate origins row by row. An empty origin is skipped. Otherwise the
  `can_place` loop checks that every cell of the tile's rectangle is unmarked and
  has the origin's colour. When it does, the marking loop sets the `placed` mask
  over the rectangle, and the piece is appended with its LDU centre and rotation
  tag. The `placed` mask is an `array2<bool>` that the methods update in place.
  The colour grid is only read, so it is a value: a sequence of rows.
- **The coordinate part of `parse_ldr`.** Part records, already tokenised into
  (colour, x, z), fill a fresh 32 x 32 `array2`. Each record goes to cell
  `((x - 10) div 20, (z - 10) div 20)`. Records that land off the grid are dropped.
- **The counting loop of `write_optimized_ldr`.** It builds a map from
  (part, w, h) to the number of pieces with that key.

What is proved:

- **Packer output.** Every piece is a catalog shape, with its rotation tag, inside
  the grid, centred on whole cells, over cells of its own colour. No two pieces
  share a cell. Every set cell is covered and no empty cell is.
- **Greedy priority.** After the scan, for every catalog shape t and every origin
  where t would fit on a rectangle of one colour, some piece emitted at that scan
  position or earlier overlaps that rectangle. Coverage follows from this because
  the catalog ends with the 1x1 tile.
- **Order and uniqueness.** The pieces come out in scan order: by pass, then row,
  then column. At every scan position exactly one piece list meets the scan
  invariant. So the packer's postcondition determines its output, and each loop
  level's result is fixed as well.
- **Compaction.** The pieces tile the set cells exactly: their areas add up to the
  number of set cells. There are therefore at most as many pieces as set cells,
  and so at most 32 * 32 = 1024, the baseline of the summary the program prints.
  The count equals the set cells exactly when no 2x2, 2x1 or 1x2 tile fits
  anywhere on one colour. Otherwise it is strictly smaller.
- **The whole flow.** Parsing, packing and counting together cover exactly the
  cells some record lands on, each once, with the colour of the last record
  landing there.
- **Parsing.** A parsed cell holds exactly the colour of the last record landing
  on it, or is empty when no record lands on it.
- **Written records.** A record written for a placed piece parses back to the
  piece's origin cell. When every piece is 1x1, the written records parse back to
  the packed grid exactly. On a checkerboard every piece is 1x1.
- **Part counts.** For every key, the counts map holds the number of pieces with
  that key, and it holds exactly the keys that occur. The counts sum to the
  number of pieces.

The Python loop nest of `optimize_grid` is split into methods, one loop level
each: `OptimizeGrid` (tiles), `ScanPass` (rows), `ScanRow` (columns),
`ScanOrigin` (the loop body) and `Place` (the committing branch). A ghost map
`owner` records the piece that claims each marked cell. `Mirrors` ties it to the
mask.

## Model

| member | source | states |
|---|---|---|
| `Catalog.Centre` | optimize_mosaic.py:64-65 | the LDU centre of a span of `size` cells is the midpoint of its two edges, at 20 LDU per cell |
| `Catalog.GridCoord` | optimize_mosaic.py:25-26 | the grid index is the floor of (v - 10) / 20: `20 g <= v - 10 < 20 g + 20` |
| `Catalog.MakePiece` | optimize_mosaic.py:64-74 | the appended tuple carries the colour, part and size of the tile. Its origin can be recovered from its centre. Its rotation is the quarter turn exactly for the 1x2 tile |
| `Catalog.PassOfTile` | optimize_mosaic.py:6-11 | the catalog shapes are distinct and each is at most 2x2, so a piece's shape identifies the pass that placed it |
| `Catalog.PassIndex` | optimize_mosaic.py:6-11 | a catalog piece's pass number is the index of its own entry in `TILES` |
| `Catalog.CentreToCell` | optimize_mosaic.py:25-26 | for every catalog size, the transform of a piece's centre gives back its origin cell |
| `Packer.CanPlace` | optimize_mosaic.py:45-52 | true exactly when no cell of the rectangle is placed and every cell has the origin's colour (both directions, early exit included) |
| `Packer.Mark` | optimize_mosaic.py:55-58 | the mask becomes true over the rectangle and is unchanged elsewhere |
| `Packer.ScanOrigin` | optimize_mosaic.py:40-74 | appends exactly `MakePiece(colour, x, y, tile)` when the origin is set, its rectangle has one colour and no cell of it is placed. Otherwise leaves the pieces and the mask unchanged. Keeps the scan invariant |
| `Packer.Place` | optimize_mosaic.py:54-74 | appends the piece, marks exactly its rectangle, and keeps the scan invariant with the origin now settled |
| `Packer.MarkClaimed` | optimize_mosaic.py:56-58 | marking the rectangle keeps the mask equal to the owned cells once the rectangle is claimed |
| `Packer.ScanRow` | optimize_mosaic.py:39-74 | extends the piece list, and after one row of origins the scan invariant holds at the start of the next row. By `ScanInvUnique` that invariant fixes the new list |
| `Packer.ScanPass` | optimize_mosaic.py:38-74 | extends the piece list; after one pass every origin of that tile is settled, the scan moves to the next tile, and the new list is fixed by `ScanInvUnique` |
| `Packer.OptimizeGrid` | optimize_mosaic.py:31-76 | pieces are well placed and disjoint, cover every set cell and no empty cell, keep greedy priority, and come in scan order. They number at most the set cells (at most 1024), with equality exactly when no larger tile fits anywhere on one colour |
| `Packer.Commit` | optimize_mosaic.py:54-74 | committing the tile on a free rectangle of one colour keeps the pieces well placed and disjoint, keeps the owner map exact, and settles that origin |
| `Packer.Skip` | optimize_mosaic.py:41-54 | an origin that is empty, or whose rectangle has a claimed cell, is settled without a new piece |
| `Packer.BlockedOwned` | optimize_mosaic.py:48-52 | a rectangle blocked by the mask has a cell claimed by an earlier piece |
| `Packer.FreeUnowned` | optimize_mosaic.py:48 | a rectangle free in the mask has no claimed cell |
| `Packer.RowDone` | optimize_mosaic.py:39 | origins past the last column `32 - w` cannot fit the tile, so they are settled too |
| `Packer.PassDone` | optimize_mosaic.py:38 | origins past the last row `32 - h` cannot fit the tile, so they are settled too |
| `Packer.PriorityCovers` | optimize_mosaic.py:10 | greedy priority at the final 1x1 tile implies that every set cell is covered |
| `Packer.WellPlacedAvoidsEmpty` | optimize_mosaic.py:41-43 | pieces lie on cells of their colour, so none covers an empty cell |
| `Packer.SameSlot` | optimize_mosaic.py:64-74 | two well-placed pieces at the same pass and origin are equal in every field of the appended tuple |
| `Packer.Claimant` | optimize_mosaic.py:45-54 | a piece that fits at a visited position shares a cell with a piece emitted there or earlier |
| `Packer.Reaches` | optimize_mosaic.py:37-74 | for two lists meeting the invariant that agree before index n, the n-th piece of one is emitted no earlier than that of the other |
| `Packer.NextAgrees` | optimize_mosaic.py:37-74 | two such lists that agree before index n also agree at n |
| `Packer.AgreeUpTo` | optimize_mosaic.py:37-74 | two such lists agree on every index below n |
| `Packer.ScanUnique` | optimize_mosaic.py:37-74 | at every scan position exactly one piece list is well placed, disjoint, in scan order, settled and emitted before that position |
| `Packer.ScanInvUnique` | optimize_mosaic.py:37-74 | the loop invariant of the scan fixes the piece list, whatever the ghost owner maps |
| `Packer.GreedyUnique` | optimize_mosaic.py:31-76 | the postcondition of `OptimizeGrid` admits one piece list per grid: it fixes the output, not just its properties |
| `Packer.CoveredMember` | optimize_mosaic.py:56-58 | a cell is in the covered set exactly when some piece covers it |
| `Packer.CatalogArea` | optimize_mosaic.py:6-11 | a catalog rectangle has `w * h` cells: 1 for the 1x1 tile, at least 2 for the others |
| `Packer.CoveredCard` | optimize_mosaic.py:54-58 | disjoint pieces cover as many cells as their areas add up to |
| `Packer.AreaAtLeast` | optimize_mosaic.py:6-11 | the areas add up to at least the piece count, and to exactly the piece count iff every piece is 1x1 |
| `Packer.CoveredIsSetCells` | optimize_mosaic.py:41-58 | the covered cells are exactly the set cells |
| `Packer.LargerFitShrinks` | optimize_mosaic.py:37-58 | when a 2x2, 2x1 or 1x2 tile fits anywhere on one colour, there are strictly fewer pieces than set cells |
| `Packer.NoLargerFitUnit` | optimize_mosaic.py:37-58 | when no larger tile fits anywhere on one colour, every piece is 1x1 |
| `Packer.Compaction` | optimize_mosaic.py:106-108 | at most as many pieces as set cells, with equality exactly when no larger tile fits anywhere |
| `Packer.SetCellsAtMost` | optimize_mosaic.py:108 | there are at most 32 * 32 = 1024 set cells |
| `LdrParse.ParseLdr` | optimize_mosaic.py:15-29 | the returned fresh 32 x 32 grid holds, cell for cell, the colour left by reading the records in order |
| `LdrParse.OffGridIgnored` | optimize_mosaic.py:27 | a record whose transformed position is off the grid changes no cell |
| `LdrParse.LaterOverwrites` | optimize_mosaic.py:28 | an on-grid record overwrites its cell, whatever came before |
| `LdrParse.LastWriterWins` | optimize_mosaic.py:18-28 | a cell holds colour c exactly when the last record landing on it has colour c (both directions) |
| `LdrParse.EmptyUnlessHit` | optimize_mosaic.py:15-28 | a cell stays empty exactly when no record lands on it (both directions) |
| `LdrParse.PieceLands` | optimize_mosaic.py:25-26 | the record of a placed piece lands on the grid, on exactly its origin cell |
| `LdrParse.WrittenPiecesParse` | optimize_mosaic.py:85-86 | parsing the written records gives each piece's origin cell the piece's colour and leaves every other cell empty |
| `LdrParse.UnitPiecesRoundTrip` | optimize_mosaic.py:25-28 | when all pieces are 1x1, the written records parse back to the packed grid |
| `LdrParse.CheckerboardUnitPieces` | optimize_mosaic.py:45-52 | on a grid with no two equal neighbours, every placed piece is 1x1 |
| `PartCount.CountParts` | optimize_mosaic.py:91-96 | a key is present exactly when some piece has it. Its value is the number of such pieces. The values sum to the number of pieces |
| `PartCount.TotalRemove` | optimize_mosaic.py:104-107 | the total of a count map does not depend on the order in which it is summed |
| `PartCount.TotalBump` | optimize_mosaic.py:94 | `counts.get(key, 0) + 1` raises the total by one |
| `Pipeline.Run` | optimize_mosaic.py:99-101 | the pieces cover exactly the cells some record lands on, none twice, each with the colour of the last record landing there. The counts give each key's number of pieces and sum to the piece count, at most 1024 |

## Left out

- `mosaic.py` (image loading, colour matching, writing the 1x1 mosaic) is not part of this model. It rests on image I/O and floating point.
- File reading and writing, line tokenising, `int()` conversion and the header, `0 STEP` and summary printing are I/O. `ParseLdr` takes records already split into (colour, x, z). The part line's y field and the rest of the line are ignored by the source and are not modelled.
- The rotation strings are modelled as the two tags `Identity` and `Quarter`, not as text. The emitted line `1 {color} {x} 0 {z} {rot} {part}.dat` is modelled only through the record it parses back to (`ToRecord`).
- The `__main__` driver is `Pipeline.Run` without its file names and printing. The summary's "Total pieces" appears as `PartCount.Total` and the 1024 baseline as `Packer.SetCellsAtMost`.
- `OptimizeGrid` operates on a grid of exactly 32 x 32 cells (`IsGrid`), the only shape `parse_ldr` produces. The grid is a value because the packer never writes it.
- `LdrParse.UnitPiecesRoundTrip`: the records of larger pieces do not parse back to the packed grid. `parse_ldr` reads one cell per record, namely the piece's origin, so only the origin cells are restored (`WrittenPiecesParse`). The round trip is proved only for all-1x1 output. A whole-grid round trip does not hold for the code as written.
