# Blokus Duo tiles, save lookup and game outcome in Dafny

This project models the game logic of the Blokus Duo console game and proves
properties of that model. Three parts are covered:

- **`Tile`** (`Tiles.dfy`, over the value-level grids of `Grids.dfy`). A tile has
  - a fixed point value `points` and a fixed frame size `size`;
  - a `used` flag;
  - a `size×size` array of squares.

  The model covers everything the class does:
  - `rotateRight` and `rotateLeft` build a new array and rebind the field.
  - `flipVert` and `flipHorz` reverse the array in place with exclusive-or swaps.
  - It provides a deep copy and a trimmed copy.
  - It stamps the tile onto a `char` board.
  - The static `newTileSet` builds the 21-piece set.

  The class becomes a Dafny `class` with an `array2<bool>` field. Every method that reads or rewrites the squares is proved against a function on grid values, e.g. `Occupancy() == RotateRight(old(Occupancy()))`. The value-level lemmas then give the geometry:
  - four right turns are the identity;
  - a left turn undoes a right turn;
  - each flip is an involution;
  - every transform keeps the number of squares;
  - a placement covers exactly the tile's squares.
- **`findSaveIndex`** (`BlokusDuo.dfy`). It resolves what a player typed to a position in the list of save names:
  - a slot number in brackets, `[k]`;
  - a bare slot number `k`, where `k` matches `1?[0-9]`;
  - otherwise, the first name equal to it ignoring case.

  It returns -1 when nothing is named. `FindSaveIndex` keeps the source's loop, with its early exit on `idx == -1`. It is proved equal to the reference function `SaveIndex`, whose branches are characterised by lemmas.
- **The end-of-game rule** (`BlokusDuo.dfy`). When neither player can move, equal scores tie; otherwise player 1 wins exactly when their score is higher, else player 2. `GameOutcome` is a pure function whose contract states each outcome as an if-and-only-if.

The project has three modules: `Grids`, `Tiles` (which imports `Grids`) and `BlokusDuo`.

## Model

| member | source | states |
|---|---|---|
| Grids.RotateRight | Tile.java:132-140 | a clockwise quarter turn of a square frame is a square frame of the same size |
| Grids.RotateLeft | Tile.java:146-154 | a counter-clockwise quarter turn of a square frame is a square frame of the same size |
| Grids.FlipVert | Tile.java:161-174 | reversing the row order of a square frame keeps it square and of the same size |
| Grids.FlipHorz | Tile.java:181-194 | reversing the column order of a square frame keeps it square and of the same size |
| Grids.RotateLeftUndoesRight | Tile.java:132-154 | a left turn after a right turn gives back the original grid |
| Grids.RotateRightUndoesLeft | Tile.java:132-154 | a right turn after a left turn gives back the original grid |
| Grids.RotateRightTwice | Tile.java:132-140 | two right turns are the half turn: cell (i, j) holds the old cell (n-1-i, n-1-j) |
| Grids.RotateRightFourTimes | Tile.java:132-140 | four right turns give back the original grid |
| Grids.FlipVertInvolution | Tile.java:161-174 | flipping vertically twice gives back the original grid |
| Grids.FlipHorzInvolution | Tile.java:181-194 | flipping horizontally twice gives back the original grid |
| Grids.CountRotateRight | Tile.java:132-140 | a right turn keeps the number of occupied squares |
| Grids.CountRotateLeft | Tile.java:146-154 | a left turn keeps the number of occupied squares |
| Grids.CountFlipVert | Tile.java:161-174 | a vertical flip keeps the number of occupied squares |
| Grids.CountFlipHorz | Tile.java:181-194 | a horizontal flip keeps the number of occupied squares |
| Grids.TopRowIsFirstOccupied | Tile.java:73-77 | the first occupied row, or the frame size when no row is occupied, is at or above every occupied square |
| Grids.LeftColumnIsFirstOccupied | Tile.java:80-84 | the first occupied column, or the frame size when no column is occupied, is at or left of every occupied square |
| Grids.TrimFits | Tile.java:98-104 | the window read by the trim starts at the first occupied row and column and stays inside the frame |
| Grids.Trimmed | Tile.java:65-107 | the trimmed grid has as many rows as the fullest column has squares and as many columns as the fullest row has squares |
| Grids.TrimmedEmptyIff | Tile.java:65-107 | the trimmed grid is 0×0 exactly when the tile has no occupied square |
| Grids.TrimmedLosesSquaresOfW | Tile.java:249-250 | trimming the "W" piece gives the 2×2 grid [[true, false], [true, true]], which has 3 of its 5 squares |
| Grids.TrimmedLosesSquaresOfZ4 | Tile.java:238-239 | trimming the "Z4" piece gives the 2×2 grid [[true, true], [false, true]], which has 3 of its 4 squares |
| Grids.BoundingBox | Tile.java:60-64 | the intended trim spans from the first to the last occupied row and from the first to the last occupied column |
| Grids.BoundingBoxKeepsSquares | Tile.java:60-64 | the bounding box keeps every occupied square |
| Grids.BoundingBoxIsTight | Tile.java:60-64 | the first and last rows and the first and last columns of a non-empty bounding box each hold a square |
| Grids.BoundingBoxOfW | Tile.java:249-250 | the bounding box of "W" is all of its 3×3 frame |
| Grids.FootprintSize | Tile.java:205-215 | a placement covers exactly as many board cells as the tile has squares |
| Grids.FootprintCovers | Tile.java:205-215 | a board cell is in the placement's footprint exactly when an occupied square lies over it |
| Tiles.Tile.constructor | Tile.java:24-28 | a new tile keeps the given points, size and array, and is not used |
| Tiles.Tile.GetUsed | Tile.java:34-36 | returns the used flag |
| Tiles.Tile.GetPoints | Tile.java:38-40 | returns the point value |
| Tiles.Tile.GetSize | Tile.java:42-44 | returns the frame size |
| Tiles.Tile.GetSquares | Tile.java:46-48 | returns the tile's own array, which is never a copy |
| Tiles.Tile.GetSquaresCopy | Tile.java:50-58 | returns a new size×size array with the same squares |
| Tiles.Tile.GetSquaresRemoveEmpty | Tile.java:65-107 | returns a new array with the trim's dimensions whose contents are the trimmed grid |
| Tiles.Tile.SetSquares | Tile.java:115-117 | rebinds the squares field and changes nothing else |
| Tiles.Tile.SetUsed | Tile.java:124-126 | sets the used flag and changes nothing else |
| Tiles.Tile.RotateRight | Tile.java:132-140 | the squares become a new array holding the right turn of the old grid |
| Tiles.Tile.RotateLeft | Tile.java:146-154 | the squares become a new array holding the left turn of the old grid |
| Tiles.Tile.FlipVert | Tile.java:161-174 | the same array now holds the vertical flip of the old grid |
| Tiles.Tile.FlipHorz | Tile.java:181-194 | the same array now holds the horizontal flip of the old grid |
| Tiles.Tile.PlaceTile | Tile.java:205-215 | every board cell under an occupied square holds the player's mark; every other cell keeps its old value |
| Tiles.XorSwap | Tile.java:169-171 | the three exclusive-or assignments on two distinct cells exchange their values and touch no other cell |
| Tiles.ReverseColumn | Tile.java:166-172 | one pass of the inner loop of flipVert reverses column i and leaves the other columns alone |
| Tiles.ReverseRow | Tile.java:186-192 | one pass of the inner loop of flipHorz reverses row i and leaves the other rows alone |
| Tiles.Scan | Tile.java:67-95 | the scan finds the largest column count, the largest row count, the first occupied row and the first occupied column, and the window they give fits the frame |
| Tiles.ScanLine | Tile.java:71-86 | one pass counts the squares of column i and of row i, and lowers the row and column indices to the first squares met |
| Tiles.ScanFindsWindow | Tile.java:67-95 | at the end of the scan, the indices are the first occupied row and column, and the window fits |
| Tiles.CopyWindow | Tile.java:98-104 | the new array holds the window of the frame at the given offset |
| Tiles.FlipSparesCopy | Tile.java:50-58 | after a copy and an alias are taken, a flip changes the aliased array but not the copy |
| Tiles.Lookup | Tile.java:225-274 | a key that names a piece is that piece's key |
| Tiles.Piece | Tile.java:228-271 | the 21 shapes: the points, frame size and squares each put passes to `new Tile`, with one to five points in a frame of one to five rows |
| Tiles.Key | Tile.java:228-271 | the key each piece is put under, a name of one or two characters |
| Tiles.LookupKey | Tile.java:225-274 | every piece's key names that piece |
| Tiles.KeyInjective | Tile.java:225-274 | no two pieces share a key |
| Tiles.PieceIsShape | Tile.java:228-271 | every piece's frame is size×size and its points equal its number of squares |
| Tiles.SmallPiecesAreShapes | Tile.java:228-233 | I1, I2, V3, I3 and O have square frames and points equal to their squares |
| Tiles.TetrominoesAreShapes | Tile.java:234-242 | T4, L4, Z4 and I4 have square frames and points equal to their squares |
| Tiles.PentominoesAreShapes | Tile.java:243-250 | F, X, P and W have square frames and points equal to their squares |
| Tiles.MorePentominoesAreShapes | Tile.java:251-258 | Z5, U, T5 and V5 have square frames and points equal to their squares |
| Tiles.LongPentominoesAreShapes | Tile.java:259-271 | Y, L5, N and I5 have square frames and points equal to their squares |
| Tiles.CatalogW | Tile.java:249-250 | the grid the trimming lemmas call "W" is the catalog's W piece |
| Tiles.CatalogZ4 | Tile.java:238-239 | the grid the trimming lemmas call "Z4" is the catalog's Z4 piece |
| Tiles.NewTile | Tile.java:228-271 | each entry of the set is a new, unused tile with a new array holding the piece's squares |
| Tiles.Order | Tile.java:228-271 | the set puts 21 pieces |
| Tiles.Index | Tile.java:228-271 | every piece has a position in the put order |
| Tiles.OrderIndex | Tile.java:228-271 | each position of the put order holds a different piece, so each piece is put once |
| Tiles.StockedPut | Tile.java:228-271 | a put under a fresh key keeps the earlier entries and adds the next one |
| Tiles.PutAll | Tile.java:225-274 | one new tile per key, each made from its shape, with no tile or array shared |
| Tiles.NewTileSet | Tile.java:225-274 | 21 keys, each naming a piece and holding a new tile made from it; each tile is size×size, unused, with points equal to its squares; no tile or array is shared |
| BlokusDuo.DigitValue | BlokusDuo.java:659 | a digit is worth less than ten |
| BlokusDuo.DigitOf | BlokusDuo.java:659 | the digit for a value below ten is worth that value |
| BlokusDuo.IsSmallNumber | BlokusDuo.java:667 | the whole choice matches `1?[0-9]`: one ASCII digit, or `1` followed by one |
| BlokusDuo.IsBracketedNumber | BlokusDuo.java:658 | the whole choice matches `\[1?[0-9]\]`: a small number between `[` and `]` |
| BlokusDuo.Decimal | BlokusDuo.java:659-668 | the value an integer parser gives a string of digits, most significant first |
| BlokusDuo.DecimalOfSmallNumber | BlokusDuo.java:658-668 | a `1?[0-9]` token parses to a value below 20: its one digit, or ten plus its second digit |
| BlokusDuo.SmallNumberRoundTrip | BlokusDuo.java:658-668 | every value below 20 has a `1?[0-9]` token that parses back to it |
| BlokusDuo.SmallNumberTextOfDecimal | BlokusDuo.java:658-668 | every `1?[0-9]` token is the token of its own value |
| BlokusDuo.IndexOf | BlokusDuo.java:659 | the first position of a character; -1 exactly when it does not occur |
| BlokusDuo.CloseBracketOfBracketedNumber | BlokusDuo.java:658-659 | in `[k]` the first `]` is the last character, so exactly the digits are parsed |
| BlokusDuo.CharsEqualIgnoreCase | BlokusDuo.java:679 | the character test of `equalsIgnoreCase`: equal, equal in upper case, or equal after upper- then lower-casing (ASCII letters only) |
| BlokusDuo.EqualsIgnoreCase | BlokusDuo.java:679 | `equalsIgnoreCase`: the same length and equal ignoring case at every position; the test the loop of FindSaveIndex makes |
| BlokusDuo.CharsEqualIgnoreCaseIffLower | BlokusDuo.java:679 | two characters are equal ignoring case exactly when their lower cases are equal |
| BlokusDuo.EqualsIgnoreCaseIffLowered | BlokusDuo.java:679 | two names are equal ignoring case exactly when their lower-cased forms are equal |
| BlokusDuo.EqualsIgnoreCaseIsEquivalence | BlokusDuo.java:679 | equality ignoring case is reflexive, symmetric and transitive |
| BlokusDuo.FirstMatch | BlokusDuo.java:676-682 | the first position whose name equals the given one ignoring case, or -1 exactly when none does |
| BlokusDuo.Slot | BlokusDuo.java:659-673 | a slot number from 1 to the list length gives the position before it; 0, or a number past the end, gives -1 |
| BlokusDuo.SaveIndex | BlokusDuo.java:653-685 | the answer is -1 or a valid position in the list |
| BlokusDuo.FindSaveIndex | BlokusDuo.java:653-685 | returns -1 or a valid position, and it is what SaveIndex says |
| BlokusDuo.BracketedSlot | BlokusDuo.java:658-665 | `[k]` names slot k-1 when 1 <= k <= the list length, and nothing otherwise |
| BlokusDuo.BareSlot | BlokusDuo.java:667-674 | a bare `k` is not bracketed, and names slot k-1 when 1 <= k <= the list length, and nothing otherwise |
| BlokusDuo.BracketsDoNotMatter | BlokusDuo.java:658-674 | a slot number names the same save with or without brackets |
| BlokusDuo.SlotZeroIsNone | BlokusDuo.java:658-674 | `0` and `[0]` name no save |
| BlokusDuo.NameFindsFirstMatch | BlokusDuo.java:676-682 | any other choice names a save exactly when some name equals it ignoring case, and then it names the first such name |
| BlokusDuo.GameOutcome | BlokusDuo.java:621-631 | the game is over exactly when neither player can move; then it is a tie exactly when the scores are equal, player 1 wins exactly when its score is higher, player 2 exactly when it is lower |
| BlokusDuo.WinnerScoresMore | BlokusDuo.java:621-631 | a winner has strictly more points than the other player |
| BlokusDuo.OutcomeIsSymmetric | BlokusDuo.java:621-631 | swapping the players swaps the winner and leaves a tie or an unfinished game unchanged |

## Left out

- Console input and output are not modelled. That covers the menus, `printBoard`, `printScore`, `printTiles`, `printError`, the `runGame` loop and `main` in `BlokusDuo.java`. The messages printed for a tie or a win are also left out; `GameOutcome` returns the outcome instead.
- BlokusDuo.GameOutcome decides only the outcome the game-over branch (BlokusDuo.java:621-638) announces. That branch does not set `running` to false, so the game loop at line 347 does not end on it. Nothing in the game loop sets `p1CanMove` or `p2CanMove` to false (line 612 is commented out), so the branch is never reached. The model does not capture either point.
- `BlokusDuo.placeTile` (BlokusDuo.java:274-320) is not modelled. It is driven by the console, and most of its body is unfinished.
- `Saves.java`, `Query.java` and `IO.java` are not part of this model. They are file and console plumbing.
- The iteration order of the `HashMap` built by `newTileSet` is not modelled. The set is a Dafny `map` from key to tile.
- Tiles.NewTileSet writes the source's 21 puts as one loop, `PutAll`, over the keys and shapes in the source's put order. The puts, their order and their results are the same. A straight-line chain of 21 map updates is too costly for the verifier.
- `equalsIgnoreCase` folds the case of all of Unicode in the source. `BlokusDuo.EqualsIgnoreCase` folds only ASCII letters, and other characters must match exactly.
- The source's `null` arguments and the exceptions they raise are not modelled.
- Java's arrays of arrays are modelled as `array2`. Two tiles sharing one row array cannot be expressed. Aliasing of the whole array, which `getSquares` and the in-place flips rely on, is modelled.
- Tiles.Tile.GetSquaresCopy, GetSquaresRemoveEmpty, RotateRight, RotateLeft, FlipVert, FlipHorz and PlaceTile require the array to be `size×size` (`Valid()`). The source assumes this and would throw on a smaller array.
- Tiles.Tile.PlaceTile requires the cells under occupied squares to be on the board. The source assumes a valid position. On an invalid one it throws after writing part of the tile, and that partial write is not modelled.
- Tiles.Tile.SetSquares does not require an array of the tile's size. The source states that only as a comment, and the rotations are the only callers.

## Findings

| source | as written | input that shows it | evidently intended | confidence | as-written member | corrected member |
|---|---|---|---|---|---|---|
| Tile.java:65-107 | The copy has as many rows as the fullest column has squares and as many columns as the fullest row has squares. It is read from the first occupied row and column. | The "W" piece (Tile.java:249-250). Its fullest row and column each hold two squares, so the copy is 2×2: [[true, false], [true, true]]. That keeps 3 of the 5 squares, although W has no empty row or column. "Z4" (Tile.java:238-239) likewise trims to 2×2 and keeps 3 of its 4 squares. | Remove only empty rows and columns: keep the bounding box from the first to the last occupied row and column, which for W is all of its 3×3 frame. | not executed | Grids.TrimmedLosesSquaresOfW | Grids.BoundingBoxKeepsSquares |

`Tiles.Tile.GetSquaresRemoveEmpty` models the code as written. The intended trim, `Grids.BoundingBox`, is proved to keep every square (`BoundingBoxKeepsSquares`). It is also proved tight: no edge row or column of it is empty (`BoundingBoxIsTight`).
