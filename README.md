# Sudoku backtracking solver and hurl parameter parser

This project models two pieces of a Rust teaching repository.

**The Sudoku solver** (`fullstack-rust/intermediate/wasm/sudoku/src/lib.rs`).
A board is 81 digits in row-major order, and 0 marks an empty cell.
`Cells::new` scans the board once. It turns each clue into a `Fixed` cell and
records each empty position in a fixed-size hole list. `Cells::solve` then walks
a cursor over that hole list:

- `update_hole` looks for the next digit above the hole's current value that no
  peer holds. A peer is a cell in the same row, column or 3x3 box, and
  `get_valid` finds them by reading 27 cells.
- If such a digit exists, it is placed as a `Guess` and the cursor moves forward.
- Otherwise the hole is cleared and the cursor moves back.
- The search fails when the first hole runs out of digits.

`as_board` copies the cells back into a board, and `PartialEq` compares two boards
cell by cell.

The model has three modules:

- `SudokuGrid` covers the geometry: rows, columns, boxes, the corner table and
  peers.
- `SudokuSearch` is the value-level theory of the search. It defines the hole
  list, the loop invariant `SearchState`, a rank that makes the search terminate,
  and the lemmas that one step keeps the invariant.
- `Sudoku` holds the imperative code. `Cells` is a class over arrays: `inner` for
  the cells, `holes` for the hole list, and a `holeCount` field.

The main results:

- `Solve` terminates.
- When it returns `Ok`, every cell holds a digit and every clue is kept. When the
  clues are consistent, the grid is the first completion in hole order, so it is
  the unique answer the search can give.
- When it returns `Err`, the board has no completion.

**The hurl parameter parser** (`fullstack-rust/intermediate/hurl-1/src/app.end.rs`).
A command-line parameter such as `key=value` (a data field) or `key:value` (a
header) is parsed in two stages:

- `gather_escapes` splits the text into plain runs and escapes. The escapes are
  a backslash followed by `\`, `=` or `:`.
- `parse_param` picks the first plain run that contains a separator and takes
  the earliest separator in that run. The tokens before it are joined back into
  the key and those after it into the value, with escapes written back as
  backslash plus character. The run itself is split once at the separator.

The model:

- `Lex` and `Gather` are the lexer as a function over positions, the
  specification of `GatherEscapes`.
- `SplitParam` is the parse as a function, the specification of `ParseParam`.
- The surrounding data types are `App`, `Method`, `MethodData`, `Parameter` and
  `Separator`, each with its small operations.

The main results:

- Rendering the tokens returns the input.
- Every text token is non-empty, and no backslash in it is followed by a special
  character.
- Parsing fails exactly when no text token holds a separator.
- A parsed parameter satisfies `key + separator + value == input`.

## Model

| member | source | states |
|---|---|---|
| SudokuGrid.ColPositions | fullstack-rust/intermediate/wasm/sudoku/src/lib.rs:120-121 | the nine positions `9*x + col` read for a column, all on the board |
| SudokuGrid.RowPositions | fullstack-rust/intermediate/wasm/sudoku/src/lib.rs:120-122 | the nine positions `9*row + x` read for a row, all on the board |
| SudokuGrid.BoxPositions | fullstack-rust/intermediate/wasm/sudoku/src/lib.rs:124-128 | the nine positions `corner + 9*r + c` of a box, all on the board when the corner is a box corner |
| SudokuGrid.CornerOfBox | fullstack-rust/intermediate/wasm/sudoku/src/lib.rs:117 | entry b of the corner table is the top-left cell of box b: row 3*(b/3), column 3*(b%3) |
| SudokuGrid.InBoxPositions | fullstack-rust/intermediate/wasm/sudoku/src/lib.rs:117-128 | a cell is in box b exactly when it is one of the nine cells listed from that box's corner |
| SudokuGrid.InColPositions | fullstack-rust/intermediate/wasm/sudoku/src/lib.rs:120-121 | a cell is in column c exactly when the column read lists it |
| SudokuGrid.InRowPositions | fullstack-rust/intermediate/wasm/sudoku/src/lib.rs:120-122 | a cell is in row r exactly when the row read lists it |
| SudokuGrid.PeerPositions | fullstack-rust/intermediate/wasm/sudoku/src/lib.rs:113-130 | the union of the column, row and box reads is exactly the set of peers |
| SudokuGrid.CornerOf | fullstack-rust/intermediate/wasm/sudoku/src/lib.rs:115-118 | the corner looked up for a position is a box corner on the board (row and column at most 6) |
| SudokuGrid.Inspected | fullstack-rust/intermediate/wasm/sudoku/src/lib.rs:120-128 | each of the 27 cells `get_valid` reads, in its order, is on the board |
| SudokuGrid.InspectedArePeers | fullstack-rust/intermediate/wasm/sudoku/src/lib.rs:113-130 | the 27 cells read are exactly the peers of the position |
| SudokuGrid.InspectedLine | fullstack-rust/intermediate/wasm/sudoku/src/lib.rs:120-122 | read 2x is cell `9*x + col` and read 2x+1 is cell `9*row + x` |
| SudokuGrid.InspectedBox | fullstack-rust/intermediate/wasm/sudoku/src/lib.rs:124-126 | the box read at (r, c) is cell `corner + 9*r + c` |
| SudokuSearch.NextCandidate | fullstack-rust/intermediate/wasm/sudoku/src/lib.rs:87-90 | the first digit from `from` on that no peer holds, or 10; every digit skipped is held by a peer |
| SudokuSearch.ZerosBelow | fullstack-rust/intermediate/wasm/sudoku/src/lib.rs:58-66 | the holes recorded below a position are empty cells, strictly increasing |
| SudokuSearch.ZerosBelowComplete | fullstack-rust/intermediate/wasm/sudoku/src/lib.rs:62-64 | every empty cell below the position is recorded |
| SudokuSearch.NoZerosBelow | fullstack-rust/intermediate/wasm/sudoku/src/lib.rs:58-66 | a board with no empty cell below a position records no hole there |
| SudokuSearch.CountZeros | fullstack-rust/intermediate/wasm/sudoku/src/lib.rs:57-64 | `hole_count` is the length of the recorded hole list |
| SudokuSearch.HoleValues | fullstack-rust/intermediate/wasm/sudoku/src/lib.rs:84-85 | the values a grid holds at the holes, in hole order |
| SudokuSearch.Progress | fullstack-rust/intermediate/wasm/sudoku/src/lib.rs:76-79 | the search position: hole values up to the cursor, then 10 |
| SudokuSearch.Pow11 | fullstack-rust/intermediate/wasm/sudoku/src/lib.rs:77-79 | the bound on the search rank is positive |
| SudokuSearch.ProgressDigits | fullstack-rust/intermediate/wasm/sudoku/src/lib.rs:76-79 | the search position is a word over 0..10 |
| SudokuSearch.RankBounds | fullstack-rust/intermediate/wasm/sudoku/src/lib.rs:77-79 | the rank of such a word lies in 0 .. 11^length |
| SudokuSearch.RankLex | fullstack-rust/intermediate/wasm/sudoku/src/lib.rs:77-79 | the rank is strictly monotone in lexicographic order, so the solve loop terminates |
| SudokuSearch.HolesAreHoleList | fullstack-rust/intermediate/wasm/sudoku/src/lib.rs:54-73 | the hole list of `new` is exactly the empty cells, strictly increasing |
| SudokuSearch.InitialState | fullstack-rust/intermediate/wasm/sudoku/src/lib.rs:54-76 | the fresh cells with the cursor at 0 satisfy the loop invariant |
| SudokuSearch.HolesDistinct | fullstack-rust/intermediate/wasm/sudoku/src/lib.rs:63 | two entries of the hole list are different cells |
| SudokuSearch.CandidateBlocked | fullstack-rust/intermediate/wasm/sudoku/src/lib.rs:87-90 | no completion that agrees before the cursor uses a digit the candidate scan skips |
| SudokuSearch.AdvanceConsistent | fullstack-rust/intermediate/wasm/sudoku/src/lib.rs:97-99 | placing a digit no peer holds keeps every guess different from its peers |
| SudokuSearch.CursorBound | fullstack-rust/intermediate/wasm/sudoku/src/lib.rs:87-90 | a completion that agrees before the cursor holds at least the next candidate at the cursor |
| SudokuSearch.AgreeingBound | fullstack-rust/intermediate/wasm/sudoku/src/lib.rs:87-90 | the same bound for one completion known to agree before the cursor |
| SudokuSearch.AdvanceComplete | fullstack-rust/intermediate/wasm/sudoku/src/lib.rs:97-99 | moving forward skips no completion |
| SudokuSearch.AdvanceStep | fullstack-rust/intermediate/wasm/sudoku/src/lib.rs:97-99 | a forward step keeps the loop invariant and raises the search position |
| SudokuSearch.RetreatComplete | fullstack-rust/intermediate/wasm/sudoku/src/lib.rs:91-96 | clearing an exhausted hole and moving back skips no completion |
| SudokuSearch.RetreatState | fullstack-rust/intermediate/wasm/sudoku/src/lib.rs:95-96 | emptying an exhausted hole and moving back keeps the search state |
| SudokuSearch.ClearConsistent | fullstack-rust/intermediate/wasm/sudoku/src/lib.rs:95 | emptying a cell keeps every guess different from its peers |
| SudokuSearch.ClearShape | fullstack-rust/intermediate/wasm/sudoku/src/lib.rs:95-96 | after emptying, holes before the new cursor hold digits, those after it are empty, and the clues are untouched |
| SudokuSearch.ClearRaises | fullstack-rust/intermediate/wasm/sudoku/src/lib.rs:95-96 | emptying the cursor's hole and moving back raises the search position |
| SudokuSearch.RetreatStep | fullstack-rust/intermediate/wasm/sudoku/src/lib.rs:91-96 | a backward step keeps the loop invariant and raises the search position |
| SudokuSearch.ExhaustedStep | fullstack-rust/intermediate/wasm/sudoku/src/lib.rs:91-93 | the first hole running out of digits means the board has no completion |
| SudokuSearch.FinishedDigits | fullstack-rust/intermediate/wasm/sudoku/src/lib.rs:77-80 | when the cursor passes the last hole, every cell holds a digit 1..9 |
| SudokuSearch.FinishedNoDuplicates | fullstack-rust/intermediate/wasm/sudoku/src/lib.rs:77-80 | then no row, column or box repeats a digit, given consistent clues |
| SudokuSearch.FinishedState | fullstack-rust/intermediate/wasm/sudoku/src/lib.rs:75-81 | the finished grid keeps the clues, and with consistent clues it is the first completion in hole order |
| SudokuSearch.CompletionNeedsConsistentClues | fullstack-rust/intermediate/wasm/sudoku/src/lib.rs:75-81 | a board whose clues clash has no completion |
| SudokuSearch.FirstDifference | fullstack-rust/intermediate/wasm/sudoku/src/lib.rs:133-144 | two different grids of one length first differ at some cell |
| SudokuSearch.LexFirstUnique | fullstack-rust/intermediate/wasm/sudoku/src/lib.rs:75-81 | at most one completion comes first, so the answer is determined by the board |
| SudokuSearch.Seen | fullstack-rust/intermediate/wasm/sudoku/src/lib.rs:120-128 | the values read by the first k reads of `get_valid` |
| SudokuSearch.InSeen | fullstack-rust/intermediate/wasm/sudoku/src/lib.rs:120-128 | a value was seen exactly when one of the first k reads returned it |
| SudokuSearch.SeenIsUsed | fullstack-rust/intermediate/wasm/sudoku/src/lib.rs:113-130 | a value is seen by all 27 reads exactly when a peer holds it |
| Sudoku.Cell.AsVal | fullstack-rust/intermediate/wasm/sudoku/src/lib.rs:39-44 | a fixed or guessed cell gives its digit, and a hole gives 0, which no in-range digit cell gives |
| Sudoku.Values | fullstack-rust/intermediate/wasm/sudoku/src/lib.rs:103-111 | the grid of a cell array is its cellwise values |
| Sudoku.ValuesUpdate | fullstack-rust/intermediate/wasm/sudoku/src/lib.rs:95-98 | writing one cell changes exactly that grid value |
| Sudoku.RankBelowBound | fullstack-rust/intermediate/wasm/sudoku/src/lib.rs:77-79 | the rank of a search state is bounded by 11^(number of holes) |
| Sudoku.StepAt | fullstack-rust/intermediate/wasm/sudoku/src/lib.rs:83-101 | one `update_hole` step moves the cursor forward or back by one |
| Sudoku.AdvanceCells | fullstack-rust/intermediate/wasm/sudoku/src/lib.rs:97-99 | a `Guess` step on the cells keeps the invariant and raises the rank |
| Sudoku.RetreatCells | fullstack-rust/intermediate/wasm/sudoku/src/lib.rs:91-96 | a `Hole` step on the cells keeps the invariant and raises the rank |
| Sudoku.StepKeepsSearch | fullstack-rust/intermediate/wasm/sudoku/src/lib.rs:83-101 | every successful step keeps the invariant and raises the rank |
| Sudoku.StepFails | fullstack-rust/intermediate/wasm/sudoku/src/lib.rs:91-93 | a failing step means the board has no completion |
| Sudoku.ScannedNext | fullstack-rust/intermediate/wasm/sudoku/src/lib.rs:60-65 | scanning one more position keeps the cells equal to the clues seen so far |
| Sudoku.ScanRow | fullstack-rust/intermediate/wasm/sudoku/src/lib.rs:59-66 | one row of the scan records that row's holes in order and fixes its clues |
| Sudoku.Scan | fullstack-rust/intermediate/wasm/sudoku/src/lib.rs:55-67 | every clue becomes `Fixed`, every empty cell a `Hole`, and the hole list is all empty cells in order |
| Sudoku.Cells.constructor | fullstack-rust/intermediate/wasm/sudoku/src/lib.rs:54-73 | the new cells hold the board, with the hole list and the count of its empty cells |
| Sudoku.Cells.GridInRange | fullstack-rust/intermediate/wasm/sudoku/src/lib.rs:47-51 | every cell value is 0..9 |
| Sudoku.Cells.UpdateHole | fullstack-rust/intermediate/wasm/sudoku/src/lib.rs:83-101 | places the next free digit and moves forward, or clears the hole and moves back, or fails at the first hole leaving the cells unchanged |
| Sudoku.Cells.SearchStep | fullstack-rust/intermediate/wasm/sudoku/src/lib.rs:78 | one round of the loop keeps the search state and raises its rank, or fails only when the board has no completion |
| Sudoku.Cells.Search | fullstack-rust/intermediate/wasm/sudoku/src/lib.rs:76-80 | the loop ends with the cursor past the last hole in a valid search state, or fails only when no completion exists; with no holes it succeeds without touching a cell |
| Sudoku.Cells.Solve | fullstack-rust/intermediate/wasm/sudoku/src/lib.rs:75-81 | `Ok` gives a grid of digits keeping every clue, and with consistent clues the first completion; `Err` means no completion exists; no holes gives `Ok` with the board unchanged |
| Sudoku.Cells.AsBoard | fullstack-rust/intermediate/wasm/sudoku/src/lib.rs:103-111 | the board built holds the value of every cell |
| Sudoku.Cells.GetValid | fullstack-rust/intermediate/wasm/sudoku/src/lib.rs:113-130 | flag v is set exactly when no peer holds v |
| Sudoku.Flags | fullstack-rust/intermediate/wasm/sudoku/src/lib.rs:114 | flag v is set exactly when v has not been seen |
| Sudoku.SeeNext | fullstack-rust/intermediate/wasm/sudoku/src/lib.rs:121-126 | each read clears the flag of the value it reads |
| Sudoku.SeeColumn | fullstack-rust/intermediate/wasm/sudoku/src/lib.rs:121 | the column read of round x clears the flag of the value read |
| Sudoku.SeeRow | fullstack-rust/intermediate/wasm/sudoku/src/lib.rs:122 | the row read of round x clears the flag of the value read |
| Sudoku.SeeBox | fullstack-rust/intermediate/wasm/sudoku/src/lib.rs:126 | the box read at (r, c) clears the flag of the value read |
| Sudoku.SolveBoard | fullstack-rust/intermediate/wasm/sudoku/src/lib.rs:23-27 | `Board::solve`: the same promises as `Cells::solve`, stated on the returned board |
| Sudoku.Equals | fullstack-rust/intermediate/wasm/sudoku/src/lib.rs:133-144 | two boards compare equal exactly when all 81 cells agree |
| Sudoku.ClashingFullBoard | fullstack-rust/intermediate/wasm/sudoku/src/lib.rs:23-27 | the board of 81 ones is well formed, has no holes, has clashing clues, is not solved and has no completion |
| Sudoku.SolveClashing | fullstack-rust/intermediate/wasm/sudoku/src/lib.rs:23-27 | `Board::solve` on the board of 81 ones returns `Ok` with that board, which has no completion |
| Sudoku.SolveChecked | fullstack-rust/intermediate/wasm/sudoku/src/lib.rs:23-27 | corrected `Board::solve`: `Ok` is always the first completion, and `Err` holds exactly when no completion exists |
| Params.RenderToken | fullstack-rust/intermediate/hurl-1/src/app.end.rs:231-235 | a token's text is empty only for an empty text run |
| Params.RenderAppend | fullstack-rust/intermediate/hurl-1/src/app.end.rs:228-244 | rendering distributes over concatenation of token lists |
| Params.GatherEscapes | fullstack-rust/intermediate/hurl-1/src/app.end.rs:160-196 | the loop produces exactly the token list of the lexer function |
| Params.RenderOne | fullstack-rust/intermediate/hurl-1/src/app.end.rs:231-235 | rendering a single token is that token's text |
| Params.RenderFlush | fullstack-rust/intermediate/hurl-1/src/app.end.rs:168-170 | flushing a run and rendering it returns the run |
| Params.RenderLex | fullstack-rust/intermediate/hurl-1/src/app.end.rs:165-195 | rendering the tokens lexed from a position returns the rest of the input |
| Params.GatherRenders | fullstack-rust/intermediate/hurl-1/src/app.end.rs:160-196 | rendering the gathered tokens returns the input unchanged |
| Params.WellTokensAppend | fullstack-rust/intermediate/hurl-1/src/app.end.rs:184-192 | well-formed lists stay well formed when joined where a text run at the join is followed by an escape and does not end in a backslash |
| Params.CleanRunPlain | fullstack-rust/intermediate/hurl-1/src/app.end.rs:174-176 | a text run holds no backslash followed by a special character |
| Params.LoneBackslashPlain | fullstack-rust/intermediate/hurl-1/src/app.end.rs:178-182 | a trailing lone backslash keeps the final run free of escapes |
| Params.LexWellTokens | fullstack-rust/intermediate/hurl-1/src/app.end.rs:165-195 | every text token is non-empty and escape-free, every escape is `\`, `=` or `:`, and a run other than the last is followed by an escape and does not end in a backslash |
| Params.GatherWellTokens | fullstack-rust/intermediate/hurl-1/src/app.end.rs:160-196 | the gathered tokens are well formed, so no escape pair is split across two runs and no two runs touch |
| Params.RenderHead | fullstack-rust/intermediate/hurl-1/src/app.end.rs:228-244 | a list renders as its first token followed by the rest |
| Params.RenderEmpty | fullstack-rust/intermediate/hurl-1/src/app.end.rs:160-196 | a well-formed list renders as nothing exactly when it is empty |
| Params.TextHead | fullstack-rust/intermediate/hurl-1/src/app.end.rs:168-192 | a list that starts with a run renders as that run, then nothing or the escape pair that ended it |
| Params.PlainPrefix | fullstack-rust/intermediate/hurl-1/src/app.end.rs:174-182 | a plain run, read on the text it heads, has no backslash that escapes the next character |
| Params.RunNotEscape | fullstack-rust/intermediate/hurl-1/src/app.end.rs:184-192 | text that begins with a run does not begin with `\\`, `\=` or `\:` |
| Params.RunUnique | fullstack-rust/intermediate/hurl-1/src/app.end.rs:168-192 | at most one run heads a text |
| Params.HeadsAgree | fullstack-rust/intermediate/hurl-1/src/app.end.rs:160-196 | two well-formed lists with the same text start with the same token |
| Params.WellTokensTail | fullstack-rust/intermediate/hurl-1/src/app.end.rs:160-196 | dropping the first token keeps a list well formed |
| Params.RenderTail | fullstack-rust/intermediate/hurl-1/src/app.end.rs:228-244 | the tokens after the first render as the text after that token |
| Params.WellTokensUnique | fullstack-rust/intermediate/hurl-1/src/app.end.rs:160-196 | two well-formed lists with the same text are equal |
| Params.GatherUnique | fullstack-rust/intermediate/hurl-1/src/app.end.rs:160-196 | any well-formed list that renders as the input is the scanner's: every `\\`, `\=` and `\:` becomes an escape |
| Params.GatherSpecial | fullstack-rust/intermediate/hurl-1/src/app.end.rs:184-192 | a backslash before `\`, `=` or `:` is scanned as an escape of that character |
| Params.Parameter.IsData | fullstack-rust/intermediate/hurl-1/src/app.end.rs:128-133 | true exactly for a `Data` parameter |
| Params.SeparatorFrom | fullstack-rust/intermediate/hurl-1/src/app.end.rs:145-151 | succeeds exactly on ":" and "=", giving the separator with that symbol |
| Params.SeparatorRoundTrip | fullstack-rust/intermediate/hurl-1/src/app.end.rs:145-151 | converting a separator's symbol gives the separator back |
| Params.Find | fullstack-rust/intermediate/hurl-1/src/app.end.rs:208 | `str::find`: no index exactly when the character is absent, otherwise its first index |
| Params.FirstSeparator | fullstack-rust/intermediate/hurl-1/src/app.end.rs:223-224 | the least index in a run holding `=` or `:` |
| Params.FirstSepToken | fullstack-rust/intermediate/hurl-1/src/app.end.rs:204-219 | no index exactly when no text token holds a separator, otherwise the first such token |
| Params.FoundIn | fullstack-rust/intermediate/hurl-1/src/app.end.rs:207-211 | each entry found is the first occurrence of its separator; none found exactly when the run has no separator |
| Params.SortByPosition | fullstack-rust/intermediate/hurl-1/src/app.end.rs:223 | the sort gives a permutation ordered by position |
| Params.FindFirst | fullstack-rust/intermediate/hurl-1/src/app.end.rs:208 | `find` returns the first index holding the character |
| Params.SortedHead | fullstack-rust/intermediate/hurl-1/src/app.end.rs:223-224 | the entry with the least position heads the sorted list |
| Params.FoundHead | fullstack-rust/intermediate/hurl-1/src/app.end.rs:204-224 | the chosen separator is the earliest separator of the run |
| Params.SplitOnce | fullstack-rust/intermediate/hurl-1/src/app.end.rs:247-249 | `splitn(2, sep)`: two parts joined by the separator, the first free of it, or the whole run when it is absent |
| Params.SplitParam | fullstack-rust/intermediate/hurl-1/src/app.end.rs:198-266 | fails with "missing separator" exactly when no text token holds a separator |
| Params.ParamRoundTrip | fullstack-rust/intermediate/hurl-1/src/app.end.rs:226-265 | key, separator and value joined give back the input |
| Params.WellTokensTake | fullstack-rust/intermediate/hurl-1/src/app.end.rs:160-196 | the first tokens of a well-formed list form a well-formed list |
| Params.PlainTake | fullstack-rust/intermediate/hurl-1/src/app.end.rs:174-182 | the start of a run in which no backslash escapes the next character has no such backslash either |
| Params.KeyTokens | fullstack-rust/intermediate/hurl-1/src/app.end.rs:202-251 | the key, scanned again, is the tokens before the separator run followed by that run's text before the separator |
| Params.KeyUnescaped | fullstack-rust/intermediate/hurl-1/src/app.end.rs:202-251 | the chosen separator is the earliest unescaped one, so the key holds no unescaped `=` or `:` |
| Params.FindSeparatorToken | fullstack-rust/intermediate/hurl-1/src/app.end.rs:202-219 | finds nothing exactly when no text token holds a separator, otherwise the first such token and its separators |
| Params.PushToken | fullstack-rust/intermediate/hurl-1/src/app.end.rs:230-243 | appending a token appends its text, an escape as backslash plus character |
| Params.JoinBefore | fullstack-rust/intermediate/hurl-1/src/app.end.rs:229-236 | a token before the separator token extends the key by its text |
| Params.JoinAt | fullstack-rust/intermediate/hurl-1/src/app.end.rs:245-251 | at the separator token the key takes the part before the separator and the value the part after |
| Params.JoinAfter | fullstack-rust/intermediate/hurl-1/src/app.end.rs:237-244 | a token after the separator token extends the value by its text |
| Params.JoinAround | fullstack-rust/intermediate/hurl-1/src/app.end.rs:226-256 | the key is the tokens before the run plus the part before the separator; the value is the rest |
| Params.SplitAtFirst | fullstack-rust/intermediate/hurl-1/src/app.end.rs:247-249 | splitting at the first occurrence gives the text before and after it |
| Params.ParseParam | fullstack-rust/intermediate/hurl-1/src/app.end.rs:198-266 | the imperative parse returns exactly `SplitParam`: `=` gives `Data`, `:` gives `Header` |
| Params.Method.Data | fullstack-rust/intermediate/hurl-1/src/app.end.rs:83-93 | the data is the payload of whichever verb the method is |
| Params.App.Validate | fullstack-rust/intermediate/hurl-1/src/app.end.rs:63-68 | fails exactly when neither a subcommand nor a URL is given |

## Left out

- The WebAssembly entry point `solve()` and the `static mut BOARD` (lib.rs 3-12) are
  left out because they are foreign-function glue around `Cells::new` and `Cells::solve`.
  Those two are modelled.
- The `Debug` printer of `Board` (lib.rs 146-156) is left out because it only
  writes text.
- Digits are unbounded integers, and the model asks for a board of 0..9
  (`requires WellFormed`). The source stores `u8`. A clue above 9 panics only
  when `get_valid` reads it, that is, when a hole the search visits has it in
  its row, column or box (lib.rs 120-128). Otherwise the clue comes back inside
  an `Ok` board, as it does for a board without holes (lib.rs 23-27, 103-111).
  `requires WellFormed` leaves out both outcomes.
- The unit tests (lib.rs 158-217) and their fixed boards are not restated as
  lemmas. The general contracts of `Solve` cover what the first two check, but
  the concrete boards are not evaluated.
- `Cells::new`'s row loop is split into a helper method (`ScanRow`), `Cells::solve`'s
  loop into `Search` and its body into `SearchStep`, and
  `parse_param`'s two loops into `FindSeparatorToken` and `JoinAround`. This
  keeps each proof small; the statements and their order are unchanged.
- `From<&Method> for reqwest::Method` (app.end.rs 96-107) is a mapping into a
  foreign HTTP library and is not modelled. The verb is the `Method` constructor.
- The command-line attributes of `App`, `Method` and `MethodData`, and parsing
  of the argument vector, are left out because they are library macros. The
  `PathBuf` fields of `App` become strings.
- Params.GatherEscapes: treats each character as one position. The source counts
  characters in `end` but slices the string by byte offset. Non-ASCII input
  therefore cuts or panics in the source, and the model does not capture that.
- Params.SortByPosition: sorts at most two entries, as many as the source can
  find (one per separator). The ties it breaks by separator length cannot occur
  because two separators never share a position.
- `main.end.rs` and the HTTP client that use `validate`, `is_data` and
  `Method::data` to build requests are not part of this model; they perform I/O.
- `str::find`, `splitn` and `Vec::sort_by` are modelled as functions with their
  documented meaning, not as their library code.

## Findings

| source | as written | input that shows it | evidently intended | confidence | as-written member | corrected member |
|---|---|---|---|---|---|---|
| fullstack-rust/intermediate/wasm/sudoku/src/lib.rs:23-27 | `Board::solve` checks only the holes it fills, so a board without holes comes back `Ok` unchanged even when its clues repeat a digit | the board of 81 ones | `Ok` only for a solved board; `Err` when the clues already clash | not executed | Sudoku.SolveClashing | Sudoku.SolveChecked |
