# Spreadsheet evaluation core in Dafny

This project models the evaluation core of the `Spreadsheet` class in `Spreadsheet.cpp`. That core is:

- reading cells row by row;
- recording which cells hold formulas and which cells those formulas mention;
- sorting the formula cells topologically with a depth-first search that detects cycles;
- substituting the values of the referenced cells into each formula;
- evaluating the resulting postfix expressions (`+ - * /` over `int`).

The model covers the cell-address codec too: a column index becomes bijective base-26 letters (`coord_to_col`), and letters become a number by plain base-26 (`col_to_coord`).

Modules, one per file:

| file | module | contents |
|---|---|---|
| `wrappers.dfy` | `Wrappers` | `Option` |
| `text.dfy` | `Text` | character classes; whitespace tokenising as `operator>>` does it; the `" " + token` joining of `resolve_references`; `std::stoi` and `std::to_string` on unbounded integers |
| `address.dfy` | `Address` | `coord_to_col`, `col_to_coord`, `coords_to_address`, `address_to_coords`, `is_letter_number_format` |
| `cells.dfy` | `Cells` | `CellValue` (an `int`, `Empty` or `Error`), `is_empty`, `is_error`, and the grid |
| `postfix.dfy` | `Postfix` | the postfix evaluator as a specification (`Step`, `Run`, `Evaluate`); the evaluating loop as a method proved against it; an expression-tree partner |
| `graph.dfy` | `Graph` | the dependency map; the depth-first search as functions (`Visit`, `VisitFrom`, `SortFrom`); the cycle theorem |
| `resolve.dfy` | `Resolve` | reference substitution as functions; the resolve loop as a fold; the consistency theorem |
| `parse.dfy` | `Parse` | `parse_tokens` and the loops of `parse_input` as functions over the map and the grid |
| `sheet.dfy` | `Sheet` | `class Spreadsheet` with the source's fields; every member that changes them is a method proved against the functions above |

Each method of the class is proved against a specification function. Its `ensures` ties the new fields to that function applied to the old ones. The properties are then proved about the functions:

- **Cycle theorem.** The sort reports a cycle, that is, some top-level call of `topological_dfs_helper` returns `true`, exactly when the dependency graph has a cycle. This holds whatever order the `unordered_map` iterates in (`Graph.SortReportsExactlyCycles`).
- **Topological order.** Without a cycle, the sort lists every key once, every cell before each cell that reads it, and writes no error mark (`Graph.AcyclicSortIsTopological`).
- **Consistency.** Suppose the graph is acyclic and no two keys name the same cell. Then after `resolve_dependencies`, the cell that each formula's address decodes to holds the postfix value of its formula, with the final values of the cells it mentions substituted in (`Resolve.AcyclicSheetIsConsistent`). That decoded cell is the formula's own cell only for columns below 26.
- **Class invariant.** `Spreadsheet.Valid` holds throughout:
  - every key of the dependency map has the address format;
  - every downstream entry is a key;
  - each address a formula mentions lists that formula's cell downstream;
  - no cell holds `Empty`.

Where the code and the header comment or design intent differ, the model follows the code:

- **Operand order.** `calculate_postfix` pops `op1` (the top) and then `op2`, and computes `op1 OP op2`. So `"3 4 -"` is `1` and `"2 10 /"` is `5`. The zero check is on `op2`. Division truncates toward zero, which is C++ `/` (`Postfix.TruncDiv`).
- **Column letters.** `col_to_coord` is not the inverse of `coord_to_col` beyond column `Z`: `coord_to_col(26)` is `"AA"`, which reads back as `0`. `Address.ColRoundTrip` proves that the round trip works exactly for columns below 26. Formulas naming columns past `Z` therefore read the wrong cell. A formula that sits in a column past `Z` is keyed by an address such as `AB3`, which decodes to `(1, 3)`. Its value goes to the column that `col_to_coord` reads from the letters. That column lies left of the formula's own column, so the write can land on a value already there. The formula's own cell is written only if some other key decodes to it. For example, column 78 is written `CA`, which reads back as 52; column 52 is written `BA`, which reads back as 26. So the formula in column 78 writes the cell of the formula in column 52, which in turn writes column 26 (`Address.ColumnAliasExample`). The model keeps all of this.
- **Leading zeros and case.** The address pattern `[A-Za-z]+[0-9]+` accepts lower case and leading zeros, so `A1` and `A01` are different keys for the same cell. The consistency theorem therefore assumes `Resolve.CellsDistinct`.
- **Cycle marking.** When a cycle is reported, `topological_sort_dependencies` marks every address collected so far as an error, not only the cells on the cycle. The later resolve pass can then overwrite those marks, because it re-evaluates each formula cell with a non-empty formula. The model keeps both behaviours: `Graph.MarkErrors` and `Resolve.ResolveAll`.
- **Trailing characters.** `std::stoi` accepts trailing junk after a leading number, so `"3x"` evaluates to `3` (`Postfix.TrailingJunkExample`).

## Model

| member | source | states |
|---|---|---|
| Sheet.Spreadsheet.constructor | Spreadsheet.cpp:43-55 | a new sheet has no cells, no dependencies, sizes 0, and satisfies the class invariant |
| Sheet.Spreadsheet.Clear | Spreadsheet.cpp:30-36 | clearing empties both maps, resets both sizes to 0 and re-establishes the invariant |
| Sheet.Spreadsheet.ParseInput | Spreadsheet.cpp:77-97 | after the row and column loops, `max_col` is the largest of its old value and every row's last column index, `max_row` is the last row index, and the map and grid are the result of sorting and resolving the parsed state for some iteration order of the keys |
| Sheet.Spreadsheet.KeyOrder | Spreadsheet.cpp:279 | the iteration of the dependency map visits every key exactly once |
| Parse.MaxCol | Spreadsheet.cpp:92 | `max_col` ends at least its old value and at least every row's last column index, and equal to one of those |
| Sheet.Spreadsheet.ParseTokens | Spreadsheet.cpp:138-168 | the map and grid become `ParseCell` of the old ones (register a formula, or evaluate plain content into the cell), keeping the class invariant |
| Parse.ParseCell | Spreadsheet.cpp:138-168 | content with a letter is stored as the formula of the cell's address, with the grid untouched; other content leaves the map untouched and puts its postfix value, never `Empty`, into the cell; no key and no cell is removed |
| Parse.ParseCellFrame | Spreadsheet.cpp:164-167 | content without a letter writes no cell but its own |
| Parse.Register | Spreadsheet.cpp:142-161 | registering keeps every key and stores the formula under the cell's address |
| Parse.AddEdge | Spreadsheet.cpp:159 | `dependencies[token].second.push_back(address)`: the token becomes a key (with an empty formula if it was new) and its downstream list gains `address` at the end |
| Parse.AddEdgesKeys | Spreadsheet.cpp:155-161 | the token loop adds exactly the address tokens as keys |
| Parse.AddEdgesFormulas | Spreadsheet.cpp:155-161 | the token loop changes no formula, and the keys it adds get an empty one |
| Parse.AddEdgesDownstream | Spreadsheet.cpp:155-161 | the token loop appends the cell address to each key's downstream list once per occurrence of that key as a token |
| Parse.ParseCells | Spreadsheet.cpp:88-91 | the column loop removes no key and no cell |
| Parse.ParseRows | Spreadsheet.cpp:84-94 | the row loop removes no key and no cell |
| Parse.ParseCellsPlaces | Spreadsheet.cpp:88-91 | after the column loop, the text of each column is accounted for: a formula has an entry under its cell's address, plain content a cell |
| Parse.ParseRowsPlaces | Spreadsheet.cpp:84-94 | after the row loop, the text in column `j` of row `q` is accounted for at `(j, q)` in the same way |
| Parse.RegisterEffect | Spreadsheet.cpp:142-161 | registering a formula adds exactly the cell address and the address tokens as keys, stores the formula, keeps every other formula (new keys get `""`), and appends the cell address to each key's downstream list once per mention |
| Parse.RegisterKeepsWellFormed | Spreadsheet.cpp:142-161 | registering keeps every key in the address format and every downstream entry a key |
| Parse.RegisterKeepsEdgesCover | Spreadsheet.cpp:154-161 | after registering, every address a formula mentions lists that formula's cell downstream |
| Parse.ParseRowsKeepInvariant | Spreadsheet.cpp:84-94 | parsing all rows keeps the map well formed, the mention edges covered and the grid free of `Empty` |
| Text.ContainsLetter | Spreadsheet.cpp:350-358 | true exactly when some character is a letter |
| Sheet.Spreadsheet.CalculatePostfix | Spreadsheet.cpp:170-224 | the cell at the coordinates becomes the postfix value of the expression and nothing else changes |
| Postfix.EvaluatePostfix | Spreadsheet.cpp:173-223 | the token loop with its early exits computes exactly `PostfixValue` of the expression |
| Postfix.Step | Spreadsheet.cpp:178-219 | one token fails exactly when an operator finds fewer than two operands, a division finds `op2 == 0`, or an operand fails `stoi`; otherwise an operator replaces the top two values `op2, op1` by `op1 OP op2`, and an operand pushes its `stoi` value |
| Postfix.Apply | Spreadsheet.cpp:192-207 | an operator fails exactly on a division by a zero `op2`; a division yields the quotient truncated toward zero |
| Postfix.TruncDiv | Spreadsheet.cpp:201-207 | the quotient leaves a remainder smaller than the divisor in magnitude, with the dividend's sign (truncation toward zero) |
| Postfix.Evaluate | Spreadsheet.cpp:221-223 | evaluation never produces `Empty`, and an integer result means the operand count exceeds the operator count by exactly 1 |
| Postfix.PostfixValue | Spreadsheet.cpp:173-223 | the value of an expression is never `Empty`; an integer value means its tokens are balanced (one more operand than operators); an expression with no tokens is `Error` |
| Postfix.UnbalancedIsError | Spreadsheet.cpp:221-223 | a token sequence whose operand count minus operator count is not 1 evaluates to `Error` |
| Postfix.Run | Spreadsheet.cpp:177-220 | a run that does not fail leaves a stack whose height changes by the operand-minus-operator balance |
| Postfix.RunAppend | Spreadsheet.cpp:177-220 | running two token sequences one after the other is running their concatenation |
| Postfix.EvaluateEmit | Spreadsheet.cpp:170-224 | an expression tree written out with its right operand first (so that `op1`, popped first, is its left operand) evaluates to the tree's value `left OP right`, or `Error` when some divisor is 0 |
| Postfix.SubtractionOrderExample | Spreadsheet.cpp:185-196 | `"3 4 -"` evaluates to 1 (`op1` is the top of the stack) |
| Postfix.DivisionOrderExample | Spreadsheet.cpp:201-207 | `2 10 /` evaluates to 5 |
| Postfix.ZeroDivisorExample | Spreadsheet.cpp:202-205 | `0 5 /` is an error because `op2` is 0 |
| Postfix.TruncationExample | Spreadsheet.cpp:206 | `2 -7 /` is -3 (truncation, not flooring) |
| Postfix.MalformedExamples | Spreadsheet.cpp:179-223 | missing operands, a leftover operand and an empty expression are errors |
| Postfix.TrailingJunkExample | Spreadsheet.cpp:211-213 | the operand `3x` is read as 3 |
| Postfix.ErrorMarkerIsError | Spreadsheet.cpp:257-263 | the `#ERR` text a failed substitution leaves evaluates to `Error` |
| Text.Tokens | Spreadsheet.cpp:155-157 | the `iss >> token` loop yields only non-empty tokens without whitespace |
| Text.IntToString | Spreadsheet.cpp:252-254 | `std::to_string` gives a non-empty word of digits, starting with `-` exactly when the value is negative |
| Text.Stoi | Spreadsheet.cpp:211-218 | a token has a value exactly when, after an optional sign, it starts with a digit |
| Text.StoiOfIntToString | Spreadsheet.cpp:252-254 | `stoi` reads back the value `to_string` wrote |
| Text.TokensOfJoin | Spreadsheet.cpp:252-267 | tokenising the `" " + piece` concatenation of words gives back those words |
| Sheet.Spreadsheet.ResolveReferences | Spreadsheet.cpp:240-271 | the cell's formula becomes `ResolveFormula` of its old formula over the grid and nothing else changes |
| Sheet.Spreadsheet.SubstituteReferences | Spreadsheet.cpp:243-269 | the token loop, with its early exits on `#ERR`, computes exactly the resolved formula `ResolveFormula` over the current grid |
| Resolve.Piece | Spreadsheet.cpp:247-268 | a non-address token is kept; an address token gets a piece exactly when its decoded cell exists and holds an integer, and that piece reads back through `stoi` as the integer |
| Resolve.ResolveFormula | Spreadsheet.cpp:240-270 | the resolved formula is `#ERR` exactly when some address token names a missing or non-integer cell |
| Sheet.Spreadsheet.TokenPiece | Spreadsheet.cpp:247-268 | one turn of the token loop computes the token's piece, `None` exactly where the loop gives up with `#ERR` |
| Resolve.Substitute | Spreadsheet.cpp:246-269 | substitution succeeds exactly when every token has a piece, and then yields each token's piece in order |
| Resolve.SubstituteFails | Spreadsheet.cpp:256-264 | a token that is an undefined or non-integer cell turns the whole formula into `#ERR` |
| Resolve.SubstituteSucceeds | Spreadsheet.cpp:246-270 | when every token has a piece, the resolved formula is the `" "`-joined pieces |
| Resolve.ResolvedHasNoAddresses | Spreadsheet.cpp:240-271 | no token of a resolved formula is an address |
| Resolve.ResolveWithoutAddresses | Spreadsheet.cpp:266-268 | a formula with no address token resolves to the same tokens |
| Resolve.ResolvedValue | Spreadsheet.cpp:247-255 | the resolved formula evaluates to `Error` when some address is undefined or not an integer, and otherwise to the evaluation of the tokens with each address replaced by its cell's integer |
| Resolve.ResolveFormulaFrame | Spreadsheet.cpp:247-255 | the resolved formula depends only on the cells the formula mentions |
| Resolve.ResolveOne | Spreadsheet.cpp:231-237 | one step of the resolve loop rewrites only that cell's formula and writes only that cell: the postfix value when the resolved formula is non-empty |
| Resolve.WriteFormula | Spreadsheet.cpp:270 | storing the resolved formula changes only that key's formula and keeps every key and downstream list |
| Resolve.WriteValue | Spreadsheet.cpp:233-236 | an empty formula writes nothing; otherwise only the decoded cell changes, to the postfix value, and no cell becomes `Empty` |
| Resolve.ResolveAll | Spreadsheet.cpp:226-238 | the resolve loop keeps the keys, the downstream lists, the formulas of unsorted keys and the absence of `Empty` cells |
| Resolve.ResolveAllWrites | Spreadsheet.cpp:231-237 | after the loop each sorted cell with a non-empty final formula holds that formula's postfix value |
| Resolve.ResolveAllUpstreamFirst | Spreadsheet.cpp:226-238 | when every referenced cell is resolved before its readers, each formula is resolved against the final values of the cells it mentions |
| Resolve.ForwardEdgesUpstreamFirst | Spreadsheet.cpp:50-55 | a listing of all keys in which each downstream cell comes later puts every mentioned cell before its readers |
| Resolve.AcyclicSheetIsConsistent | Spreadsheet.cpp:226-238 | without a cycle, and with no two keys naming the same cell, the cell each formula's address decodes to ends holding the postfix value of its formula resolved against the final grid; that is the formula's own cell only for columns below 26 |
| Sheet.Spreadsheet.ResolveDependencies | Spreadsheet.cpp:226-238 | the map and grid become the resolve fold over the sort's list, applied to the sorted state |
| Sheet.Spreadsheet.ResolveSorted | Spreadsheet.cpp:231-237 | the loop over the sorted list leaves the map and grid equal to the `ResolveAll` fold and keeps the class invariant |
| Sheet.Spreadsheet.ResolveCell | Spreadsheet.cpp:232-236 | one turn of the loop leaves the map and grid equal to `ResolveOne` of the old ones |
| Sheet.Spreadsheet.TopologicalSortDependencies | Spreadsheet.cpp:274-290 | the returned list and the new grid are those of the sort specification, for the given iteration order |
| Sheet.Spreadsheet.MarkErrorCells | Spreadsheet.cpp:283-286 | every listed address's cell becomes `Error`, other cells keep their values |
| Graph.MarkErrors | Spreadsheet.cpp:283-286 | marking removes no cell |
| Graph.MarkErrorsEffect | Spreadsheet.cpp:283-286 | after marking, each listed cell is `Error`, every other cell keeps its value, and no cell disappears |
| Sheet.Spreadsheet.VisitKey | Spreadsheet.cpp:281-287 | one turn of the key loop: the search state becomes that of the `Visit` specification, and the grid is marked with the result list exactly when the visit reports a cycle |
| Graph.TopologicalSort | Spreadsheet.cpp:274-290 | the returned list holds only keys of the dependency map |
| Graph.SortFrom | Spreadsheet.cpp:279-288 | the sort only keeps cells or turns them into `Error`, and leaves the grid unchanged when no cycle is reported |
| Graph.SortListsEveryKeyOnce | Spreadsheet.cpp:274-290 | the returned list holds every key exactly once |
| Graph.ReportMarksResult | Spreadsheet.cpp:281-287 | a top-level call that reports a cycle marks every address listed so far as an error |
| Graph.SortReportsExactlyCycles | Spreadsheet.cpp:274-313 | a cycle is reported exactly when the dependency graph has one, for every iteration order |
| Graph.AcyclicSortIsTopological | Spreadsheet.cpp:274-313 | without a cycle, the grid is unchanged and the list holds every key once with every downstream cell after the cell it depends on |
| Sheet.Spreadsheet.TopologicalDfsHelper | Spreadsheet.cpp:293-313 | the outcome and the new marked set, recursion stack and result are those of the `Visit` specification |
| Graph.Visit | Spreadsheet.cpp:293-313 | a visit marks its start address, only ever adds to the marked set, and marks and lists only keys |
| Graph.VisitFrom | Spreadsheet.cpp:300-309 | the downstream loop only adds keys to the marked set, lists only keys, and once `has_cycle` is set the helper returns true |
| Graph.VisitRecordsMarked | Spreadsheet.cpp:297-312 | a visit prepends each newly marked key exactly once and nothing else |
| Graph.VisitQuiet | Spreadsheet.cpp:297-312 | a visit that reports no cycle empties its entries from the recursion stack and leaves the result closed under downstream edges |
| Graph.VisitAcyclic | Spreadsheet.cpp:300-305 | on an acyclic graph, the back-edge test never fires |
| Graph.BackEdgeMakesCycle | Spreadsheet.cpp:301-304 | an edge into the recursion stack closes a cycle |
| Graph.TopoOrderAcyclic | Spreadsheet.cpp:302-310 | a listing of all keys closed under downstream edges rules out every cycle |
| Address.CoordToCol | Spreadsheet.cpp:315-325 | a non-negative column gives a non-empty string of capital letters, a negative one the empty string |
| Address.ColumnNumberOfCoordToCol | Spreadsheet.cpp:315-325 | `coord_to_col(n)` is the bijective base-26 numeral of `n + 1` |
| Address.CoordToColInjective | Spreadsheet.cpp:315-325 | different columns get different letters |
| Address.ColToCoord | Spreadsheet.cpp:327-334 | `col_to_coord` falls short of the bijective base-26 reading by 1 + 26 + ... + 26^(k-1) on a `k`-letter column, and is non-negative on capital letters |
| Address.ColRoundTrip | Spreadsheet.cpp:315-334 | `col_to_coord(coord_to_col(n)) == n` exactly when `n < 26` |
| Address.ColumnAliasExample | Spreadsheet.cpp:315-334 | column 78 is `CA`, read back as 52, and column 52 is `BA`, read back as 26 |
| Address.ColRoundTripFailsAt26 | Spreadsheet.cpp:315-334 | column 26 is written `AA`, which reads back as 0 |
| Address.CoordsToAddress | Spreadsheet.cpp:336-339 | for non-negative coordinates the address has the address format, its letters are `coord_to_col` of the column and its digits are the decimal row |
| Address.AddressToCoords | Spreadsheet.cpp:341-348 | the column is `col_to_coord` of the leading letters and the row is the non-negative value of the digits after them |
| Address.AddressRoundTrip | Spreadsheet.cpp:336-348 | an address written from coordinates has the address format, reads back its row, and reads back its column exactly when the column is below 26 |
| Address.LeadingZeroAddress | Spreadsheet.cpp:341-348 | `A01` and `A1` are both addresses of cell (0, 1) |
| Address.IsLetterNumberFormat | Spreadsheet.cpp:360-364 | true exactly when the string is a non-empty run of letters followed by a non-empty run of digits |
| Cells.CellValue.IsEmpty | Spreadsheet.cpp:366-370 | true exactly for the `Empty` state: neither an integer nor `Error` |
| Cells.CellValue.IsError | Spreadsheet.cpp:371-375 | true exactly for the `Error` state: neither an integer nor `Empty` |
| Address.LetterNumberFormatSplit | Spreadsheet.cpp:360-364 | a string has the address format with `k` leading letters exactly when its first `k` characters are letters and the rest are at least one digit |

## Left out

- Reading the file is left out. `std::ifstream` and `getline` on lines and commas are outside the model: `ParseInput` takes the rows already split into cells.
- Printing is left out: `print_output`, `print_dependencies` and the program's `main`. They are output only.
- The regular-expression engine is not modelled. `is_letter_number_format` is stated directly as "one or more ASCII letters followed by one or more digits".
- The iteration order of `unordered_map` is implementation-defined. It is the `order` parameter, any order listing every key once, and every theorem holds for all such orders.
- Postfix.Apply: `int` overflow in `+ - * /` and `stoi`'s `out_of_range` are not modelled, because values are unbounded integers.
- Address.ColToCoord: `result * 26 + (ch - 'A')` (Spreadsheet.cpp:331) overflows a 32-bit `int` on columns of seven or more letters. The model's result is unbounded, so it does not wrap.
- `isspace` and `isalpha` are taken in the "C" locale.
- `cells[col]` in `resolve_references` creates empty inner maps as a side effect. This is not modelled: the model flattens the grid to one map keyed by `(column, row)`, and an empty inner map holds no cell.
- Sheet.Spreadsheet.TopologicalDfsHelper takes the marked set, the recursion stack and the result by value and returns the updated ones, instead of updating them through references.
- The tokenising loop (`istringstream >> token`) is the function `Text.Tokens`, not a loop of its own.
- Address.AddressToCoords requires an address in the address format. `stoi` would throw otherwise, and every call in the source passes such an address.
- Resolve.AcyclicSheetIsConsistent assumes no two keys name the same cell (`A1` and `A01`). So do Resolve.ResolveAllWrites and Resolve.ResolveAllUpstreamFirst. Aliased keys would let one formula's write overwrite another's.
- Sheet.Spreadsheet.KeyOrder picks keys with an arbitrary choice. That stands for the hash order, which the model does not determine.
