# Multi-colour nonogram SAT solver, modelled in Dafny

The modelled program solves multi-colour nonograms by reduction to SAT. It has three parts:

- A parser reads a puzzle file. The file holds a `rect <height> <width>` header, a palette line, then one clue line per row and per column. A clue line has tokens such as `2a 1b`.
- An encoder turns the clues into CNF over three kinds of variable:
  - one variable per (cell, paintable colour);
  - one variable per feasible start position of every block;
  - a map from every variable id to its meaning.
- A decoder maps a satisfying assignment back to a grid of `'-'` and colour letters.

The project covers all three parts. It proves what the formula holds clause family by clause family, and what that means for a model of the formula. It also proves that the parser reads back the file it would be given.

Modules, in dependency order:

- `Wrappers`: `Option` and `Result`.
- `Puzzle`: `Block`, `Clue`, the `Nonogram` record, and `Dim(n)`, the length of Python's `range(n)`.
- `Text`: Python's `strip()`, `split()`, ASCII `isdigit()`, `str(n)` and `int()` on strings.
- `Parser`: `parse_clue` and `Nonogram.parse_file` from the line stripping on. The latter returns a `Result` whose failures are the `IndexError`/`ValueError` Python raises, except the digit-count `ValueError` listed under Left out.
- `Cnf`: literals, clauses, models, and the pairwise at-most-one family.
- `Encoding`: the clauses of one line (a row or a column), defined once for both axes by a `Line` value. They come as families: exactly-one start per block, cell/block linkage, ordering with a gap, and empty lines forced to background.
- `Layout` and `LayoutIds`: the id layout. Cell variables come first, then the start variables of each row, then those of each column. These modules also give the meaning recorded for each id, and the whole formula `EncodedClauses`.
- `SatEncoding`: the class `SatEncoder`, whose fields `varCounter`, `varMapping` and `cnf` are updated in place. Each method is proved to append exactly its part of `EncodedClauses`.
- `LineFacts`, `LineSemantics`, `EncodingFacts`: membership, counts and ranges of the clause families, and what a model of them implies. For example, the chosen starts are strictly increasing with a gap cell, and no cell takes two colours.
- `Solver`: `extract_solution` as a loop over the model, with Python's list indexing. This module also proves what each decoded cell means for a model of the encoder's formula.
- `UncoveredCells`: the one place where the encoder's formula is weaker than the puzzle (see Findings). It gives a 1x3 puzzle whose formula as written has a model that decodes to a wrong grid. It also defines the corrected linkage family and proves that, with it, every cell of every line decodes to its blocks.

## Model

| member | source | states |
|---|---|---|
| SatEncoding.SatEncoder.constructor | src/sat_encoder.py:4-8 | the counter starts at 1, the mapping and the clause list start empty |
| SatEncoding.SatEncoder.GetFreshVar | src/sat_encoder.py:10-14 | returns the current counter and advances it by exactly one, changing nothing else |
| SatEncoding.SatEncoder.EncodeBlockStart | src/sat_encoder.py:35-90 | after the reset, the returned clauses and mapping are the object's final `cnf` and `varMapping`; `cnf` is exactly `EncodedClauses` (exclusion, then rows, then columns); the counter ends at 1 + the number of variables; the mapping's keys are exactly 1..counter-1, each recorded under the meaning whose id it is |
| SatEncoding.SatEncoder.CreateCellVars | src/sat_encoder.py:40-46 | issues one id per (row, column, paintable colour) in row-major order with colour fastest; records each as a cell in the mapping and in the local cell table |
| SatEncoding.SatEncoder.CreateColorVars | src/sat_encoder.py:43-46 | the colour loop of one cell issues K consecutive ids and records each under its cell and letter |
| SatEncoding.CellsComplete | src/sat_encoder.py:40-46 | once every cell's ids are issued, the cell table holds exactly the closed-form id of every (r, c, colour) |
| SatEncoding.SatEncoder.CollectColorVars | src/sat_encoder.py:51-54 | the list `colors` of a cell is its colour variables in palette order |
| SatEncoding.SatEncoder.AppendAtMostOne | src/sat_encoder.py:57-59 | the double loop over i < j appends exactly the pairwise clauses [-x_i, -x_j] in loop order |
| SatEncoding.SatEncoder.EncodeRowExclusion | src/sat_encoder.py:50-59 | appends the at-most-one clauses of the cells of one row, left to right |
| SatEncoding.SatEncoder.EncodeCellExclusion | src/sat_encoder.py:49-59 | appends the at-most-one clauses of every cell, row by row |
| SatEncoding.SatEncoder.EncodeRows | src/sat_encoder.py:62-64 | appends the clauses of every row in order; the counter goes from the first row base to the first column base |
| SatEncoding.RowsStep | src/sat_encoder.py:62-64 | one more row adds that row's clauses to the formula built so far |
| SatEncoding.SatEncoder.EncodeColumns | src/sat_encoder.py:67-69 | appends the clauses of every column in order, after all rows |
| SatEncoding.ColsStep | src/sat_encoder.py:67-69 | one more column adds that column's clauses to the formula built so far |
| SatEncoding.SatEncoder.EncodeRowBlockStart | src/sat_encoder.py:92-160 | appends exactly the clauses of row `row` and issues exactly its start variables, keeping the mapping complete |
| SatEncoding.SatEncoder.EncodeColumnBlockStart | src/sat_encoder.py:162-230 | the same procedure for a column, with height and row indices in place of width and column indices |
| SatEncoding.SatEncoder.EncodeLine | src/sat_encoder.py:92-160 | a line without clues gets only its unit clauses; otherwise it gets its start variables, then the exactly-one, linkage and ordering families in that order |
| SatEncoding.SatEncoder.EncodeEmptyLine | src/sat_encoder.py:97-103 | appends [-x] for every cell variable on the line, position by position, colour by colour |
| SatEncoding.SatEncoder.EncodeEmptyCell | src/sat_encoder.py:100-102 | appends one negative unit clause per paintable colour of one cell |
| SatEncoding.SatEncoder.AllocateStarts | src/sat_encoder.py:106-111 | issues the start variables of every block, block by block and position by position; the counter grows by the line's start count |
| SatEncoding.SatEncoder.AllocateBlockStarts | src/sat_encoder.py:109-111 | block b gets one consecutive id per position 0..L-len and each is recorded as a row or column start |
| SatEncoding.SatEncoder.EncodeExactlyOne | src/sat_encoder.py:114-122 | appends, block by block, the at-least-one clause and the pairwise at-most-one clauses of its starts |
| SatEncoding.SatEncoder.EncodeBlockExactlyOne | src/sat_encoder.py:116-122 | one block's at-least-one clause lists its starts in position order; then come its pairwise clauses |
| SatEncoding.SatEncoder.EncodeLinkage | src/sat_encoder.py:125-146 | appends the link clauses of every position of the line in order |
| SatEncoding.SatEncoder.EncodePositionLinks | src/sat_encoder.py:127-146 | appends the link clauses of one position for colours 1..K in order |
| SatEncoding.SatEncoder.EncodeCellLinks | src/sat_encoder.py:129-146 | appends [-s, x] for each covering start s of a same-coloured block; then [-x] + starts, only when that list is non-empty |
| SatEncoding.SatEncoder.EncodeBlockCover | src/sat_encoder.py:137-142 | for one block, returns the starts covering the position, offset by offset, and appends one implication per start |
| SatEncoding.SatEncoder.EncodeOrdering | src/sat_encoder.py:149-160 | appends the ordering clauses of every pair of consecutive blocks |
| SatEncoding.SatEncoder.EncodeOrderBlock | src/sat_encoder.py:154-160 | appends the ordering clauses of block b for every start c1 in order |
| SatEncoding.SatEncoder.EncodeOrderPairs | src/sat_encoder.py:158-160 | appends [-start_b@c1, -start_b+1@c2] for every c2 < c1 + len_b + 1, in increasing c2 |
| Encoding.Code | src/sat_encoder.py:43-44 | the letter of palette index i is the single character chr(ord('a') + i - 1) |
| Encoding.CodeMatches | src/sat_encoder.py:135 | a block colour equals the letter of index i exactly when it is that one-letter code |
| Cnf.AtMostOneMembers | src/sat_encoder.py:57-59 | the pairwise family of xs holds exactly the clauses [-xs[i], -xs[j]] with i < j |
| Cnf.AtMostOneCount | src/sat_encoder.py:57-59 | k variables give exactly k(k-1)/2 pairwise clauses |
| Cnf.AtMostOneSound | src/sat_encoder.py:57-59 | a model of the pairwise family makes at most one of the variables true |
| Cnf.PairClauseTrue | src/sat_encoder.py:122 | a clause [-a, -b] holds exactly when a and b are not both true |
| Cnf.AtLeastOneTrue | src/sat_encoder.py:116-117 | a clause of positive literals holds exactly when one of its variables is true |
| Cnf.EmptyClauseUnsat | src/sat_encoder.py:116-117 | a formula holding the empty clause has no model |
| LayoutIds.CellIdRange | src/sat_encoder.py:40-46 | cell ids run over 1..height*width*K |
| LayoutIds.CellIdInjective | src/sat_encoder.py:40-46 | distinct (r, c, colour) triples get distinct ids |
| LayoutIds.StartVarRange | src/sat_encoder.py:106-111 | a start variable of a line lies in [base, base + start count) |
| LayoutIds.StartVarInjective | src/sat_encoder.py:106-111 | distinct (block, position) pairs of one line get distinct ids |
| LayoutIds.RowStartRange | src/sat_encoder.py:108-111 | row r's start ids lie between its base and the next row's base |
| LayoutIds.ColStartRange | src/sat_encoder.py:178-181 | column c's start ids lie between its base and the next column's base |
| LayoutIds.IdOfRange | src/sat_encoder.py:10-14 | every meaning's id is in 1..VarCount; cell ids come first, then row starts, then column starts |
| LayoutIds.IdOfInjective | src/sat_encoder.py:10-14 | no id is issued for two meanings |
| LayoutIds.MappingSpecExtend | src/sat_encoder.py:45-46 | recording the next meaning under the current counter keeps the mapping's keys exactly 1..counter-1 |
| LayoutIds.MappingComplete | src/sat_encoder.py:110-111 | once every id is issued, every meaning the encoder can issue is recorded under its id |
| EncodingFacts.SharedCellTable | src/sat_encoder.py:129 | position c of row r and position r of column c use the same cell variable |
| EncodingFacts.EncodedMembers | src/sat_encoder.py:49-69 | a clause is in the formula exactly when it is an exclusion clause, a clause of some row, or a clause of some column |
| EncodingFacts.ExclusionMembers | src/sat_encoder.py:49-59 | the exclusion clauses are exactly the at-most-one clauses of the grid's cells |
| EncodingFacts.CellExclusionMembers | src/sat_encoder.py:51-59 | one cell's exclusion clauses are exactly [-x_i, -x_j] for palette indices i < j |
| EncodingFacts.ExclusionCount | src/sat_encoder.py:49-59 | the exclusion part has exactly height * width * K(K-1)/2 clauses |
| EncodingFacts.AllLiteralsIssued | src/sat_encoder.py:62-69 | every literal of the formula names an issued id, 1..VarCount |
| EncodingFacts.ExclusionClauseRange | src/sat_encoder.py:57-59 | exclusion literals name issued ids |
| EncodingFacts.RowClauseRange | src/sat_encoder.py:92-160 | a row's literals name issued ids |
| EncodingFacts.ColClauseRange | src/sat_encoder.py:162-230 | a column's literals name issued ids |
| EncodingFacts.ModelOfLines | src/sat_encoder.py:62-69 | a model of the formula satisfies the clauses of every row and every column |
| EncodingFacts.OneColorPerCell | src/sat_encoder.py:57-59 | under a model of the formula no cell has two true colour variables |
| EncodingFacts.EncodedModels | src/sat_encoder.py:49-69 | an assignment satisfies the formula exactly when no cell has two true colours and every row and every column satisfies its own clauses |
| EncodingFacts.RowStartsOrdered | src/sat_encoder.py:149-160 | under a model, each row with clues has a unique list of true starts, and consecutive starts leave a gap cell |
| EncodingFacts.ColStartsOrdered | src/sat_encoder.py:219-230 | the same for every column with clues |
| LineFacts.CoverMembers | src/sat_encoder.py:134-140 | `block_starts` holds exactly the start variables of same-coloured blocks whose start s satisfies s <= p <= s + len - 1 |
| LineFacts.ImplicationsMembers | src/sat_encoder.py:142 | the forward links are exactly [-s, x] for the covering starts s |
| LineFacts.CellLinksMembers | src/sat_encoder.py:129-146 | a cell/colour's link clauses are its forward links, plus [-x] + starts exactly when some start covers it |
| LineFacts.LinkClausesMembers | src/sat_encoder.py:125-146 | the linkage family is exactly the link clauses of every position and colour of the line |
| LineFacts.BlockAtMostOneMembers | src/sat_encoder.py:120-122 | block b's pairwise clauses are exactly [-s_p, -s_q] for p < q |
| LineFacts.StartClausesMembers | src/sat_encoder.py:114-122 | the exactly-one family is each block's at-least-one clause and its pairwise clauses |
| LineFacts.FullLengthBlock | src/sat_encoder.py:109-117 | a block as long as the line has one start, a one-literal clause and no pairs |
| LineFacts.OverlongBlockUnsat | src/sat_encoder.py:116-117 | a block longer than the line has no start; its empty clause makes the line unsatisfiable |
| LineFacts.OrderPairsMembers | src/sat_encoder.py:158-160 | for start c1, the ordering clauses are exactly those of the c2 with c2 < c1 + len + 1 |
| LineFacts.OrderUpToMembers | src/sat_encoder.py:149-160 | the ordering family is one clause per too-close pair of starts of consecutive blocks, whatever their colours |
| LineFacts.OrderPairExactly | src/sat_encoder.py:154-160 | the pair clause of (c1, c2) is emitted if and only if c2 < c1 + len_b + 1 |
| LineFacts.EmptyLineClauses | src/sat_encoder.py:97-103 | a line without clues has no start variables; its clauses are exactly [-x] for each of its L*K cell variables |
| LineFacts.EmptyLineMembers | src/sat_encoder.py:99-102 | the unit clauses are exactly [-x] for the cell variables of the visited positions |
| LineFacts.EmptyLineCount | src/sat_encoder.py:99-102 | m positions give m*K unit clauses |
| LineSemantics.CellVarFits | src/sat_encoder.py:129 | a line's cell variables are issued ids below its first start id |
| LineSemantics.CellVarInjective | src/sat_encoder.py:129 | distinct (position, colour) pairs of a line have distinct cell variables |
| LineSemantics.StartsExclusive | src/sat_encoder.py:120-122 | under a model of the line, two different starts of one block are not both true |
| LineSemantics.ExactlyOneStart | src/sat_encoder.py:114-122 | under a model of the line, each block has exactly one true start |
| LineSemantics.PickStart | src/sat_encoder.py:116-117 | picks the true start of a block, a position in 0..L-len |
| LineSemantics.ChosenStarts | src/sat_encoder.py:114-122 | a model of the line determines one list of true starts, and only one |
| LineSemantics.OrderingGap | src/sat_encoder.py:154-160 | if the starts of blocks b and b+1 are both true, the second is at least len_b + 1 after the first |
| LineSemantics.ChosenGaps | src/sat_encoder.py:149-160 | consecutive chosen starts leave at least one gap cell |
| LineSemantics.ChosenIncreasing | src/sat_encoder.py:149-160 | for any earlier and later block, the earlier one ends before the later one starts |
| LineSemantics.LinkForward | src/sat_encoder.py:142 | a true start of a colour-i block makes every covered cell's colour-i variable true |
| LineSemantics.LinkBackward | src/sat_encoder.py:145-146 | a true colour variable that some start could cover is covered by a true start of that colour |
| LineSemantics.LinePainted | src/sat_encoder.py:125-146 | with the chosen starts, a coverable cell has colour i exactly when a chosen block of colour i spans it |
| LineSemantics.EmptyLineBackground | src/sat_encoder.py:97-103 | under a model of a clue-less line, every cell variable on it is false |
| LineSemantics.ModelPlaced | src/sat_encoder.py:92-160 | a model of a line's clauses places its blocks: one start per block, in range, in order with a gap, and each coverable cell painted exactly by the blocks spanning it |
| LineSemantics.LineComplete | src/sat_encoder.py:92-160 | conversely, an assignment that places the blocks that way satisfies every clause of the line |
| LineSemantics.LineModels | src/sat_encoder.py:92-160 | the models of a line's clauses are exactly the assignments that place its blocks in order with gaps and paint its coverable cells to match |
| LineSemantics.LinkInLine | src/sat_encoder.py:125-146 | every link clause is a clause of the line |
| LineSemantics.LineLiteralsInRange | src/sat_encoder.py:92-160 | every literal of a line names a cell variable or one of its own start variables |
| LineSemantics.UncoveredUnmentioned | src/sat_encoder.py:145-146 | when no start covers a cell/colour, no clause of the line mentions that variable |
| Solver.Blank | src/solver.py:23 | height rows, each of width cells, all `'-'` |
| Solver.Scan | src/solver.py:26-31 | the in-range scan keeps the grid's shape |
| Solver.PyPos | src/solver.py:31 | a list index Python accepts refers to a position in range, counting negatives from the end |
| Solver.PyScan | src/solver.py:23-31 | the grid after entries 1..n, when nothing was raised, has height rows of width cells |
| Solver.ExtractSolution | src/solver.py:20-33 | the loop over the model returns the `'-'` grid updated by every true cell entry in id order, or IndexError |
| Solver.PyScanStaysFailed | src/solver.py:26-31 | once an entry has raised, the loop does not complete |
| Solver.PyScanFails | src/solver.py:29-31 | IndexError is raised exactly when some true cell entry indexes outside the grid |
| Solver.PyScanInGrid | src/solver.py:29-31 | with every cell entry inside the grid, nothing is raised and no index wraps |
| Solver.ScanOtherCell | src/solver.py:30-31 | an entry changes only the cell it names |
| Solver.ScanUntouched | src/solver.py:23-31 | a cell that no true cell variable names stays `'-'` |
| Solver.ScanLastWriter | src/solver.py:26-31 | of several true cell variables naming a cell, the one with the largest id sets its colour |
| Solver.ScanOrigin | src/solver.py:23-31 | every cell is `'-'` or the colour recorded for a true cell variable of that very cell |
| Solver.ScanIgnoresNonCells | src/solver.py:27-29 | start variables make no difference: dropping them from the mapping leaves the grid unchanged |
| Solver.ScanSameTruth | src/solver.py:27 | only the sign of each model entry matters |
| Solver.EncodedCellsInGrid | src/sat_encoder.py:45-46 | the encoder's mapping records only cells inside the grid |
| Solver.ExtractEncoded | src/solver.py:20-33 | on the encoder's mapping nothing is raised, and the result is the in-range scan |
| Solver.PainterIsColorVar | src/solver.py:29-31 | a true variable the encoder's mapping records for cell (r, c) is that cell's colour variable of its letter |
| Solver.ColorVarRecorded | src/sat_encoder.py:45-46 | each colour variable of a cell is recorded as that cell in that colour |
| Solver.DecodedColor | src/solver.py:26-31 | for a model of the formula, cell (r, c) reads colour i exactly when its colour-i variable is true |
| Solver.DecodedBackground | src/solver.py:23-31 | for a model of the formula, a cell reads `'-'` exactly when none of its colour variables is true |
| Solver.DecodedRow | src/solver.py:26-31 | for a row with clues, a coverable cell reads colour i exactly when a chosen block of colour i spans it |
| Solver.DecodedColumn | src/solver.py:26-31 | the same for a column with clues |
| Solver.DecodedEmptyLines | src/solver.py:23-31 | every cell of a row or column without clues reads `'-'` |
| UncoveredCells.GuardCounterexample | src/sat_encoder.py:145-146 | the 1x3 witness: an assignment satisfies the formula as written, yet decodes the middle cell to `b`, a colour no block of its row has |
| UncoveredCells.UnguardedCellLinksMembers | src/sat_encoder.py:129-146 | without the guard, a cell/colour gets the link clauses as written plus the unit [-x] when no start covers it |
| UncoveredCells.UnguardedLineMembers | src/sat_encoder.py:92-160 | a corrected line holds the clauses of the line as written and the units of its uncovered cell variables, and nothing else |
| UncoveredCells.UnguardedMembers | src/sat_encoder.py:35-69 | the corrected formula holds the formula as written and the uncovered units of every row and column, and nothing else |
| UncoveredCells.UnguardedLineModels | src/sat_encoder.py:92-160 | the models of a corrected line are exactly the assignments that place its blocks in order with gaps and paint every cell to match |
| UncoveredCells.UnguardedModelOfLines | src/sat_encoder.py:62-69 | a model of the corrected formula is a model of the formula as written and of every corrected row and column |
| UncoveredCells.UnguardedDecodedRow | src/solver.py:26-31 | for a model of the corrected formula, every cell of every row reads colour i exactly when a chosen block of colour i spans it |
| UncoveredCells.UnguardedDecodedColumn | src/solver.py:26-31 | the same for every cell of every column |
| UncoveredCells.WitnessUnguardedUnsat | src/sat_encoder.py:145-146 | the corrected formula of the witness has no model, as the puzzle has no solution |
| Text.TrimStartSlice | src/nonogram.py:16 | left stripping removes a whitespace prefix and stops at the first other character |
| Text.TrimEndSlice | src/nonogram.py:16 | right stripping removes a whitespace suffix and stops at the last other character |
| Text.StripSlice | src/nonogram.py:16 | `strip()` is a slice with all-whitespace ends outside it and no whitespace at its own ends |
| Text.StripEmpty | src/nonogram.py:30 | a stripped line is empty exactly when the line is all whitespace |
| Text.WordLen | src/nonogram.py:56 | the token at the front ends at the first whitespace or the end |
| Text.SplitWords | src/nonogram.py:56 | every token of `split()` is a non-empty whitespace-free string |
| Text.SplitJoin | src/nonogram.py:56 | splitting words joined by spaces gives the words back |
| Text.DecimalRoundTrip | src/nonogram.py:63 | reading a rendered count back gives the count |
| Text.DecimalPositive | src/nonogram.py:66 | a digit prefix has a positive value exactly when it has a non-zero digit |
| Text.PyIntRoundTrip | src/nonogram.py:22-23 | `int()` reads back what `str()` writes, negative numbers included |
| Text.PyIntRejects | src/nonogram.py:22-23 | `int()` rejects the empty token and any token with a character other than a sign, digit or underscore |
| Parser.DigitPrefixLen | src/nonogram.py:59-61 | the scanned prefix is all digits and stops at a non-digit or the end |
| Parser.DigitPrefixUnique | src/nonogram.py:59-61 | only one prefix length has that property |
| Parser.ParseClue | src/nonogram.py:53-69 | the loop over tokens and digits returns the clue of the line's tokens |
| Parser.TokenBlockWellFormed | src/nonogram.py:63-67 | a kept pair has count >= 1 and a colour that is non-empty and does not start with a digit |
| Parser.ClueOfBlocks | src/nonogram.py:56-69 | a clue has at most as many blocks as the line has tokens, and every block is well formed |
| Parser.ClueOfAppend | src/nonogram.py:58-67 | token order is kept: the clue of two token lists is one clue after the other |
| Parser.ClueOfMembers | src/nonogram.py:58-67 | a block is in the clue exactly when some token yields it |
| Parser.TokenRoundTrip | src/nonogram.py:59-64 | `str(len) + colour` is read back as that block when the colour does not start with a digit |
| Parser.ClueRoundTrip | src/nonogram.py:53-69 | writing a clue's tokens separated by spaces and parsing the line gives the clue back |
| Parser.TokensRoundTrip | src/nonogram.py:58-67 | every prefix of the written tokens parses to the same prefix of the clue |
| Parser.ParseHeader | src/nonogram.py:19-23 | a first line with no token raises IndexError; a first token other than `rect` keeps the defaults None, 0, 0; a rect header's size is `int()` of tokens 1 and 2 |
| Parser.ReadHeader | src/nonogram.py:19-23 | the header code, with its IndexError and ValueError paths |
| Parser.NonBlankIff | src/nonogram.py:30 | a line passes the filter exactly when it is not all whitespace |
| Parser.ClueLinesMembers | src/nonogram.py:30 | a line is a clue line exactly when it is a non-blank line after the first two |
| Parser.FilterCount | src/nonogram.py:30 | there are at most as many clue lines as lines |
| Parser.FilterAppend | src/nonogram.py:30 | the filter keeps order |
| Parser.ReadRowClues | src/nonogram.py:33-36 | the row loop and the padding of lines 45-46: the first min(height, n) clue lines parsed, then empty clues up to height |
| Parser.ReadColClues | src/nonogram.py:39-42 | the column loop and the padding of lines 48-49: clue lines from `height` on, with Python's negative indexing, then empty clues up to width; IndexError below -n |
| Parser.ParseFile | src/nonogram.py:16-49 | the whole parse over the read lines, with its failure cases |
| Parser.ParsedShape | src/nonogram.py:45-49 | after padding there are exactly height row clues and width column clues |
| Parser.HeaderDefaults | src/nonogram.py:2-8 | a first token other than `rect` gives no grid type, zero size and no clues |
| Parser.RowClueSource | src/nonogram.py:34-36 | row clue i is clue line i parsed, or empty past the end of the clue lines |
| Parser.ColClueSource | src/nonogram.py:40-42 | column clue j is clue line height + j parsed, or empty past the end |
| Parser.NegativeHeightFails | src/nonogram.py:40-41 | a column loop that starts before -n raises IndexError |
| Parser.ParsedFrom | src/nonogram.py:30-42 | the parsed clues come from the non-blank stripped lines after the first two |
| Parser.ParsedClueWellFormed | src/nonogram.py:66-67 | every block of a parsed clue has a positive length and a non-empty colour |
| Parser.ParsedBlocksWellFormed | src/nonogram.py:33-49 | every row and column block of a parsed file is well formed |
| Parser.RowCluesWellFormed | src/nonogram.py:33-36 | every block of the row clues is well formed |
| Parser.ColCluesWellFormed | src/nonogram.py:39-42 | every block of the column clues is well formed |
| Parser.StripJoin | src/nonogram.py:16 | words joined by spaces have nothing to strip |
| Parser.ClueLineRoundTrip | src/nonogram.py:53-69 | a written clue line is non-blank, has nothing to strip, and parses back (an empty clue is written as `0`) |
| Parser.RenderLines | src/nonogram.py:16-30 | the lines of a written puzzle are unchanged by stripping, and its clue lines are all the lines after the first two |
| Parser.RenderHeader | src/nonogram.py:19-27 | the written header reads back as rect with the puzzle's size, and the palette line splits into its colours |
| Parser.RenderClues | src/nonogram.py:33-49 | the written clue lines read back as the puzzle's row and column clues |
| Parser.RenderRoundTrip | src/nonogram.py:16-49 | parsing the written lines of a puzzle gives the puzzle back |

## Left out

- The 4x5 column-clue swap at the start of `encode_block_start` (src/sat_encoder.py:18-29) is left out. It is a patch for one puzzle that mutates its column clues before encoding; the encoder is modelled on the clues as given.
- Debug printing (src/sat_encoder.py:30-34, 63, 68, 71-88): output only.
- pysat's `CNF` object and its `nv` field are left out: the formula is a sequence of integer clauses.
- `NonogramSolver.__init__` and `solve` (src/solver.py:4-18) call the Glucose3 SAT library. The model handed to the decoder is therefore any sequence of integers.
- `open` and `readlines` in `parse_file` (src/nonogram.py:15-16): file I/O. The parser starts from the list of lines read.
- Text.PyInt: CPython's limit on the number of digits in a base-10 `int()`/`str()` conversion (`sys.get_int_max_str_digits()`, 4300 by default since 3.11 and the 3.7-3.10 security releases, changeable at run time and absent before) is not modelled. The model reads digit strings of any length, where that CPython raises ValueError on a token of more than 4300 digits. The limit is interpreter configuration, not logic of the program.
- Parser.ParseClue: because of that limit, `int(part[:i])` at src/nonogram.py:63 raises ValueError for a digit prefix of more than 4300 digits (e.g. `'1'*4301 + 'a'`); the model reads it as the block's count instead.
- Parser.ParseHeader: for the same reason, a height or width token of more than 4300 digits (src/nonogram.py:22-23) is read as a size, where that CPython raises ValueError.
- Parser.ReadHeader: the same missing ValueError path as Parser.ParseHeader.
- Parser.ReadRowClues: the row loop inherits Parser.ParseClue's missing ValueError for an over-long digit prefix.
- Parser.ReadColClues: the column loop inherits Parser.ParseClue's missing ValueError for an over-long digit prefix.
- Parser.ParseFile: its failure cases are the IndexError and ValueError paths above, without the two digit-count ValueErrors of `int()` (src/nonogram.py:22-23 and 63).
- Text: `isdigit()` is ASCII digits only; Python also accepts other Unicode digits. `int()` is taken to accept an optional sign, ASCII digits and single underscores between digit groups; it takes no surrounding whitespace, because split tokens have none.
- SatEncoding.SatEncoder.EncodeBlockStart: requires `WellShaped`: a clue list for every row below height and every column below width, which the source would otherwise fail on. `Parser.ParsedShape` proves that parsed puzzles have them. It also requires that a palette used on a non-empty grid has at most MaxPaintable = 0xD79F paintable colours, so that every letter chr(ord('a') + i - 1) is below the surrogate range that Dafny's `char` excludes.
- The encoder methods `CreateColorVars`, `CollectColorVars`, `EncodeRowExclusion`, `AllocateBlockStarts`, `EncodeBlockExactlyOne`, `EncodeBlockCover`, `EncodeCellLinks`, `EncodePositionLinks`, `EncodeOrderBlock`, `EncodeOrderPairs`, `EncodeEmptyCell` and `EncodeLine` are inner loops of the two line procedures, given their own names. The local `cell_vars` and `start_vars` dictionaries are passed between them as values.
- Solver.ExtractSolution: takes the variable mapping as a parameter. In the source it is the solver object's `var_mapping`, which `NonogramSolver.__init__` stores from its `var_mapping` argument (src/solver.py:4-6).
- The decoding lemmas (`Solver.Decoded*`) speak of the encoder's own mapping and of a model of the encoder's formula, not of models the solver may return for other formulas.
- LineSemantics.UncoveredUnmentioned: proved for the clauses of the line itself. That line leaves such a cell variable free, and the crossing line can force it true; see Findings. The class `SatEncoder` and the lemmas about `EncodedClauses` model the code as written, with the guard.
- src/main.py, src/visualize.py and src/solution.py: command-line handling, plotting and file output. They are not part of this model.

## Findings

| source | as written | input that shows it | evidently intended | confidence | as-written member | corrected member |
|---|---|---|---|---|---|---|
| src/sat_encoder.py:145-146 and 215-216 | `if block_starts:` emits [-x] + starts only when some start covers the cell, so a cell/colour that no block of its line can cover gets no clause from that line and is free | a 1x3 puzzle with palette `w A B`, row clue `1a`, column clues `1a`, `1b`, `0`: the formula as written is satisfied by an assignment that paints the middle cell, and the decoder reads that cell as `b` | a cell that no block of its line can cover in colour i has that colour variable false (the clause [-x] when the list is empty), so this puzzle has no solution | not executed | UncoveredCells.GuardCounterexample | UncoveredCells.UnguardedDecodedRow, UncoveredCells.UnguardedDecodedColumn, UncoveredCells.WitnessUnguardedUnsat |
