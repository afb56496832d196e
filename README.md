# Edit distance with one alignment

This project models the core of a small console program. The program reads two words,
fills the Levenshtein edit-distance matrix for them, walks an arrow path through the
matrix, and prints the two words aligned with gaps. The model covers these parts of the core:

- **Validation** (`validation.dfy`): a word is accepted when every character is a letter.
- **Matrix sweep** (`matrix.dfy`, `distance.dfy`): a class `EditMatrix` owns an `array2` of
  `Cell`s, one per matrix element. Each cell has a value, three forward arrows and an
  `exhausted` flag. `Build` fills the grid row by row, exactly as the source does:
  - the top-left cell gets 0;
  - the first row and the first column count up by one;
  - a cell whose letters match copies the top-left diagonal value;
  - any other cell takes the smallest of its left, diagonal and top values plus one.

  The sweep sets an arrow on every predecessor that the cell's value came from, covering
  every pattern of ties the source's if/else cascade handles. `Lev` is the recurrence
  written in the source's own branch shape, and the arrow predicates say which cell sets
  each flag.
- **Path search** (`matrix.dfy`): `Search` walks from the top-left cell. At each cell it
  takes the first arrow, in the order Right, Diagonal, Down, whose target is not exhausted.
  When no arrow is usable, it marks the current cell exhausted and starts again from the
  top-left cell. Proved about it:
  - the loop terminates;
  - no cell read lies outside the grid;
  - the top-left cell is never exhausted;
  - the returned path reaches the bottom-right cell and follows arrows;
  - every cell the search marks exhausted is a real dead end: no arrow path leads from it to the corner;
  - at every step the path takes the first of Right, Diagonal, Down whose arrow leads to a cell
    from which the corner can be reached (`Prioritized`);
  - exactly one corner-to-corner path has that property, so the words alone fix which path,
    and so which alignment, is printed;
  - the path costs exactly the bottom-right value;
  - no path from corner to corner costs less.
- **Alignment** (`alignment.dfy`, `edit_distance.dfy`): each alignment row is produced by
  replaying the path against one word, with the source's `wordIndex` counter. Proved about it:
  - a column is a gap exactly at the moves that skip that word;
  - deleting the gaps gives the word back;
  - the cost of the path equals the number of columns in which the two rows differ.

Row `i` of the matrix ranges over the second word and column `j` over the first word, as in
the source. A `Right` move consumes a letter of the first word, a `Down` move a letter
of the second word, and a `Diagonal` move one letter of each.

## Model

| member | source | states |
|---|---|---|
| Validation.InputValidation | EditDistance.cpp:33-44 | The result is true exactly when every character of the word is an ASCII letter; the empty word is accepted. |
| Distance.FirstRow | EditDistance.cpp:117-123 | Every cell of the first row holds its column number. |
| Distance.FirstColumn | EditDistance.cpp:126-132 | Every cell of the first column holds its row number. |
| Distance.Neighbours | EditDistance.cpp:106-192 | Horizontally or vertically adjacent cells differ by at most one, in both directions. |
| Distance.TextbookRecurrence | EditDistance.cpp:137-152 | The source's rule for interior cells (copy the diagonal on a match) equals the textbook minimum of left+1, top+1 and diagonal+substitution cost. |
| Distance.LowerBound | EditDistance.cpp:106-192 | Every path of Right, Down and Diagonal moves from (0, 0) costs at least the value the sweep stores at the cell it ends in; so the values are minimal edit costs. |
| Distance.ArrowStep | EditDistance.cpp:117-188 | Following an arrow stays inside the matrix. The target's value is the source's value, plus nothing for a diagonal between equal letters and plus one otherwise. |
| Distance.ArrowsInto | EditDistance.cpp:137-188 | An interior cell with matching letters sets only the diagonal arrow into it. A differing one sets the arrow on exactly those predecessors holding the smallest value. |
| Distance.Incoming | EditDistance.cpp:111-188 | Every cell other than the top-left one has at least one arrow pointing into it. |
| Distance.ArrowPathCost | EditDistance.cpp:194-252 | A path that follows arrows from (0, 0) costs exactly the value of the cell it ends in. |
| Distance.PreferredMove | EditDistance.cpp:210-237 | A cell has a preferred move exactly when it is not the corner and the corner can be reached from it. The preferred move follows an arrow to a cell that still reaches the corner. |
| Distance.SuffixReaches | EditDistance.cpp:202-237 | Every cell on an arrow path to the corner reaches the corner. |
| Distance.PriorityUnique | EditDistance.cpp:210-237 | Two prioritized corner-to-corner paths are equal: the Right, Diagonal, Down priority leaves no choice. |
| Distance.GapsCost | EditDistance.cpp:202-237 | A path costs at least its number of Right and Down moves. |
| Distance.SameWord | EditDistance.cpp:137-143 | A word against itself has distance 0. |
| Distance.Symmetric | EditDistance.cpp:106-192 | Swapping the two words, and so rows with columns, leaves every value unchanged. |
| Distance.LengthGap | EditDistance.cpp:106-192 | A value is at least the difference of the two prefix lengths. |
| Distance.LengthSum | EditDistance.cpp:106-192 | A value is at most the sum of the two prefix lengths. |
| Distance.Triangle | EditDistance.cpp:106-192 | The values obey the triangle inequality across three words. |
| Distance.CatCut | EditDistance.cpp:106-192 | "cat" against "cut" has distance 1. |
| Distance.SingleLetters | EditDistance.cpp:106-192 | "a" against "b" has distance 1. |
| Distance.IdenticalWords | EditDistance.cpp:106-192 | "abc" against itself has distance 0. |
| Matrix.EditMatrix.constructor | EditDistance.cpp:9-29 | The grid has one row per letter of the second word plus one and one column per letter of the first word plus one; every element starts as value -1, no arrows, not exhausted. |
| Matrix.EditMatrix.Build | EditDistance.cpp:106-192 | After the row-major sweep, every cell holds its Lev value and exactly the arrows its unique successor sets; no cell is exhausted. |
| Matrix.EditMatrix.FillCell | EditDistance.cpp:111-143 | Processing cell (i, j) in row-major order writes its value and sets the one arrow it owes its predecessor (top-left, first row, first column, matching letters), keeping the sweep invariant. |
| Matrix.EditMatrix.MismatchCell | EditDistance.cpp:147-189 | A differing interior cell gets the smallest predecessor value plus one, and the sweep invariant is kept. |
| Matrix.EditMatrix.MarkSmallest | EditDistance.cpp:155-188 | The seven-way cascade sets the arrow on each of the three predecessors exactly when its value equals the smallest, and changes no other cell. |
| Matrix.EditMatrix.FindPath | EditDistance.cpp:194-252 | On a built matrix the search ends with a path that reaches the bottom-right cell, follows arrows and costs the bottom-right value. At every step it takes the first of Right, Diagonal, Down whose target still reaches the corner (`Prioritized`). Exhausted cells are closed under arrows, and nothing but exhausted flags changes. |
| Matrix.EditMatrix.Search | EditDistance.cpp:194-252 | The restarting search terminates and never reads outside the grid. It never exhausts the top-left or bottom-right cell, changes only exhausted flags, and leaves every arrow target of an exhausted cell exhausted. It returns a corner-to-corner path whose every move is the search's choice at the cell it leaves, given the final flags. |
| Matrix.EditMatrix.MarkExhausted | EditDistance.cpp:241-251 | Exhausting a non-final cell with no usable arrow keeps every arrow target of an exhausted cell exhausted and leaves the top-left cell live. It strictly shrinks the set of live cells. |
| Matrix.EditMatrix.BuiltArrows | EditDistance.cpp:106-192 | After the sweep no arrow points outside the grid and every non-origin cell has an incoming arrow. |
| Matrix.EditMatrix.GreedyStep | EditDistance.cpp:210-237 | Extending a greedy path by the move the search chooses keeps it greedy and moves it to that arrow's target. |
| Matrix.EditMatrix.GreedyFollowsArrows | EditDistance.cpp:202-237 | A greedy path over the searched matrix follows the arrows of the recurrence. |
| Matrix.EditMatrix.ExhaustedSpread | EditDistance.cpp:238-251 | If the top-left cell were exhausted, every cell would be, because exhaustion is closed under arrows and every cell is reachable by arrows. |
| Matrix.EditMatrix.OriginLive | EditDistance.cpp:238-251 | While exhaustion stays closed under arrows, the top-left cell is not exhausted, so the search always restarts from a live cell. |
| Matrix.EditMatrix.ExhaustedDead | EditDistance.cpp:238-251 | On the searched matrix an exhausted cell has no arrow path to the corner. |
| Matrix.EditMatrix.GreedyPrioritized | EditDistance.cpp:202-252 | The greedy corner-to-corner path over the searched matrix is prioritized: every higher-priority arrow it passes over leads to a dead end. |
| Alignment.AlignWord | EditDistance.cpp:290-326 | The printed row equals the gapped row of the word along the path: a gap at each skipping move, otherwise the next letter; the counter never runs past the word. |
| Alignment.GappedRowAt | EditDistance.cpp:296-308 | The row has one column per move. Column k is the gap marker at a skipping move, and otherwise the letter after those consumed by the first k moves. |
| Alignment.GappedRowLength | EditDistance.cpp:296-326 | The row has one column per move. |
| Alignment.GapsExactly | EditDistance.cpp:296-326 | For a word without the gap marker, column k is a gap if and only if move k skips that word. |
| Alignment.RemoveGapsRoundTrip | EditDistance.cpp:296-326 | Deleting the gaps from a row gives back exactly the letters of the word the path consumed. |
| Alignment.RemoveGapsNone | EditDistance.cpp:296-326 | Deleting gaps leaves a row without gap markers unchanged. |
| Alignment.WholeWordRow | EditDistance.cpp:296-326 | A path that never skips a word, and consumes all of it, prints that word exactly. |
| Paths.ConsumedCounts | EditDistance.cpp:296-307 | The letters a path consumes from one word are its moves other than the skipping one. |
| EditDistance.Compute | EditDistance.cpp:98-329 | The reported distance is the Lev value of the two words and the least cost of any corner-to-corner path. The path found reaches the corner, follows arrows, costs exactly the distance and is `Prioritized`. It is the only prioritized corner-to-corner path. The two rows are the gapped rows along it. |
| EditDistance.WordHasNoGap | EditDistance.cpp:32-44 | A validated word never contains the gap marker. |
| EditDistance.ColumnsCost | EditDistance.cpp:290-326 | For words without the gap marker, both rows have one column per move, and the cost of the path is the number of columns in which they differ. |
| EditDistance.OnlyDiagonal | EditDistance.cpp:202-237 | Suppose the words have equal length and a corner-to-corner path costs at most one. Then every move of the path is Diagonal. |
| EditDistance.NoGaps | EditDistance.cpp:290-326 | For such words and path, with no gap marker in either word, the two rows are the words themselves, without gaps. |
| EditDistance.CatCutAligned | EditDistance.cpp:290-326 | Every least-cost path for "cat" against "cut", the one found included, prints "cat" over "cut". |
| EditDistance.IdenticalAligned | EditDistance.cpp:290-326 | Every least-cost path for "abc" against itself prints the word twice, without gaps. |
| EditDistance.SwappedLetters | EditDistance.cpp:202-326 | For "ab" against "ba" the only prioritized path is Right, Diagonal, Down, printed as "ab_" over "_ba". |
| EditDistance.SwappedRows | EditDistance.cpp:296-326 | The rows printed along Right, Diagonal, Down for "ab" against "ba" are "ab_" and "_ba". |
| EditDistance.SwappedPreferred | EditDistance.cpp:210-237 | The preferred moves at (0, 0), (0, 1) and (1, 2) for "ab" against "ba" are Right, Diagonal and Down. |
| EditDistance.SwappedReaches | EditDistance.cpp:202-252 | For "ab" against "ba", (0, 1) and (1, 2) reach the corner and (0, 2) is a dead end. |

## Left out

- Reading the words from standard input and re-prompting on invalid input (`userInput`, `main`, lines 48-94 and 332-344) are I/O and are not modelled; the model takes the two words as parameters.
- Printing the matrix, the distance and the alignment (lines 254-288 and the output statements of lines 290-328) is not modelled. Each alignment loop is the method `AlignWord`, which appends each printed character to a row it returns instead of writing it out; the function `GappedRow` is that method's specification.
- Characters are Dafny `char`s (Unicode characters), whereas the C++ `std::string` compares bytes (line 137). The two agree on every word that passes validation, since those are ASCII letters; on other input, such as a non-ASCII letter against its ASCII base letter, the byte-wise distance can differ.
- `std::isalpha` depends on the C locale; the model accepts the ASCII letters `A`-`Z` and `a`-`z`, the letters of the default "C" locale.
- The stack-allocated variable-length array (line 103) becomes a heap-allocated `array2`.
- The copy `currentElement` (lines 197, 214, 223, 233, 248) is not kept: the search reads the arrows of `grid[i, j]` directly. Only exhausted flags ever change during the search, so the copy's arrows always equal the grid cell's.
- The two alignment loops (lines 296-308 and 314-326) differ only in which move prints a gap, so they are one method `AlignWord` with that move as a parameter.
- The path is a sequence of `Move` values rather than of the strings "Right", "Diagonal" and "Down".
- The C++ `int` is not modelled as 32-bit: every value in the matrix is at most the sum of the two word lengths (`LengthSum`), so no overflow can occur for words the program can hold.
- The worked case "kitten" against "sitting" (distance 3) is not proved: evaluating the 56 cells of that matrix by unfolding the recurrence is beyond the verifier's resource budget.
