/** The whole computation for two words: build the matrix, find a path,
    and replay it into the two alignment rows. */
module EditDistance {
  import opened Paths
  import opened Validation
  import opened Distance
  import opened Matrix
  import opened Alignment

  /** The edit distance of the two words, the path the search finds, and the
      alignment rows of the first and the second word. */
  method Compute(firstWord: string, secondWord: string) returns (distance: int, path: seq<Move>, top: string, bottom: string)
    ensures distance == Lev(firstWord, secondWord, |secondWord|, |firstWord|)
    ensures Rows(path) == |secondWord| && Cols(path) == |firstWord|
    ensures FollowsArrows(firstWord, secondWord, path)
    ensures Cost(firstWord, secondWord, path) == distance
    ensures forall other: seq<Move> | Rows(other) == |secondWord| && Cols(other) == |firstWord| ::
      distance <= Cost(firstWord, secondWord, other)
    ensures Prioritized(firstWord, secondWord, path)
    ensures forall other: seq<Move> | Rows(other) == |secondWord| && Cols(other) == |firstWord| && Prioritized(firstWord, secondWord, other) ::
      other == path
    ensures top == GappedRow(firstWord, path, Down) && bottom == GappedRow(secondWord, path, Right)
  {
    var matrix := new EditMatrix(firstWord, secondWord);
    matrix.Build();
    path := matrix.FindPath();
    distance := matrix.grid[matrix.height - 1, matrix.width - 1].value;
    top := AlignWord(firstWord, path, Down);
    bottom := AlignWord(secondWord, path, Right);
    forall other: seq<Move> | Rows(other) == |secondWord| && Cols(other) == |firstWord|
      ensures distance <= Cost(firstWord, secondWord, other)
    {
      LowerBound(firstWord, secondWord, other);
    }
    forall other: seq<Move> | Rows(other) == |secondWord| && Cols(other) == |firstWord| && Prioritized(firstWord, secondWord, other)
      ensures other == path
    {
      PriorityUnique(firstWord, secondWord, other, path);
    }
  }

  /** The number of columns in which the two rows differ. */
  function Differing(top: string, bottom: string): nat
    requires |top| == |bottom|
  {
    if top == [] then 0
    else Differing(top[..|top| - 1], bottom[..|bottom| - 1]) + (if top[|top| - 1] == bottom[|bottom| - 1] then 0 else 1)
  }

  /** A validated word never contains the gap marker. */
  lemma WordHasNoGap(word: string)
    requires IsWord(word)
    ensures Gap !in word
  {
  }

  /** Reading the two alignment rows column by column: a path costs exactly the
      number of columns in which they differ. */
  lemma {:induction false} ColumnsCost(first: string, second: string, path: seq<Move>)
    requires Rows(path) <= |second| && Cols(path) <= |first|
    requires Gap !in first && Gap !in second
    ensures |GappedRow(first, path, Down)| == |path| && |GappedRow(second, path, Right)| == |path|
    ensures Differing(GappedRow(first, path, Down), GappedRow(second, path, Right)) == Cost(first, second, path)
  {
    GappedRowLength(first, path, Down);
    GappedRowLength(second, path, Right);
    if path != [] {
      var init := path[..|path| - 1];
      var m := path[|path| - 1];
      ColumnsCost(first, second, init);
      var top, bottom := GappedRow(first, init, Down), GappedRow(second, init, Right);
      var a := if m == Down then Gap else first[Cols(init)];
      var b := if m == Right then Gap else second[Rows(init)];
      assert (top + [a])[..|top|] == top;
      assert (bottom + [b])[..|bottom|] == bottom;
      assert m != Down ==> a in first;
      assert m != Right ==> b in second;
    }
  }

  /** Between words of equal length, a corner-to-corner path costing at most one moves
      only diagonally, so both alignment rows are the words themselves, without gaps. */
  lemma NoGaps(first: string, second: string, path: seq<Move>)
    requires |first| == |second|
    requires Rows(path) == |second| && Cols(path) == |first|
    requires Cost(first, second, path) <= 1
    requires Gap !in first && Gap !in second
    ensures forall k :: 0 <= k < |path| ==> path[k] == Diagonal
    ensures GappedRow(first, path, Down) == first && GappedRow(second, path, Right) == second
  {
    OnlyDiagonal(first, second, path);
    WholeWordRow(first, path, Down);
    WholeWordRow(second, path, Right);
  }

  /** Equal lengths force as many Right as Down moves, and both kinds cost one each. */
  lemma OnlyDiagonal(first: string, second: string, path: seq<Move>)
    requires Rows(path) == |second| && Cols(path) == |first| && |first| == |second|
    requires Cost(first, second, path) <= 1
    ensures forall k :: 0 <= k < |path| ==> path[k] == Diagonal
  {
    ConsumedCounts(path, Right);
    ConsumedCounts(path, Down);
    GapsCost(first, second, path);
    forall k | 0 <= k < |path|
      ensures path[k] == Diagonal
    {
      assert path[k] in multiset(path);
    }
  }

  /** "cat" against "cut": a path of least cost, such as the one found, prints both
      words letter for letter. */
  lemma CatCutAligned(path: seq<Move>)
    requires Rows(path) == 3 && Cols(path) == 3
    requires Cost("cat", "cut", path) == Lev("cat", "cut", 3, 3)
    ensures GappedRow("cat", path, Down) == "cat" && GappedRow("cut", path, Right) == "cut"
  {
    CatCut();
    NoGaps("cat", "cut", path);
  }

  /** "abc" against itself: a path of least cost prints the word twice, without gaps. */
  lemma IdenticalAligned(path: seq<Move>)
    requires Rows(path) == 3 && Cols(path) == 3
    requires Cost("abc", "abc", path) == Lev("abc", "abc", 3, 3)
    ensures GappedRow("abc", path, Down) == "abc" && GappedRow("abc", path, Right) == "abc"
  {
    IdenticalWords();
    NoGaps("abc", "abc", path);
  }

  /** "ab" against "ba": the priority order first tries Right into (0, 2), a dead end,
      and then settles on Right, Diagonal, Down, printed as "ab_" over "_ba". */
  lemma SwappedLetters(first: string, second: string, path: seq<Move>)
    requires first == "ab" && second == "ba"
    requires Rows(path) == |second| && Cols(path) == |first|
    requires Prioritized(first, second, path)
    ensures path == [Right, Diagonal, Down]
    ensures GappedRow(first, path, Down) == "ab_" && GappedRow(second, path, Right) == "_ba"
  {
    var found := [Right, Diagonal, Down];
    SwappedPreferred(first, second);
    assert found[..0] == [] && found[..1] == [Right] && found[..2] == [Right, Diagonal];
    assert Rows([Right]) == 0 && Cols([Right]) == 1;
    assert Rows([Right, Diagonal]) == 1 && Cols([Right, Diagonal]) == 2;
    assert Prioritized(first, second, found);
    PriorityUnique(first, second, path, found);
    SwappedRows(first, second, path);
  }

  /** The two rows printed along Right, Diagonal, Down for "ab" against "ba". */
  lemma SwappedRows(first: string, second: string, path: seq<Move>)
    requires first == "ab" && second == "ba" && path == [Right, Diagonal, Down]
    requires Rows(path) == |second| && Cols(path) == |first|
    ensures GappedRow(first, path, Down) == "ab_" && GappedRow(second, path, Right) == "_ba"
  {
    var one, two := path[..1], path[..2];
    assert one == [Right] && two == [Right, Diagonal] && path[..|path| - 1] == two && two[..1] == one;
    assert one[..0] == [];
    assert Rows(one) == 0 && Cols(one) == 1 && Rows(two) == 1 && Cols(two) == 2;
    assert GappedRow(first, one, Down) == "a" && GappedRow(second, one, Right) == [Gap];
    assert GappedRow(first, two, Down) == "ab" && GappedRow(second, two, Right) == [Gap, 'b'];
  }

  /** The preferred moves along the path for "ab" against "ba". */
  lemma SwappedPreferred(first: string, second: string)
    requires first == "ab" && second == "ba"
    ensures Preferred(first, second, 0, 0) == Some(Right)
    ensures Preferred(first, second, 0, 1) == Some(Diagonal)
    ensures Preferred(first, second, 1, 2) == Some(Down)
  {
    SwappedReaches(first, second);
  }

  /** Which cells of the "ab" against "ba" matrix reach the corner. */
  lemma SwappedReaches(first: string, second: string)
    requires first == "ab" && second == "ba"
    ensures ReachesCorner(first, second, 1, 2)
    ensures !ReachesCorner(first, second, 0, 2)
    ensures ReachesCorner(first, second, 0, 1)
  {
    FirstRow(first, second, 1);
    FirstColumn(first, second, 1);
    assert Lev(first, second, 1, 1) == 1;
    assert Lev(first, second, 1, 2) == 1 && Lev(first, second, 2, 1) == 1;
    assert DownArrow(first, second, 1, 2);
    assert !DownArrow(first, second, 0, 2);
  }
}
