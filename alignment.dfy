/** The two alignment rows replayed from a path: one per word, with a gap
    wherever the path does not consume a letter of that word. */
module Alignment {
  import opened Paths

  /** The gap marker. */
  const Gap: char := '_'

  /** The row printed for `word`: one column per move, a gap at each `gap` move
      and otherwise the next letter of the word. */
  function GappedRow(word: string, path: seq<Move>, gap: Move): string
    requires Consumed(path, gap) <= |word|
  {
    if path == [] then []
    else
      var init := path[..|path| - 1];
      GappedRow(word, init, gap) + [if path[|path| - 1] == gap then Gap else word[Consumed(init, gap)]]
  }

  /** The row with its gaps deleted. */
  function RemoveGaps(row: string): string
  {
    if row == [] then []
    else RemoveGaps(row[..|row| - 1]) + (if row[|row| - 1] == Gap then [] else [row[|row| - 1]])
  }

  /** Replays the path against one word. The first row skips the letters at Down
      moves and the second row at Right moves, so both are this loop with `gap`
      set to Down and to Right. */
  method AlignWord(word: string, path: seq<Move>, gap: Move) returns (row: string)
    requires Consumed(path, gap) <= |word|
    ensures row == GappedRow(word, path, gap)
  {
    var wordIndex := 0;
    row := [];
    for i := 0 to |path|
      invariant wordIndex == Consumed(path[..i], gap) <= Consumed(path, gap)
      invariant row == GappedRow(word, path[..i], gap)
    {
      assert path[..i + 1][..i] == path[..i];
      ConsumedAt(path, i, gap);
      if path[i] != gap {
        row := row + [word[wordIndex]];
      } else {
        row := row + [Gap];
        wordIndex := wordIndex - 1;
      }
      wordIndex := wordIndex + 1;
    }
    assert path[..|path|] == path;
  }

  /** A gapped row has one column per move: the gap marker at each `gap` move
      and otherwise the letter after those already consumed. */
  lemma {:induction false} GappedRowAt(word: string, path: seq<Move>, gap: Move, k: nat)
    requires Consumed(path, gap) <= |word|
    requires k < |path|
    ensures Consumed(path[..k], gap) + (if path[k] == gap then 0 else 1) <= Consumed(path, gap)
    ensures |GappedRow(word, path, gap)| == |path|
    ensures GappedRow(word, path, gap)[k] ==
      if path[k] == gap then Gap else word[Consumed(path[..k], gap)]
  {
    ConsumedAt(path, k, gap);
    var init := path[..|path| - 1];
    if k < |init| {
      assert init[..k] == path[..k];
      GappedRowAt(word, init, gap, k);
    } else {
      assert path[..k] == init;
      GappedRowLength(word, init, gap);
    }
  }

  lemma {:induction false} GappedRowLength(word: string, path: seq<Move>, gap: Move)
    requires Consumed(path, gap) <= |word|
    ensures |GappedRow(word, path, gap)| == |path|
  {
    if path != [] {
      GappedRowLength(word, path[..|path| - 1], gap);
    }
  }

  /** When the word holds no gap marker, a column is a gap exactly at the `gap` moves. */
  lemma GapsExactly(word: string, path: seq<Move>, gap: Move, k: nat)
    requires Consumed(path, gap) <= |word|
    requires Gap !in word
    requires k < |path|
    ensures |GappedRow(word, path, gap)| == |path|
    ensures GappedRow(word, path, gap)[k] == Gap <==> path[k] == gap
  {
    GappedRowAt(word, path, gap, k);
  }

  /** Deleting the gaps gives back the letters the path consumed. */
  lemma {:induction false} RemoveGapsRoundTrip(word: string, path: seq<Move>, gap: Move)
    requires Consumed(path, gap) <= |word|
    requires Gap !in word
    ensures RemoveGaps(GappedRow(word, path, gap)) == word[..Consumed(path, gap)]
  {
    if path != [] {
      var init := path[..|path| - 1];
      var row := GappedRow(word, init, gap);
      var c := if path[|path| - 1] == gap then Gap else word[Consumed(init, gap)];
      assert (row + [c])[..|row|] == row;
      RemoveGapsRoundTrip(word, init, gap);
      if c != Gap {
        assert word[..Consumed(init, gap) + 1] == word[..Consumed(init, gap)] + [c];
      }
    }
  }

  /** A row without gap markers is left as it is by deleting the gaps. */
  lemma {:induction false} RemoveGapsNone(row: string)
    requires Gap !in row
    ensures RemoveGaps(row) == row
  {
    if row != [] {
      var init := row[..|row| - 1];
      assert row == init + [row[|row| - 1]];
      assert forall c :: c in init ==> c in row;
      RemoveGapsNone(init);
    }
  }

  /** A path that never skips the word and consumes all of it prints the word itself. */
  lemma WholeWordRow(word: string, path: seq<Move>, gap: Move)
    requires Consumed(path, gap) == |word|
    requires Gap !in word
    requires forall k :: 0 <= k < |path| ==> path[k] != gap
    ensures GappedRow(word, path, gap) == word
  {
    var row := GappedRow(word, path, gap);
    GappedRowLength(word, path, gap);
    forall k | 0 <= k < |path|
      ensures row[k] != Gap
    {
      GapsExactly(word, path, gap, k);
    }
    RemoveGapsRoundTrip(word, path, gap);
    RemoveGapsNone(row);
    assert word[..|word|] == word;
  }
}
