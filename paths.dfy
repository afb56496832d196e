/** Moves through the edit-distance matrix and what a sequence of them consumes. */
module Paths {

  /** One step of an alignment path from cell (0, 0): Right consumes a letter of
      the first word (the columns), Down a letter of the second word (the rows),
      Diagonal one letter of each. */
  datatype Move = Right | Diagonal | Down

  datatype Option<T> = None | Some(value: T)

  /** The number of moves of `path` other than `skip`. */
  function Consumed(path: seq<Move>, skip: Move): nat
  {
    if path == [] then 0
    else Consumed(path[..|path| - 1], skip) + (if path[|path| - 1] == skip then 0 else 1)
  }

  /** The row a path from (0, 0) ends in: its Down and Diagonal moves. */
  function Rows(path: seq<Move>): nat
  {
    Consumed(path, Right)
  }

  /** The column a path from (0, 0) ends in: its Right and Diagonal moves. */
  function Cols(path: seq<Move>): nat
  {
    Consumed(path, Down)
  }

  lemma ConsumedSnoc(path: seq<Move>, m: Move, skip: Move)
    ensures Consumed(path + [m], skip) == Consumed(path, skip) + (if m == skip then 0 else 1)
  {
    assert (path + [m])[..|path|] == path;
  }

  /** Consumed counts exactly the moves that are not `skip`. */
  lemma {:induction false} ConsumedCounts(path: seq<Move>, skip: Move)
    ensures Consumed(path, skip) == |path| - multiset(path)[skip]
  {
    if path != [] {
      var init := path[..|path| - 1];
      assert path == init + [path[|path| - 1]];
      ConsumedCounts(init, skip);
    }
  }

  /** A prefix of a path consumes no more than the whole path. */
  lemma {:induction false} ConsumedPrefix(path: seq<Move>, k: nat, skip: Move)
    requires k <= |path|
    ensures Consumed(path[..k], skip) <= Consumed(path, skip)
  {
    if k < |path| {
      var init := path[..|path| - 1];
      assert path[..k] == init[..k];
      ConsumedPrefix(init, k, skip);
    } else {
      assert path[..k] == path;
    }
  }

  /** The move at position k is counted right after the prefix before it. */
  lemma ConsumedAt(path: seq<Move>, k: nat, skip: Move)
    requires k < |path|
    ensures Consumed(path[..k + 1], skip) == Consumed(path[..k], skip) + (if path[k] == skip then 0 else 1)
    ensures Consumed(path[..k + 1], skip) <= Consumed(path, skip)
  {
    assert path[..k + 1][..k] == path[..k];
    ConsumedPrefix(path, k + 1, skip);
  }

  /** A non-empty prefix is the shorter prefix followed by one move. */
  lemma PrefixSnoc(path: seq<Move>, k: nat)
    requires 0 < k <= |path|
    ensures path[..k] == path[..k - 1] + [path[k - 1]]
  {
  }
}
