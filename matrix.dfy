/** The edit-distance matrix: a grid of cells filled by one row-major sweep,
    then searched for an arrow path from the top-left to the bottom-right cell. */
module Matrix {
  import opened Paths
  import opened Distance

  /** One matrix element. The arrow flags sit on the predecessor and point
      forward to the cell that took its value from this one. */
  datatype Cell = Cell(value: int, rightArrow: bool, downArrow: bool, diagonalArrow: bool, exhausted: bool)

  /** A freshly constructed element. */
  const Unset := Cell(-1, false, false, false, false)

  /** Whether (p, q) comes before (i, j) in row-major order. */
  predicate Before(p: int, q: int, i: int, j: int)
  {
    p < i || (p == i && q < j)
  }

  /** Whether (p, q) is the left, top-left or top neighbour of (i, j). */
  predicate Predecessor(p: int, q: int, i: int, j: int)
  {
    (p == i && q == j - 1) || (p == i - 1 && q == j - 1) || (p == i - 1 && q == j)
  }

  /** The two cells agree on everything but the exhausted flag. */
  predicate SameButExhausted(c: Cell, d: Cell)
  {
    c.value == d.value && c.rightArrow == d.rightArrow && c.downArrow == d.downArrow && c.diagonalArrow == d.diagonalArrow
  }

  class EditMatrix {
    const first: string
    const second: string
    const height: nat
    const width: nat
    const grid: array2<Cell>

    ghost predicate Shape()
    {
      height == |second| + 1 && width == |first| + 1 &&
      grid.Length0 == height && grid.Length1 == width
    }

    /** The cell (p, q) once the sweep is complete. */
    ghost function Filled(p: nat, q: nat): Cell
      requires Shape() && p < height && q < width
    {
      Cell(Lev(first, second, p, q),
           RightArrow(first, second, p, q),
           DownArrow(first, second, p, q),
           DiagonalArrow(first, second, p, q),
           false)
    }

    /** The cell (p, q) once the sweep has processed every cell before (i, j):
        its value is written if it was processed, and each arrow is set if the one
        cell that can set it was processed and chose this cell. */
    ghost function Expected(p: nat, q: nat, i: int, j: int): Cell
      requires Shape() && p < height && q < width
    {
      var done := Filled(p, q);
      Cell(if Before(p, q, i, j) then done.value else -1,
           Before(p, q + 1, i, j) && done.rightArrow,
           Before(p + 1, q, i, j) && done.downArrow,
           Before(p + 1, q + 1, i, j) && done.diagonalArrow,
           false)
    }

    ghost predicate Partial(i: int, j: int)
      reads grid
      requires Shape()
    {
      forall p: nat, q: nat :: p < height && q < width ==> grid[p, q] == Expected(p, q, i, j)
    }

    /** The state the sweep leaves behind. */
    ghost predicate Built()
      reads grid
    {
      Shape() && forall p: nat, q: nat :: p < height && q < width ==> grid[p, q] == Filled(p, q)
    }

    /** Values and arrows are those of the sweep; exhausted flags may be set. */
    ghost predicate Searched()
      reads grid
    {
      Shape() && forall p: nat, q: nat :: p < height && q < width ==> grid[p, q].(exhausted := false) == Filled(p, q)
    }

    /** Every exhausted cell is not the bottom-right one, and every cell its arrows point to is exhausted too. */
    ghost predicate DeadEndsClosed()
      reads grid
      requires Shape()
    {
      forall p: nat, q: nat :: p < height && q < width && grid[p, q].exhausted ==>
        (p != height - 1 || q != width - 1) &&
        (grid[p, q].rightArrow ==> q + 1 < width && grid[p, q + 1].exhausted) &&
        (grid[p, q].diagonalArrow ==> p + 1 < height && q + 1 < width && grid[p + 1, q + 1].exhausted) &&
        (grid[p, q].downArrow ==> p + 1 < height && grid[p + 1, q].exhausted)
    }

    /** The move the search takes out of (i, j): the first arrow, in the order
        Right, Diagonal, Down, whose target is not exhausted. */
    ghost function Choose(i: int, j: int): Option<Move>
      reads grid
      requires Shape()
    {
      if !(0 <= i < height && 0 <= j < width) then None
      else if grid[i, j].rightArrow && j + 1 < width && !grid[i, j + 1].exhausted then Some(Right)
      else if grid[i, j].diagonalArrow && i + 1 < height && j + 1 < width && !grid[i + 1, j + 1].exhausted then Some(Diagonal)
      else if grid[i, j].downArrow && i + 1 < height && !grid[i + 1, j].exhausted then Some(Down)
      else None
    }

    /** Every move of `path` is the one the search chooses at the cell it leaves. */
    ghost predicate Greedy(path: seq<Move>)
      reads grid
      requires Shape()
    {
      forall k {:trigger Choose(Rows(path[..k]), Cols(path[..k]))} :: 0 <= k < |path| ==> Choose(Rows(path[..k]), Cols(path[..k])) == Some(path[k])
    }

    constructor (firstWord: string, secondWord: string)
      ensures first == firstWord && second == secondWord
      ensures Shape() && fresh(grid)
      ensures forall p, q :: 0 <= p < height && 0 <= q < width ==> grid[p, q] == Unset
    {
      first, second := firstWord, secondWord;
      width, height := |firstWord| + 1, |secondWord| + 1;
      grid := new Cell[|secondWord| + 1, |firstWord| + 1]((p, q) => Unset);
    }

    /** Fills every cell in row-major order. */
    method Build()
      requires Shape()
      requires forall p, q :: 0 <= p < height && 0 <= q < width ==> grid[p, q] == Unset
      modifies grid
      ensures Built()
    {
      for i := 0 to height
        invariant Partial(i, 0)
      {
        for j := 0 to width
          invariant Partial(i, j)
        {
          FillCell(i, j);
        }
        RowDone(i);
      }
      SweepDone();
    }

    /** One step of the sweep: writes the value of (i, j) and the arrows of the predecessors it took it from. */
    method FillCell(i: nat, j: nat)
      requires Shape() && i < height && j < width
      requires Partial(i, j)
      modifies grid
      ensures Partial(i, j + 1)
    {
      Advance(i, j);
      if i == 0 && j == 0 {
        grid[i, j] := grid[i, j].(value := 0);
      } else if i == 0 {
        grid[i, j] := grid[i, j].(value := grid[i, j - 1].value + 1);
        grid[i, j - 1] := grid[i, j - 1].(rightArrow := true);
      } else if j == 0 {
        grid[i, j] := grid[i, j].(value := grid[i - 1, j].value + 1);
        grid[i - 1, j] := grid[i - 1, j].(downArrow := true);
      } else if second[i - 1] == first[j - 1] {
        grid[i, j] := grid[i, j].(value := grid[i - 1, j - 1].value);
        grid[i - 1, j - 1] := grid[i - 1, j - 1].(diagonalArrow := true);
      } else {
        MismatchCell(i, j);
      }
    }

    /** The sweep step for an interior cell whose letters differ: the smallest
        predecessor value plus one, and an arrow on every predecessor holding it. */
    method MismatchCell(i: nat, j: nat)
      requires Shape() && 1 <= i < height && 1 <= j < width
      requires Mismatch(first, second, i, j)
      requires Partial(i, j)
      modifies grid
      ensures Partial(i, j + 1)
    {
      Advance(i, j);
      ArrowsInto(first, second, i, j);
      var left, diagonal, top := grid[i, j - 1].value, grid[i - 1, j - 1].value, grid[i - 1, j].value;
      var smallest := Min(left, Min(diagonal, top));
      assert smallest == Smallest(first, second, i, j);
      assert smallest + 1 == Lev(first, second, i, j);
      ghost var setRight, setDiagonal, setDown := left == smallest, diagonal == smallest, top == smallest;
      assert grid[i, j - 1].(rightArrow := setRight) == Expected(i, j - 1, i, j + 1);
      assert grid[i - 1, j - 1].(diagonalArrow := setDiagonal) == Expected(i - 1, j - 1, i, j + 1);
      assert grid[i - 1, j].(downArrow := setDown) == Expected(i - 1, j, i, j + 1);
      grid[i, j] := grid[i, j].(value := smallest + 1);
      MarkSmallest(i, j, left, diagonal, top, smallest);
    }

    /** The if/else cascade of a differing interior cell: sets the arrow on exactly
        those predecessors whose value is the smallest, whatever the pattern of ties. */
    method MarkSmallest(i: nat, j: nat, left: int, diagonal: int, top: int, smallest: int)
      requires Shape() && 1 <= i < height && 1 <= j < width
      requires smallest == Min(left, Min(diagonal, top))
      modifies grid
      ensures grid[i, j - 1] == old(grid[i, j - 1]).(rightArrow := old(grid[i, j - 1].rightArrow) || left == smallest)
      ensures grid[i - 1, j - 1] == old(grid[i - 1, j - 1]).(diagonalArrow := old(grid[i - 1, j - 1].diagonalArrow) || diagonal == smallest)
      ensures grid[i - 1, j] == old(grid[i - 1, j]).(downArrow := old(grid[i - 1, j].downArrow) || top == smallest)
      ensures forall p, q :: 0 <= p < height && 0 <= q < width && !Predecessor(p, q, i, j) ==> grid[p, q] == old(grid[p, q])
    {
      if left == smallest && diagonal == smallest && top == smallest {
        grid[i, j - 1] := grid[i, j - 1].(rightArrow := true);
        grid[i - 1, j - 1] := grid[i - 1, j - 1].(diagonalArrow := true);
        grid[i - 1, j] := grid[i - 1, j].(downArrow := true);
      } else if left == smallest && diagonal == smallest {
        grid[i, j - 1] := grid[i, j - 1].(rightArrow := true);
        grid[i - 1, j - 1] := grid[i - 1, j - 1].(diagonalArrow := true);
      } else if diagonal == smallest && top == smallest {
        grid[i - 1, j - 1] := grid[i - 1, j - 1].(diagonalArrow := true);
        grid[i - 1, j] := grid[i - 1, j].(downArrow := true);
      } else if left == smallest && top == smallest {
        grid[i, j - 1] := grid[i, j - 1].(rightArrow := true);
        grid[i - 1, j] := grid[i - 1, j].(downArrow := true);
      } else if smallest == left {
        grid[i, j - 1] := grid[i, j - 1].(rightArrow := true);
      } else if smallest == diagonal {
        grid[i - 1, j - 1] := grid[i - 1, j - 1].(diagonalArrow := true);
      } else {
        grid[i - 1, j] := grid[i - 1, j].(downArrow := true);
      }
    }

    /** Finds the path the alignment is printed from. Its cost is the value of
        the bottom-right cell, and nothing but exhausted flags changes. */
    method FindPath() returns (path: seq<Move>)
      requires Built()
      modifies grid
      ensures Searched()
      ensures !grid[0, 0].exhausted && !grid[height - 1, width - 1].exhausted
      ensures Rows(path) == |second| && Cols(path) == |first|
      ensures Greedy(path)
      ensures FollowsArrows(first, second, path)
      ensures Cost(first, second, path) == grid[height - 1, width - 1].value
      ensures DeadEndsClosed()
      ensures Prioritized(first, second, path)
    {
      BuiltArrows();
      path := Search();
      GreedyFollowsArrows(path);
      ArrowPathCost(first, second, path);
      GreedyPrioritized(path);
    }

    /** Walks from (0, 0) along arrows in the order Right, Diagonal, Down, avoiding
        exhausted cells; when stuck, exhausts the current cell and starts again. */
    method Search() returns (path: seq<Move>)
      requires Shape() && ArrowsInside() && Entered()
      requires forall p, q :: 0 <= p < height && 0 <= q < width ==> !grid[p, q].exhausted
      modifies grid
      ensures forall p, q :: 0 <= p < height && 0 <= q < width ==> SameButExhausted(grid[p, q], old(grid[p, q]))
      ensures !grid[0, 0].exhausted && !grid[height - 1, width - 1].exhausted
      ensures Rows(path) == |second| && Cols(path) == |first|
      ensures Greedy(path)
      ensures DeadEndsClosed()
    {
      var pathFound := false;
      var i, j := 0, 0;
      path := [];
      while !pathFound
        invariant 0 <= i < height && 0 <= j < width
        invariant forall p, q :: 0 <= p < height && 0 <= q < width ==> SameButExhausted(grid[p, q], old(grid[p, q]))
        invariant ArrowsInside() && Entered() && DeadEndsClosed()
        invariant !grid[0, 0].exhausted && !grid[i, j].exhausted
        invariant Rows(path) == i && Cols(path) == j
        invariant Greedy(path)
        invariant pathFound ==> i == height - 1 && j == width - 1
        decreases Unexhausted(), height + width - i - j, if pathFound then 0 else 1
      {
        if i == height - 1 && j == width - 1 {
          pathFound := true;
        } else if grid[i, j].rightArrow && !grid[i, j + 1].exhausted {
          GreedyStep(path, Right);
          path := path + [Right];
          j := j + 1;
        } else if grid[i, j].diagonalArrow && !grid[i + 1, j + 1].exhausted {
          GreedyStep(path, Diagonal);
          path := path + [Diagonal];
          i, j := i + 1, j + 1;
        } else if grid[i, j].downArrow && !grid[i + 1, j].exhausted {
          GreedyStep(path, Down);
          path := path + [Down];
          i := i + 1;
        } else {
          MarkExhausted(i, j);
          i, j := 0, 0;
          path := [];
        }
      }
    }

    /** The restart step: a cell that is not the bottom-right one and has no usable arrow is exhausted. */
    method MarkExhausted(i: nat, j: nat)
      requires Shape() && ArrowsInside() && Entered() && DeadEndsClosed()
      requires i < height && j < width && (i != height - 1 || j != width - 1)
      requires !grid[i, j].exhausted && Choose(i, j) == None
      modifies grid
      ensures grid[i, j] == old(grid[i, j]).(exhausted := true)
      ensures forall p, q :: 0 <= p < height && 0 <= q < width && (p != i || q != j) ==> grid[p, q] == old(grid[p, q])
      ensures forall p, q :: 0 <= p < height && 0 <= q < width ==> SameButExhausted(grid[p, q], old(grid[p, q]))
      ensures ArrowsInside() && Entered() && DeadEndsClosed()
      ensures !grid[0, 0].exhausted
      ensures Unexhausted() < old(Unexhausted())
    {
      ghost var before := Unexhausted();
      assert (i, j) in before;
      grid[i, j] := grid[i, j].(exhausted := true);
      assert Unexhausted() == before - {(i, j)};
      forall p: nat, q: nat | p < height && q < width && (p != 0 || q != 0)
        ensures HasIncoming(p, q)
      {
        assert old(HasIncoming(p, q));
      }
      OriginLive();
    }

    /** The cells not yet exhausted; every restart of the search removes one. */
    ghost function Unexhausted(): set<(int, int)>
      reads grid
      requires Shape()
    {
      set p, q | 0 <= p < height && 0 <= q < width && !grid[p, q].exhausted :: (p, q)
    }

    /** No arrow points outside the matrix. */
    ghost predicate ArrowsInside()
      reads grid
      requires Shape()
    {
      forall p: nat, q: nat :: p < height && q < width ==>
        (grid[p, q].rightArrow ==> q + 1 < width) &&
        (grid[p, q].diagonalArrow ==> p + 1 < height && q + 1 < width) &&
        (grid[p, q].downArrow ==> p + 1 < height)
    }

    /** Every cell other than (0, 0) has an arrow coming into it. */
    ghost predicate Entered()
      reads grid
      requires Shape()
    {
      forall p: nat, q: nat :: p < height && q < width && (p != 0 || q != 0) ==> HasIncoming(p, q)
    }

    ghost predicate HasIncoming(p: nat, q: nat)
      reads grid
      requires Shape() && p < height && q < width
    {
      (q >= 1 && grid[p, q - 1].rightArrow) ||
      (p >= 1 && grid[p - 1, q].downArrow) ||
      (p >= 1 && q >= 1 && grid[p - 1, q - 1].diagonalArrow)
    }

    /** The arrows the sweep plants stay inside the matrix and enter every cell but (0, 0). */
    lemma BuiltArrows()
      requires Built()
      ensures ArrowsInside() && Entered()
    {
      forall p: nat, q: nat | p < height && q < width && (p != 0 || q != 0)
        ensures HasIncoming(p, q)
      {
        Incoming(first, second, p, q);
      }
    }

    /** Extending a greedy path by the move the search chooses at its end keeps it greedy. */
    lemma GreedyStep(path: seq<Move>, m: Move)
      requires Shape() && Greedy(path)
      requires Choose(Rows(path), Cols(path)) == Some(m)
      ensures Greedy(path + [m])
      ensures Rows(path + [m]) == RowAfter(Rows(path), m) && Cols(path + [m]) == ColAfter(Cols(path), m)
    {
      var path' := path + [m];
      assert path'[..|path|] == path;
      forall k | 0 <= k < |path|
        ensures path'[..k] == path[..k]
      {
      }
      ConsumedSnoc(path, m, Right);
      ConsumedSnoc(path, m, Down);
    }

    /** A greedy path uses only arrows, and the arrows are those the sweep planted. */
    lemma GreedyFollowsArrows(path: seq<Move>)
      requires Searched() && Greedy(path)
      ensures FollowsArrows(first, second, path)
    {
      forall k | 0 <= k < |path|
        ensures Rows(path[..k]) <= |second| && Cols(path[..k]) <= |first|
        ensures OnArrow(first, second, Rows(path[..k]), Cols(path[..k]), path[k])
      {
        var i, j := Rows(path[..k]), Cols(path[..k]);
        assert Choose(i, j) == Some(path[k]);
        assert grid[i, j].(exhausted := false) == Filled(i, j);
      }
    }

    /** An exhausted cell of the searched matrix is a true dead end: no arrow path
        leads from it to the corner. */
    lemma {:induction false} ExhaustedDead(p: nat, q: nat)
      requires Searched() && DeadEndsClosed()
      requires p < height && q < width && grid[p, q].exhausted
      ensures !ReachesCorner(first, second, p, q)
      decreases height - p + width - q
    {
      assert grid[p, q].(exhausted := false) == Filled(p, q);
      if RightArrow(first, second, p, q) {
        ExhaustedDead(p, q + 1);
      }
      if DiagonalArrow(first, second, p, q) {
        ExhaustedDead(p + 1, q + 1);
      }
      if DownArrow(first, second, p, q) {
        ExhaustedDead(p + 1, q);
      }
    }

    /** A greedy path to the corner over the searched matrix takes the preferred move
        at every step: each arrow it passes over leads to an exhausted cell, hence to a dead end. */
    lemma GreedyPrioritized(path: seq<Move>)
      requires Searched() && DeadEndsClosed() && Greedy(path)
      requires FollowsArrows(first, second, path)
      requires Rows(path) == |second| && Cols(path) == |first|
      ensures Prioritized(first, second, path)
    {
      forall k | 0 <= k < |path|
        ensures Rows(path[..k]) <= |second| && Cols(path[..k]) <= |first|
        ensures Preferred(first, second, Rows(path[..k]), Cols(path[..k])) == Some(path[k])
      {
        var i, j := Rows(path[..k]), Cols(path[..k]);
        SuffixReaches(first, second, path, k + 1);
        ConsumedAt(path, k, Right);
        ConsumedAt(path, k, Down);
        assert Choose(i, j) == Some(path[k]);
        assert grid[i, j].(exhausted := false) == Filled(i, j);
        if j + 1 < width && grid[i, j + 1].exhausted {
          ExhaustedDead(i, j + 1);
        }
        if i + 1 < height && j + 1 < width && grid[i + 1, j + 1].exhausted {
          ExhaustedDead(i + 1, j + 1);
        }
        if i + 1 < height && grid[i + 1, j].exhausted {
          ExhaustedDead(i + 1, j);
        }
      }
    }

    /** If (0, 0) were exhausted, every cell would be: each cell has an arrow coming
        in from a cell nearer the origin, and exhausted cells only point at exhausted cells. */
    lemma {:induction false} ExhaustedSpread(p: nat, q: nat)
      requires Shape() && Entered() && DeadEndsClosed()
      requires grid[0, 0].exhausted
      requires p < height && q < width
      ensures grid[p, q].exhausted
      decreases p + q
    {
      if p != 0 || q != 0 {
        assert HasIncoming(p, q);
        if q >= 1 && grid[p, q - 1].rightArrow {
          ExhaustedSpread(p, q - 1);
        } else if p >= 1 && grid[p - 1, q].downArrow {
          ExhaustedSpread(p - 1, q);
        } else {
          ExhaustedSpread(p - 1, q - 1);
        }
      }
    }

    /** While the exhausted cells are closed under arrows, (0, 0) is not exhausted. */
    lemma OriginLive()
      requires Shape() && Entered() && DeadEndsClosed()
      ensures !grid[0, 0].exhausted
    {
      if grid[0, 0].exhausted {
        ExhaustedSpread(height - 1, width - 1);
      }
    }

    /** Processing (i, j) changes the value of (i, j) and the one arrow of each predecessor that points at it. */
    lemma Advance(i: nat, j: nat)
      requires Shape() && i < height && j < width
      ensures Expected(i, j, i, j + 1) == Expected(i, j, i, j).(value := Lev(first, second, i, j))
      ensures j >= 1 ==> Expected(i, j - 1, i, j + 1) == Expected(i, j - 1, i, j).(rightArrow := RightArrow(first, second, i, j - 1))
      ensures i >= 1 ==> Expected(i - 1, j, i, j + 1) == Expected(i - 1, j, i, j).(downArrow := DownArrow(first, second, i - 1, j))
      ensures i >= 1 && j >= 1 ==>
        Expected(i - 1, j - 1, i, j + 1) == Expected(i - 1, j - 1, i, j).(diagonalArrow := DiagonalArrow(first, second, i - 1, j - 1))
      ensures forall p: nat, q: nat :: p < height && q < width && !((p == i || p + 1 == i) && (q == j || q + 1 == j)) ==>
        Expected(p, q, i, j + 1) == Expected(p, q, i, j)
    {
    }

    /** Finishing row i is the same as starting row i + 1. */
    lemma RowDone(i: nat)
      requires Shape() && i < height
      ensures forall p: nat, q: nat :: p < height && q < width ==> Expected(p, q, i, width) == Expected(p, q, i + 1, 0)
    {
    }

    /** Once every row is processed, each cell is as the sweep leaves it. */
    lemma SweepDone()
      requires Shape()
      ensures forall p: nat, q: nat :: p < height && q < width ==> Expected(p, q, height, 0) == Filled(p, q)
    {
    }
  }
}
