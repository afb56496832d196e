/** The recurrence the matrix sweep computes, the arrows it plants, and the cost
    of a path through the matrix. Row i ranges over the second word, column j
    over the first word. */
module Distance {
  import opened Paths

  /** std::min on two values. */
  function Min(a: int, b: int): (r: int)
    ensures r <= a && r <= b
    ensures r == a || r == b
  {
    if b < a then b else a
  }

  /** The value the sweep stores in cell (i, j). */
  function Lev(first: string, second: string, i: nat, j: nat): nat
    requires i <= |second| && j <= |first|
    decreases i + j
  {
    if i == 0 && j == 0 then 0
    else if i == 0 then Lev(first, second, i, j - 1) + 1
    else if j == 0 then Lev(first, second, i - 1, j) + 1
    else if second[i - 1] == first[j - 1] then Lev(first, second, i - 1, j - 1)
    else Min(Lev(first, second, i, j - 1), Min(Lev(first, second, i - 1, j - 1), Lev(first, second, i - 1, j))) + 1
  }

  /** The smallest of the left, top-left and top values of an interior cell. */
  function Smallest(first: string, second: string, i: nat, j: nat): nat
    requires 1 <= i <= |second| && 1 <= j <= |first|
  {
    Min(Lev(first, second, i, j - 1), Min(Lev(first, second, i - 1, j - 1), Lev(first, second, i - 1, j)))
  }

  /** Whether the letters of interior cell (i, j) differ, so that it takes the smallest predecessor plus one. */
  predicate Mismatch(first: string, second: string, i: nat, j: nat)
    requires 1 <= i <= |second| && 1 <= j <= |first|
  {
    second[i - 1] != first[j - 1]
  }

  /** The right arrow of (i, j) is set by cell (i, j + 1) and by no other cell. */
  predicate RightArrow(first: string, second: string, i: nat, j: nat)
    requires i <= |second| && j <= |first|
  {
    j < |first| &&
    (i == 0 || (Mismatch(first, second, i, j + 1) && Lev(first, second, i, j) == Smallest(first, second, i, j + 1)))
  }

  /** The down arrow of (i, j) is set by cell (i + 1, j) and by no other cell. */
  predicate DownArrow(first: string, second: string, i: nat, j: nat)
    requires i <= |second| && j <= |first|
  {
    i < |second| &&
    (j == 0 || (Mismatch(first, second, i + 1, j) && Lev(first, second, i, j) == Smallest(first, second, i + 1, j)))
  }

  /** The diagonal arrow of (i, j) is set by cell (i + 1, j + 1) and by no other cell. */
  predicate DiagonalArrow(first: string, second: string, i: nat, j: nat)
    requires i <= |second| && j <= |first|
  {
    i < |second| && j < |first| &&
    (!Mismatch(first, second, i + 1, j + 1) || Lev(first, second, i, j) == Smallest(first, second, i + 1, j + 1))
  }

  /** The arrow of (i, j) in the direction of `m`. */
  predicate OnArrow(first: string, second: string, i: nat, j: nat, m: Move)
    requires i <= |second| && j <= |first|
  {
    match m
    case Right => RightArrow(first, second, i, j)
    case Diagonal => DiagonalArrow(first, second, i, j)
    case Down => DownArrow(first, second, i, j)
  }

  function RowAfter(i: nat, m: Move): nat
  {
    if m == Right then i else i + 1
  }

  function ColAfter(j: nat, m: Move): nat
  {
    if m == Down then j else j + 1
  }

  /** What leaving (i, j) by `m` costs: nothing for a diagonal onto matching letters, one otherwise. */
  function StepCost(first: string, second: string, i: nat, j: nat, m: Move): nat
    requires m == Diagonal ==> i < |second| && j < |first|
  {
    if m == Diagonal && second[i] == first[j] then 0 else 1
  }

  /** The number of Right and Down moves plus the number of Diagonal moves between differing letters. */
  function Cost(first: string, second: string, path: seq<Move>): nat
    requires Rows(path) <= |second| && Cols(path) <= |first|
  {
    if path == [] then 0
    else
      var init := path[..|path| - 1];
      Cost(first, second, init) + StepCost(first, second, Rows(init), Cols(init), path[|path| - 1])
  }

  /** Every move of `path` follows an arrow of the cell it leaves. */
  ghost predicate FollowsArrows(first: string, second: string, path: seq<Move>)
  {
    forall k :: 0 <= k < |path| ==>
      Rows(path[..k]) <= |second| && Cols(path[..k]) <= |first| &&
      OnArrow(first, second, Rows(path[..k]), Cols(path[..k]), path[k])
  }

  // ---------------------------------------------------------------------------
  // The values

  /** Row 0 holds the column index. */
  lemma {:induction false} FirstRow(first: string, second: string, j: nat)
    requires j <= |first|
    ensures Lev(first, second, 0, j) == j
  {
    if j > 0 {
      FirstRow(first, second, j - 1);
    }
  }

  /** Column 0 holds the row index. */
  lemma {:induction false} FirstColumn(first: string, second: string, i: nat)
    requires i <= |second|
    ensures Lev(first, second, i, 0) == i
  {
    if i > 0 {
      FirstColumn(first, second, i - 1);
    }
  }

  /** Horizontally and vertically adjacent values differ by at most one. */
  lemma {:induction false} Neighbours(first: string, second: string, i: nat, j: nat)
    requires i <= |second| && j <= |first|
    ensures j >= 1 ==> Lev(first, second, i, j) <= Lev(first, second, i, j - 1) + 1
    ensures j >= 1 ==> Lev(first, second, i, j - 1) <= Lev(first, second, i, j) + 1
    ensures i >= 1 ==> Lev(first, second, i, j) <= Lev(first, second, i - 1, j) + 1
    ensures i >= 1 ==> Lev(first, second, i - 1, j) <= Lev(first, second, i, j) + 1
    decreases i + j
  {
    if i == 0 {
      FirstRow(first, second, j);
      if j >= 1 {
        FirstRow(first, second, j - 1);
      }
    } else if j == 0 {
      FirstColumn(first, second, i);
      FirstColumn(first, second, i - 1);
    } else {
      Neighbours(first, second, i - 1, j);
      Neighbours(first, second, i, j - 1);
    }
  }

  /** A path's cost never falls below the value of the cell it ends in. */
  lemma {:induction false} LowerBound(first: string, second: string, path: seq<Move>)
    requires Rows(path) <= |second| && Cols(path) <= |first|
    ensures Lev(first, second, Rows(path), Cols(path)) <= Cost(first, second, path)
  {
    if path != [] {
      var init := path[..|path| - 1];
      var i, j := Rows(init), Cols(init);
      LowerBound(first, second, init);
      match path[|path| - 1]
      case Right => Neighbours(first, second, i, j + 1);
      case Down => Neighbours(first, second, i + 1, j);
      case Diagonal =>
    }
  }

  // ---------------------------------------------------------------------------
  // The arrows

  /** Along an arrow the value rises by exactly the cost of the step. */
  lemma ArrowStep(first: string, second: string, i: nat, j: nat, m: Move)
    requires i <= |second| && j <= |first|
    requires OnArrow(first, second, i, j, m)
    ensures RowAfter(i, m) <= |second| && ColAfter(j, m) <= |first|
    ensures Lev(first, second, RowAfter(i, m), ColAfter(j, m)) == Lev(first, second, i, j) + StepCost(first, second, i, j, m)
  {
  }

  /** Which arrows enter an interior cell: only the diagonal one when its letters match,
      otherwise exactly those from the predecessors holding the smallest value. */
  lemma ArrowsInto(first: string, second: string, i: nat, j: nat)
    requires 1 <= i <= |second| && 1 <= j <= |first|
    ensures !Mismatch(first, second, i, j) ==>
      DiagonalArrow(first, second, i - 1, j - 1) && !RightArrow(first, second, i, j - 1) && !DownArrow(first, second, i - 1, j)
    ensures Mismatch(first, second, i, j) ==>
      (RightArrow(first, second, i, j - 1) <==> Lev(first, second, i, j - 1) == Smallest(first, second, i, j)) &&
      (DiagonalArrow(first, second, i - 1, j - 1) <==> Lev(first, second, i - 1, j - 1) == Smallest(first, second, i, j)) &&
      (DownArrow(first, second, i - 1, j) <==> Lev(first, second, i - 1, j) == Smallest(first, second, i, j))
  {
  }

  /** Every cell other than (0, 0) has an arrow coming into it. */
  lemma Incoming(first: string, second: string, i: nat, j: nat)
    requires i <= |second| && j <= |first|
    requires i != 0 || j != 0
    ensures (j >= 1 && RightArrow(first, second, i, j - 1)) ||
            (i >= 1 && DownArrow(first, second, i - 1, j)) ||
            (i >= 1 && j >= 1 && DiagonalArrow(first, second, i - 1, j - 1))
  {
    if i >= 1 && j >= 1 {
      ArrowsInto(first, second, i, j);
    }
  }

  /** A path that follows arrows from (0, 0) costs exactly the value of the cell it ends in. */
  lemma {:induction false} ArrowPathCost(first: string, second: string, path: seq<Move>)
    requires FollowsArrows(first, second, path)
    ensures Rows(path) <= |second| && Cols(path) <= |first|
    ensures Cost(first, second, path) == Lev(first, second, Rows(path), Cols(path))
  {
    if path != [] {
      var init := path[..|path| - 1];
      FollowsInit(first, second, path);
      ArrowPathCost(first, second, init);
      ArrowStep(first, second, Rows(init), Cols(init), path[|path| - 1]);
    }
  }

  /** Dropping the last move of an arrow path leaves an arrow path, and the last
      move follows an arrow of the cell the rest ends in. */
  lemma FollowsInit(first: string, second: string, path: seq<Move>)
    requires FollowsArrows(first, second, path) && path != []
    ensures FollowsArrows(first, second, path[..|path| - 1])
    ensures Rows(path[..|path| - 1]) <= |second| && Cols(path[..|path| - 1]) <= |first|
    ensures OnArrow(first, second, Rows(path[..|path| - 1]), Cols(path[..|path| - 1]), path[|path| - 1])
  {
    var init := path[..|path| - 1];
    forall k | 0 <= k < |init|
      ensures init[..k] == path[..k] && init[k] == path[k]
    {
    }
  }

  // ---------------------------------------------------------------------------
  // Properties of the distance

  /** A word is at distance zero from itself. */
  lemma {:induction false} SameWord(word: string, k: nat)
    requires k <= |word|
    ensures Lev(word, word, k, k) == 0
  {
    if k > 0 {
      SameWord(word, k - 1);
    }
  }

  /** Swapping the two words transposes the matrix. */
  lemma {:induction false} Symmetric(first: string, second: string, i: nat, j: nat)
    requires i <= |second| && j <= |first|
    ensures Lev(first, second, i, j) == Lev(second, first, j, i)
    decreases i + j
  {
    if i == 0 && j == 0 {
    } else if i == 0 {
      Symmetric(first, second, i, j - 1);
    } else if j == 0 {
      Symmetric(first, second, i - 1, j);
    } else {
      Symmetric(first, second, i, j - 1);
      Symmetric(first, second, i - 1, j - 1);
      Symmetric(first, second, i - 1, j);
    }
  }

  /** The distance is at least the difference of the two prefix lengths. */
  lemma {:induction false} LengthGap(first: string, second: string, i: nat, j: nat)
    requires i <= |second| && j <= |first|
    ensures Lev(first, second, i, j) >= i - j && Lev(first, second, i, j) >= j - i
    decreases i + j
  {
    if i == 0 {
      FirstRow(first, second, j);
    } else if j == 0 {
      FirstColumn(first, second, i);
    } else {
      Neighbours(first, second, i, j);
      LengthGap(first, second, i, j - 1);
      LengthGap(first, second, i - 1, j);
    }
  }

  /** The distance is at most the sum of the two prefix lengths. */
  lemma {:induction false} LengthSum(first: string, second: string, i: nat, j: nat)
    requires i <= |second| && j <= |first|
    ensures Lev(first, second, i, j) <= i + j
  {
    if j == 0 {
      FirstColumn(first, second, i);
    } else {
      Neighbours(first, second, i, j);
      LengthSum(first, second, i, j - 1);
    }
  }

  /** The top-left value exceeds neither the left nor the top value by more than one. */
  lemma DiagonalBound(first: string, second: string, i: nat, j: nat)
    requires 1 <= i <= |second| && 1 <= j <= |first|
    ensures Lev(first, second, i - 1, j - 1) <= Lev(first, second, i, j - 1) + 1
    ensures Lev(first, second, i - 1, j - 1) <= Lev(first, second, i - 1, j) + 1
  {
    Neighbours(first, second, i, j - 1);
    Neighbours(first, second, i - 1, j);
  }

  /** The sweep's recurrence agrees with the textbook Wagner-Fischer one, which
      also takes the minimum when the letters match. */
  lemma TextbookRecurrence(first: string, second: string, i: nat, j: nat)
    requires 1 <= i <= |second| && 1 <= j <= |first|
    ensures Lev(first, second, i, j) ==
      Min(Lev(first, second, i, j - 1) + 1,
          Min(Lev(first, second, i - 1, j - 1) + (if Mismatch(first, second, i, j) then 1 else 0),
              Lev(first, second, i - 1, j) + 1))
  {
    DiagonalBound(first, second, i, j);
  }

  /** The three ways an interior value can be reached, each an upper bound and one of them exact. */
  lemma Options(first: string, second: string, i: nat, j: nat)
    requires 1 <= i <= |second| && 1 <= j <= |first|
    ensures var v, d := Lev(first, second, i, j), if Mismatch(first, second, i, j) then 1 else 0;
      v <= Lev(first, second, i, j - 1) + 1 && v <= Lev(first, second, i - 1, j) + 1 &&
      v <= Lev(first, second, i - 1, j - 1) + d &&
      (v == Lev(first, second, i, j - 1) + 1 || v == Lev(first, second, i - 1, j) + 1 ||
       v == Lev(first, second, i - 1, j - 1) + d)
  {
    TextbookRecurrence(first, second, i, j);
  }

  /** The triangle inequality on prefixes: the distance from a[..x] to c[..z] is
      at most the distance from a[..x] to b[..y] plus that from b[..y] to c[..z]. */
  lemma {:induction false} Triangle(a: string, b: string, c: string, x: nat, y: nat, z: nat)
    requires x <= |a| && y <= |b| && z <= |c|
    ensures Lev(a, c, z, x) <= Lev(a, b, y, x) + Lev(b, c, z, y)
    decreases x + y + z, 1
  {
    if x == 0 {
      FirstColumn(a, c, z);
      FirstColumn(a, b, y);
      LengthGap(b, c, z, y);
    } else if z == 0 {
      FirstRow(a, c, x);
      FirstRow(b, c, y);
      LengthGap(a, b, y, x);
    } else if y == 0 {
      FirstRow(a, b, x);
      FirstColumn(b, c, z);
      LengthSum(a, c, z, x);
    } else {
      TriangleStep(a, b, c, x, y, z);
    }
  }

  /** The induction step of Triangle: follow whichever way each of the two given
      distances was reached and combine the two last steps. */
  lemma {:induction false} TriangleStep(a: string, b: string, c: string, x: nat, y: nat, z: nat)
    requires 1 <= x <= |a| && 1 <= y <= |b| && 1 <= z <= |c|
    ensures Lev(a, c, z, x) <= Lev(a, b, y, x) + Lev(b, c, z, y)
    decreases x + y + z, 0
  {
    Options(a, b, y, x);
    Options(b, c, z, y);
    Options(a, c, z, x);
    var ab, bc := Lev(a, b, y, x), Lev(b, c, z, y);
    if ab == Lev(a, b, y, x - 1) + 1 {
      Triangle(a, b, c, x - 1, y, z);
    } else if bc == Lev(b, c, z - 1, y) + 1 {
      Triangle(a, b, c, x, y, z - 1);
    } else if ab == Lev(a, b, y - 1, x) + 1 {
      if bc == Lev(b, c, z, y - 1) + 1 {
        Triangle(a, b, c, x, y - 1, z);
      } else {
        Triangle(a, b, c, x, y - 1, z - 1);
      }
    } else {
      if bc == Lev(b, c, z, y - 1) + 1 {
        Triangle(a, b, c, x - 1, y - 1, z);
      } else {
        Triangle(a, b, c, x - 1, y - 1, z - 1);
      }
    }
  }

  /** A path pays one for every Right and every Down move. */
  lemma {:induction false} GapsCost(first: string, second: string, path: seq<Move>)
    requires Rows(path) <= |second| && Cols(path) <= |first|
    ensures multiset(path)[Right] + multiset(path)[Down] <= Cost(first, second, path)
  {
    if path != [] {
      var init := path[..|path| - 1];
      assert path == init + [path[|path| - 1]];
      GapsCost(first, second, init);
    }
  }

  // ---------------------------------------------------------------------------
  // The path the priority order settles on

  /** Whether some arrow path leads from (i, j) to the bottom-right cell. */
  predicate ReachesCorner(first: string, second: string, i: nat, j: nat)
    requires i <= |second| && j <= |first|
    decreases |second| - i + |first| - j
  {
    (i == |second| && j == |first|) ||
    (RightArrow(first, second, i, j) && ReachesCorner(first, second, i, j + 1)) ||
    (DiagonalArrow(first, second, i, j) && ReachesCorner(first, second, i + 1, j + 1)) ||
    (DownArrow(first, second, i, j) && ReachesCorner(first, second, i + 1, j))
  }

  /** The move taken out of (i, j) when the dead ends are known: the first of Right,
      Diagonal, Down whose arrow is set and whose target still reaches the corner. */
  function Preferred(first: string, second: string, i: nat, j: nat): Option<Move>
    requires i <= |second| && j <= |first|
  {
    if RightArrow(first, second, i, j) && ReachesCorner(first, second, i, j + 1) then Some(Right)
    else if DiagonalArrow(first, second, i, j) && ReachesCorner(first, second, i + 1, j + 1) then Some(Diagonal)
    else if DownArrow(first, second, i, j) && ReachesCorner(first, second, i + 1, j) then Some(Down)
    else None
  }

  /** Every move of `path` is the preferred move of the cell it leaves. */
  predicate Prioritized(first: string, second: string, path: seq<Move>)
  {
    forall k :: 0 <= k < |path| ==>
      Rows(path[..k]) <= |second| && Cols(path[..k]) <= |first| &&
      Preferred(first, second, Rows(path[..k]), Cols(path[..k])) == Some(path[k])
  }

  /** A cell has a preferred move exactly when it is not the corner and reaches it;
      the preferred move follows an arrow to a cell that reaches the corner. */
  lemma PreferredMove(first: string, second: string, i: nat, j: nat)
    requires i <= |second| && j <= |first|
    ensures Preferred(first, second, i, j) != None <==>
      (i != |second| || j != |first|) && ReachesCorner(first, second, i, j)
    ensures Preferred(first, second, i, j).Some? ==>
      var m := Preferred(first, second, i, j).value;
      OnArrow(first, second, i, j, m) && RowAfter(i, m) <= |second| && ColAfter(j, m) <= |first| &&
      ReachesCorner(first, second, RowAfter(i, m), ColAfter(j, m))
  {
  }

  /** Every cell an arrow path to the corner passes through reaches the corner. */
  lemma {:induction false} SuffixReaches(first: string, second: string, path: seq<Move>, k: nat)
    requires FollowsArrows(first, second, path)
    requires Rows(path) == |second| && Cols(path) == |first|
    requires k <= |path|
    ensures Rows(path[..k]) <= |second| && Cols(path[..k]) <= |first|
    ensures ReachesCorner(first, second, Rows(path[..k]), Cols(path[..k]))
    decreases |path| - k
  {
    if k == |path| {
      assert path[..k] == path;
    } else {
      SuffixReaches(first, second, path, k + 1);
      ArrowAt(first, second, path, k);
      ReachesAlong(first, second, Rows(path[..k]), Cols(path[..k]), path[k]);
    }
  }

  /** Move k of an arrow path follows an arrow out of the cell the first k moves reach,
      into the cell the first k + 1 moves reach. */
  lemma ArrowAt(first: string, second: string, path: seq<Move>, k: nat)
    requires FollowsArrows(first, second, path)
    requires k < |path|
    ensures Rows(path[..k]) <= |second| && Cols(path[..k]) <= |first|
    ensures OnArrow(first, second, Rows(path[..k]), Cols(path[..k]), path[k])
    ensures Rows(path[..k + 1]) == RowAfter(Rows(path[..k]), path[k])
    ensures Cols(path[..k + 1]) == ColAfter(Cols(path[..k]), path[k])
  {
    ConsumedAt(path, k, Right);
    ConsumedAt(path, k, Down);
  }

  /** A cell whose arrow leads to a cell that reaches the corner reaches it too. */
  lemma ReachesAlong(first: string, second: string, i: nat, j: nat, m: Move)
    requires i <= |second| && j <= |first|
    requires OnArrow(first, second, i, j, m)
    requires RowAfter(i, m) <= |second| && ColAfter(j, m) <= |first|
    requires ReachesCorner(first, second, RowAfter(i, m), ColAfter(j, m))
    ensures ReachesCorner(first, second, i, j)
  {
    match m
    case Right => assert RightArrow(first, second, i, j) && ReachesCorner(first, second, i, j + 1);
    case Diagonal => assert DiagonalArrow(first, second, i, j) && ReachesCorner(first, second, i + 1, j + 1);
    case Down => assert DownArrow(first, second, i, j) && ReachesCorner(first, second, i + 1, j);
  }

  /** Two prioritized paths agree on every common prefix. */
  lemma {:induction false} PrioritizedPrefix(first: string, second: string, p: seq<Move>, q: seq<Move>, k: nat)
    requires Prioritized(first, second, p) && Prioritized(first, second, q)
    requires k <= |p| && k <= |q|
    ensures p[..k] == q[..k]
  {
    if k > 0 {
      PrioritizedPrefix(first, second, p, q, k - 1);
      var init := p[..k - 1];
      assert q[..k - 1] == init;
      PrioritizedAt(first, second, p, k - 1);
      PrioritizedAt(first, second, q, k - 1);
      PrefixSnoc(p, k);
      PrefixSnoc(q, k);
    }
  }

  lemma PrioritizedAt(first: string, second: string, p: seq<Move>, k: nat)
    requires Prioritized(first, second, p) && k < |p|
    ensures Rows(p[..k]) <= |second| && Cols(p[..k]) <= |first|
    ensures Preferred(first, second, Rows(p[..k]), Cols(p[..k])) == Some(p[k])
  {
  }

  /** The corner has no preferred move, so a prioritized path stops there. */
  lemma StopsAtCorner(first: string, second: string, p: seq<Move>, q: seq<Move>)
    requires Prioritized(first, second, q)
    requires |p| < |q| && q[..|p|] == p
    ensures Rows(p) != |second| || Cols(p) != |first|
  {
    assert Preferred(first, second, Rows(q[..|p|]), Cols(q[..|p|])) == Some(q[|p|]);
  }

  /** At most one prioritized path runs from (0, 0) to the corner: the priority order
      leaves no choice. */
  lemma PriorityUnique(first: string, second: string, p: seq<Move>, q: seq<Move>)
    requires Prioritized(first, second, p) && Prioritized(first, second, q)
    requires Rows(p) == |second| && Cols(p) == |first|
    requires Rows(q) == |second| && Cols(q) == |first|
    ensures p == q
  {
    if |p| <= |q| {
      PrioritizedPrefix(first, second, p, q, |p|);
      assert p[..|p|] == p;
      if |p| < |q| {
        StopsAtCorner(first, second, p, q);
      }
    } else {
      PrioritizedPrefix(first, second, p, q, |q|);
      assert q[..|q|] == q;
      StopsAtCorner(first, second, q, p);
    }
  }

  // ---------------------------------------------------------------------------
  // Worked cases

  /** "cat" against "cut": one substitution. */
  lemma CatCut()
    ensures Lev("cat", "cut", 3, 3) == 1
  {
  }

  /** "a" against "b": one substitution. */
  lemma SingleLetters()
    ensures Lev("a", "b", 1, 1) == 1
  {
  }

  /** "abc" against itself: nothing to edit. */
  lemma IdenticalWords()
    ensures Lev("abc", "abc", 3, 3) == 0
  {
    SameWord("abc", 3);
  }
}
