/**
 * The move rules of the A* engine: which cells addNeighbours offers from a
 * cell, what a step costs, and the walks these rules allow.
 */
module Moves {
  import opened Vectors
  import opened Lists

  /** Cost of a diagonal step. */
  const DIAG_COST: nat := 14
  /** Cost of a horizontal or vertical step. */
  const DEF_COST: nat := 10

  /** The two positions differ by exactly one in both coordinates. */
  predicate IsDiagonal(a: Vector2, b: Vector2)
    ensures IsDiagonal(a, b) ==> a != b && Abs(a.x - b.x) + Abs(a.y - b.y) == 2
  {
    Abs(a.x - b.x) == 1 && Abs(a.y - b.y) == 1
  }

  /** The cost addNeighbours charges for a step from `a` to `b`. */
  function StepCost(a: Vector2, b: Vector2): (c: nat)
    ensures c == DIAG_COST || c == DEF_COST
  {
    if IsDiagonal(a, b) then DIAG_COST else DEF_COST
  }

  /** The diagonal positions are exactly the four corners of the 3x3 block. */
  lemma DiagonalCorners(a: Vector2, b: Vector2)
    ensures IsDiagonal(a, b) <==>
      b in {Vector2(a.x - 1, a.y - 1), Vector2(a.x + 1, a.y - 1),
            Vector2(a.x - 1, a.y + 1), Vector2(a.x + 1, a.y + 1)}
  {
    if IsDiagonal(a, b) {
      assert b.x == a.x - 1 || b.x == a.x + 1;
      assert b.y == a.y - 1 || b.y == a.y + 1;
    }
  }

  /**
   * The bounds test of the four-way expansion.  It asks for x > 0 and y > 0,
   * so column 0 and row 0 are never in bounds.
   */
  predicate IsInBounds(size: int, x: int, y: int)
    ensures IsInBounds(size, x, y) ==> InGrid(size, Vector2(x, y)) && x != 0 && y != 0
  {
    x > 0 && x < size && y > 0 && y < size
  }

  predicate InGrid(size: int, p: Vector2)
  {
    0 <= p.x < size && 0 <= p.y < size
  }

  /**
   * The cells addNeighbours hands to addNeighbourNode from cell `c`: with
   * diagonals, every in-grid cell of the 3x3 block around `c` except `c`;
   * without, the horizontal and vertical neighbours that pass IsInBounds.
   */
  predicate Offered(diagonal: bool, size: int, c: Vector2, p: Vector2)
    ensures Offered(diagonal, size, c, p) ==>
      InGrid(size, p) && p != c && Abs(p.x - c.x) <= 1 && Abs(p.y - c.y) <= 1 &&
      (!diagonal ==> !IsDiagonal(c, p))
  {
    if diagonal then
      InGrid(size, p) && p != c && Abs(p.x - c.x) <= 1 && Abs(p.y - c.y) <= 1
    else
      IsInBounds(size, p.x, p.y) && Abs(p.x - c.x) + Abs(p.y - c.y) == 1
  }

  /** Without diagonals no cell of row 0 or column 0 is ever offered, and every step costs 10. */
  lemma FourWaySkipsRowAndColumnZero(size: int, c: Vector2, p: Vector2)
    requires Offered(false, size, c, p)
    ensures p.x != 0 && p.y != 0
    ensures StepCost(c, p) == DEF_COST
  {
  }

  /** With diagonals, a step costs 14 exactly when it is diagonal. */
  lemma EightWayStepCost(size: int, c: Vector2, p: Vector2)
    requires Offered(true, size, c, p)
    ensures StepCost(c, p) == DIAG_COST <==> (p.x != c.x && p.y != c.y)
  {
  }

  /** The cells of a size x size grid. */
  function Cells(size: nat): (s: set<Vector2>)
    ensures forall p :: p in s <==> InGrid(size, p)
  {
    set x, y | 0 <= x < size && 0 <= y < size :: Vector2(x, y)
  }

  /** The cells of a width x height rectangle at the origin. */
  function Rect(w: nat, h: nat): (s: set<Vector2>)
    ensures forall p :: p in s <==> 0 <= p.x < w && 0 <= p.y < h
  {
    set x, y | 0 <= x < w && 0 <= y < h :: Vector2(x, y)
  }

  /** The cells of row `y` of a rectangle of width `w`. */
  function Row(w: nat, y: int): (s: set<Vector2>)
    ensures forall p :: p in s <==> 0 <= p.x < w && p.y == y
  {
    set x | 0 <= x < w :: Vector2(x, y)
  }

  lemma {:induction false} RowCount(w: nat, y: int)
    ensures |Row(w, y)| == w
  {
    if w > 0 {
      RowCount(w - 1, y);
      assert Row(w, y) == Row(w - 1, y) + {Vector2(w - 1, y)};
    }
  }

  lemma {:induction false} RectCount(w: nat, h: nat)
    ensures |Rect(w, h)| == w * h
  {
    if h > 0 {
      RectCount(w, h - 1);
      RowCount(w, h - 1);
      assert Rect(w, h) == Rect(w, h - 1) + Row(w, h - 1);
      assert Rect(w, h - 1) !! Row(w, h - 1);
      assert w * h == w * (h - 1) + w;
    }
  }

  /** A grid has size * size cells. */
  lemma CellCount(size: nat)
    ensures |Cells(size)| == size * size
  {
    RectCount(size, size);
    assert Cells(size) == Rect(size, size);
  }

  /**
   * A walk the engine could take: each step goes to a cell offered from the
   * previous one, and every cell after the first is in `walkable`.
   */
  ghost predicate IsWalk(diagonal: bool, size: int, walkable: set<Vector2>, w: seq<Vector2>)
  {
    w != [] &&
    forall i | 0 <= i < |w| - 1 :: StepAt(diagonal, size, walkable, w, i)
  }

  /** Step `i` of `w` moves to an offered, walkable cell. */
  ghost predicate StepAt(diagonal: bool, size: int, walkable: set<Vector2>, w: seq<Vector2>, i: nat)
    requires i + 1 < |w|
  {
    Offered(diagonal, size, w[i], w[i + 1]) && w[i + 1] in walkable
  }

  /** The summed step costs of a path listed destination first. */
  function PathCost(path: seq<Vector2>): nat
  {
    if |path| <= 1 then 0 else StepCost(path[1], path[0]) + PathCost(path[1..])
  }

  /**
   * A set that contains every walkable cell offered from each of its cells
   * contains the end of every walk that starts in it.
   */
  lemma {:induction false} ClosedSetHoldsWalks(diagonal: bool, size: int, walkable: set<Vector2>,
                                                closed: set<Vector2>, w: seq<Vector2>)
    requires forall c, p | c in closed && Offered(diagonal, size, c, p) && p in walkable :: p in closed
    requires IsWalk(diagonal, size, walkable, w) && w[0] in closed
    ensures Last(w) in closed
    decreases |w|
  {
    if |w| > 1 {
      var v := w[..|w| - 1];
      assert IsWalk(diagonal, size, walkable, v) by {
        forall i | 0 <= i < |v| - 1
          ensures StepAt(diagonal, size, walkable, v, i)
        {
          assert StepAt(diagonal, size, walkable, w, i);
          assert v[i] == w[i] && v[i + 1] == w[i + 1];
        }
      }
      ClosedSetHoldsWalks(diagonal, size, walkable, closed, v);
      assert StepAt(diagonal, size, walkable, w, |w| - 2);
    }
  }

  /** A path listed destination first whose steps are legal moves, read backwards, is a walk. */
  lemma BackPathReversed(diagonal: bool, size: int, walkable: set<Vector2>, path: seq<Vector2>)
    requires path != []
    requires forall i | 0 <= i < |path| - 1 :: BackStepAt(diagonal, size, walkable, path, i)
    ensures IsWalk(diagonal, size, walkable, Reverse(path))
    ensures Reverse(path)[0] == Last(path) && Last(Reverse(path)) == path[0]
  {
    var r := Reverse(path);
    var n := |path|;
    forall i | 0 <= i < n - 1
      ensures StepAt(diagonal, size, walkable, r, i)
    {
      assert BackStepAt(diagonal, size, walkable, path, n - 2 - i);
      assert r[i] == path[n - 1 - i] && r[i + 1] == path[n - 2 - i];
    }
  }

  /** There is a walk from `a` to `b`. */
  ghost predicate Reachable(diagonal: bool, size: int, walkable: set<Vector2>, a: Vector2, b: Vector2)
  {
    exists w :: IsWalk(diagonal, size, walkable, w) && w[0] == a && Last(w) == b
  }

  /** Step `i` of a destination-first path was reached from the cell after it by a legal move. */
  ghost predicate BackStepAt(diagonal: bool, size: int, walkable: set<Vector2>, path: seq<Vector2>, i: nat)
    requires i + 1 < |path|
  {
    Offered(diagonal, size, path[i + 1], path[i]) && path[i] in walkable
  }

  /** Cell (x, y), if it lies in the grid and is not `c`; nothing otherwise. */
  function Candidate(size: int, c: Vector2, x: int, y: int): (ps: seq<Vector2>)
    ensures forall p | p in ps :: p == Vector2(x, y) && InGrid(size, p) && p != c
  {
    if 0 <= x < size && 0 <= y < size && !(x == c.x && y == c.y) then [Vector2(x, y)] else []
  }

  /** The concatenation of the first k of the three parts a, b, d. */
  function FirstOf3<T>(a: seq<T>, b: seq<T>, d: seq<T>, k: int): seq<T>
  {
    (if 0 < k then a else []) + (if 1 < k then b else []) + (if 2 < k then d else [])
  }

  /** Taking one more part appends that part. */
  lemma FirstOf3Step<T>(a: seq<T>, b: seq<T>, d: seq<T>, k: int)
    requires 0 <= k <= 2
    ensures FirstOf3(a, b, d, k + 1) == FirstOf3(a, b, d, k) + (if k == 0 then a else if k == 1 then b else d)
  {
    if k == 0 {
      assert FirstOf3(a, b, d, k + 1) == a + [] + [] == [] + a;
    } else if k == 1 {
      assert FirstOf3(a, b, d, k) == a + [] + [] == a;
      assert FirstOf3(a, b, d, k + 1) == a + b + [] == a + b;
    } else {
      assert FirstOf3(a, b, d, k) == a + b + [] == a + b;
    }
  }

  /**
   * The cells of row i that the diagonal expansion of `c` hands on, left to
   * right, from column c.x - 1 up to but not including column j.
   */
  function RowCandidates(size: int, c: Vector2, i: int, j: int): seq<Vector2>
  {
    FirstOf3(Candidate(size, c, c.x - 1, i), Candidate(size, c, c.x, i), Candidate(size, c, c.x + 1, i), j - (c.x - 1))
  }

  /** The cells the diagonal expansion of `c` hands on from rows c.y - 1 up to but not including row i, row by row. */
  function BlockCandidates(size: int, c: Vector2, i: int): seq<Vector2>
  {
    FirstOf3(RowCandidates(size, c, c.y - 1, c.x + 2), RowCandidates(size, c, c.y, c.x + 2), RowCandidates(size, c, c.y + 1, c.x + 2), i - (c.y - 1))
  }

  /** Cell (x, y) if it passes IsInBounds, nothing otherwise. */
  function CrossStep(size: int, x: int, y: int): seq<Vector2>
  {
    if IsInBounds(size, x, y) then [Vector2(x, y)] else []
  }

  /** The four-way expansion of `c`: right, left, down, up, each only if it passes IsInBounds. */
  function CrossCandidates(size: int, c: Vector2): seq<Vector2>
  {
    CrossStep(size, c.x + 1, c.y) + CrossStep(size, c.x - 1, c.y) + CrossStep(size, c.x, c.y + 1) + CrossStep(size, c.x, c.y - 1)
  }

  /** The cells addNeighbours hands to addNeighbourNode from `c`, in the order it hands them on. */
  function Candidates(diagonal: bool, size: int, c: Vector2): seq<Vector2>
  {
    if diagonal then BlockCandidates(size, c, c.y + 2) else CrossCandidates(size, c)
  }

  /** One more column of the row: its candidate is appended. */
  lemma RowCandidatesStep(size: int, c: Vector2, i: int, j: int)
    requires c.x - 1 <= j <= c.x + 1
    ensures RowCandidates(size, c, i, j + 1) == RowCandidates(size, c, i, j) + Candidate(size, c, j, i)
  {
    FirstOf3Step(Candidate(size, c, c.x - 1, i), Candidate(size, c, c.x, i), Candidate(size, c, c.x + 1, i), j - (c.x - 1));
  }

  /** One more row of the block: its candidates are appended. */
  lemma BlockCandidatesStep(size: int, c: Vector2, i: int)
    requires c.y - 1 <= i <= c.y + 1
    ensures BlockCandidates(size, c, i + 1) == BlockCandidates(size, c, i) + RowCandidates(size, c, i, c.x + 2)
  {
    FirstOf3Step(RowCandidates(size, c, c.y - 1, c.x + 2), RowCandidates(size, c, c.y, c.x + 2), RowCandidates(size, c, c.y + 1, c.x + 2), i - (c.y - 1));
  }

  /** A row outside the grid has no candidates. */
  lemma RowCandidatesOutside(size: int, c: Vector2, i: int)
    requires !(0 <= i < size)
    ensures RowCandidates(size, c, i, c.x + 2) == []
  {
  }

  lemma RowCandidatesExact(size: int, c: Vector2, i: int, p: Vector2)
    ensures p in RowCandidates(size, c, i, c.x + 2) <==>
      p.y == i && c.x - 1 <= p.x <= c.x + 1 && InGrid(size, p) && p != c
  {
    var r := RowCandidates(size, c, i, c.x + 2);
    assert r == Candidate(size, c, c.x - 1, i) + Candidate(size, c, c.x, i) + Candidate(size, c, c.x + 1, i);
    if p.y == i && c.x - 1 <= p.x <= c.x + 1 && InGrid(size, p) && p != c {
      assert p.x == c.x - 1 || p.x == c.x || p.x == c.x + 1;
    }
  }

  /** addNeighbours hands on exactly the offered cells. */
  lemma CandidatesOffered(diagonal: bool, size: int, c: Vector2)
    ensures forall p :: p in Candidates(diagonal, size, c) <==> Offered(diagonal, size, c, p)
  {
    if diagonal {
      var rows := BlockCandidates(size, c, c.y + 2);
      var r0, r1, r2 := RowCandidates(size, c, c.y - 1, c.x + 2), RowCandidates(size, c, c.y, c.x + 2), RowCandidates(size, c, c.y + 1, c.x + 2);
      assert rows == r0 + r1 + r2;
      forall p
        ensures p in rows <==> Offered(diagonal, size, c, p)
      {
        RowCandidatesExact(size, c, c.y - 1, p);
        RowCandidatesExact(size, c, c.y, p);
        RowCandidatesExact(size, c, c.y + 1, p);
        if Offered(diagonal, size, c, p) {
          assert p.y == c.y - 1 || p.y == c.y || p.y == c.y + 1;
        }
      }
    }
  }
}
