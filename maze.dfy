/**
 * The recursive-backtracker maze carver.  The grid is size.y rows of
 * size.x cells, true for a wall.  initMaze walls every even row and column
 * and the last row and column; the cells with two odd coordinates (the
 * rooms) are then visited by a depth-first search from (1, 1) that moves
 * two cells at a time and clears the wall cell between the two rooms.
 */
module Maze {
  import opened Vectors
  import opened Wrappers
  import opened Lists
  import Moves

  /** Cell (i, j), in row i and column j, is a wall after initMaze. */
  predicate Wall(size: Vector2, i: int, j: int)
    ensures 0 <= i < size.y && 0 <= j < size.x && !Wall(size, i, j) ==> Room(size, Vector2(j, i))
  {
    i % 2 == 0 || j % 2 == 0 || i == size.y - 1 || j == size.x - 1
  }

  /**
   * The cells the carver can reach: both coordinates odd, and each one
   * either 1 (the start's) or at most two below its side.
   */
  predicate Room(size: Vector2, c: Vector2)
  {
    c.x % 2 == 1 && c.y % 2 == 1 && 1 <= c.x && 1 <= c.y &&
    (c.x == 1 || c.x <= size.x - 2) && (c.y == 1 || c.y <= size.y - 2)
  }

  /**
   * n lies two cells from v along one axis, and the moved coordinate is
   * strictly between 0 and its side minus one.
   */
  predicate TwoStep(size: Vector2, v: Vector2, n: Vector2)
    ensures TwoStep(size, v, n) ==> n != v && Abs(n.x - v.x) + Abs(n.y - v.y) == 2
    ensures TwoStep(size, v, n) ==> Adjacent(v, Mid(v, n)) && Adjacent(Mid(v, n), n)
  {
    (n.y == v.y && ((n.x == v.x - 2 && v.x - 2 > 0) || (n.x == v.x + 2 && v.x + 2 < size.x - 1))) ||
    (n.x == v.x && ((n.y == v.y + 2 && v.y + 2 < size.y - 1) || (n.y == v.y - 2 && v.y - 2 > 0)))
  }

  /** Java's int division by two, which truncates toward zero. */
  function Half(n: int): (h: int)
    ensures n >= 0 ==> 2 * h <= n <= 2 * h + 1
    ensures n < 0 ==> 2 * h - 1 <= n <= 2 * h
  {
    if n >= 0 then n / 2 else -((-n) / 2)
  }

  /** The cell removeWall clears between v1 and v2. */
  function Mid(v1: Vector2, v2: Vector2): (m: Vector2)
    ensures v1.y == v2.y && Abs(v1.x - v2.x) == 2 ==> m.y == v1.y && Abs(m.x - v1.x) == 1 && Abs(m.x - v2.x) == 1
    ensures v1.x == v2.x && Abs(v1.y - v2.y) == 2 ==> m.x == v1.x && Abs(m.y - v1.y) == 1 && Abs(m.y - v2.y) == 1
  {
    Vector2(Half(v1.x + v2.x), Half(v1.y + v2.y))
  }

  /** The candidate cells of getUnvistedNeighbours, in the order it adds them. */
  function Candidates(size: Vector2, v: Vector2): (c: seq<Vector2>)
    ensures forall n :: n in c <==> TwoStep(size, v, n)
    ensures NoDup(c)
  {
    (if v.x - 2 > 0 then [Vector2(v.x - 2, v.y)] else []) +
    (if v.x + 2 < size.x - 1 then [Vector2(v.x + 2, v.y)] else []) +
    (if v.y + 2 < size.y - 1 then [Vector2(v.x, v.y + 2)] else []) +
    (if v.y - 2 > 0 then [Vector2(v.x, v.y - 2)] else [])
  }

  /** removeIf(visited::contains): the entries of c not in visited, in their order. */
  function Unvisited(c: seq<Vector2>, visited: seq<Vector2>): (r: seq<Vector2>)
    ensures forall n :: n in r <==> n in c && n !in visited
    ensures |r| <= |c|
  {
    if c == [] then []
    else (if c[0] in visited then [] else [c[0]]) + Unvisited(c[1..], visited)
  }

  /** The open cells of a carved grid: inside it, and not a wall unless carved. */
  predicate Open(size: Vector2, carved: set<Vector2>, c: Vector2)
  {
    0 <= c.x < size.x && 0 <= c.y < size.y && (!Wall(size, c.y, c.x) || c in carved)
  }

  /** a and b are side by side in a row or a column. */
  predicate Adjacent(a: Vector2, b: Vector2)
  {
    (a.x == b.x && Abs(a.y - b.y) == 1) || (a.y == b.y && Abs(a.x - b.x) == 1)
  }

  /**
   * The visited list of the search with, for each entry after the first,
   * the index of the room it was carved from: (1, 1) first, no room twice,
   * and each room two steps from its parent, which was visited before it.
   */
  ghost predicate Tree(size: Vector2, visited: seq<Vector2>, parents: seq<nat>)
  {
    |visited| == |parents| && visited != [] && visited[0] == Vector2(1, 1) && NoDup(visited) &&
    (forall k | 0 <= k < |visited| :: Room(size, visited[k])) &&
    forall k | 1 <= k < |visited| :: parents[k] < k && TwoStep(size, visited[parents[k]], visited[k])
  }

  /** The wall cells cleared by the search: one between each room and its parent. */
  ghost function Carved(visited: seq<Vector2>, parents: seq<nat>): set<Vector2>
  {
    set k | 1 <= k < |visited| && k < |parents| && parents[k] < |visited| :: Mid(visited[parents[k]], visited[k])
  }

  /** Every room next to v has been visited. */
  ghost predicate Done(size: Vector2, visited: seq<Vector2>, v: Vector2)
  {
    forall n | TwoStep(size, v, n) :: n in visited
  }

  /** The grids removeWall can write: a room one step out along each axis is a row and a column of the array. */
  predicate Carvable(size: Vector2)
  {
    size.x >= 0 && size.y >= 0 && (size.x >= 5 ==> size.y >= 2) && (size.y >= 5 ==> size.x >= 2)
  }

  class MazeGenerator {
    const size: Vector2
    /** grid[i, j] is row i, column j; true is a wall. */
    const grid: array2<bool>

    /** The grid has size.y rows and size.x columns, and a cell that is not a wall is never true. */
    ghost predicate Valid()
      reads this, grid
    {
      grid.Length0 == size.y && grid.Length1 == size.x &&
      forall i, j | 0 <= i < size.y && 0 <= j < size.x && !Wall(size, i, j) :: !grid[i, j]
    }

    /** The grid is walled as initMaze leaves it, except for the carved cells. */
    ghost predicate Carves(visited: seq<Vector2>, parents: seq<nat>)
      reads this, grid
      requires Valid()
    {
      forall i, j | 0 <= i < size.y && 0 <= j < size.x ::
        grid[i, j] == (Wall(size, i, j) && Vector2(j, i) !in Carved(visited, parents))
    }

    /** A fresh grid of size.y rows and size.x columns, all false. */
    constructor (size: Vector2)
      requires size.x >= 0 && size.y >= 0
      ensures this.size == size && fresh(grid) && Valid()
      ensures forall i, j | 0 <= i < size.y && 0 <= j < size.x :: !grid[i, j]
    {
      this.size := size;
      grid := new bool[size.y, size.x]((i, j) => false);
    }

    /** Sets every wall cell: even rows and columns, and the last row and column. */
    method InitMaze()
      requires Valid()
      modifies grid
      ensures Valid()
      ensures forall i, j | 0 <= i < size.y && 0 <= j < size.x :: grid[i, j] == Wall(size, i, j)
    {
      for i := 0 to size.y
        invariant forall r, c | 0 <= r < size.y && 0 <= c < size.x ::
          grid[r, c] == if r < i then Wall(size, r, c) else old(grid[r, c])
      {
        for j := 0 to size.x
          invariant forall r, c | 0 <= r < size.y && 0 <= c < size.x ::
            grid[r, c] == if r < i || (r == i && c < j) then Wall(size, r, c) else old(grid[r, c])
        {
          if i % 2 == 0 || j % 2 == 0 || i == size.y - 1 || j == size.x - 1 {
            grid[i, j] := true;
          }
        }
      }
    }

    /**
     * getUnvistedNeighbours: the rooms two steps from v that are not yet
     * visited, or None (Java's null) when there is none.
     */
    function UnvisitedNeighbours(visited: seq<Vector2>, v: Vector2): (r: Option<seq<Vector2>>)
      ensures r.None? <==> Done(size, visited, v)
      ensures r.Some? ==> r.value != [] && forall n :: n in r.value <==> TwoStep(size, v, n) && n !in visited
    {
      var neighbours := Unvisited(Candidates(size, v), visited);
      if |neighbours| == 0 then
        assert forall n | TwoStep(size, v, n) :: n in Candidates(size, v) && n !in neighbours;
        None
      else
        assert neighbours[0] in neighbours;
        Some(neighbours)
    }

    /** Clears the cell between v1 and v2 and nothing else. */
    method RemoveWall(v1: Vector2, v2: Vector2)
      requires Valid()
      requires 0 <= Mid(v1, v2).y < size.y && 0 <= Mid(v1, v2).x < size.x
      modifies grid
      ensures Valid()
      ensures forall i, j | 0 <= i < size.y && 0 <= j < size.x ::
        grid[i, j] == if i == Mid(v1, v2).y && j == Mid(v1, v2).x then false else old(grid[i, j])
    {
      grid[Half(v1.y + v2.y), Half(v1.x + v2.x)] := false;
    }

    /**
     * generate: walls the grid, then carves from (1, 1).  The random choice
     * among the unvisited neighbours is pick(d) modulo their number at the
     * d-th draw.  The rooms visited, with the parent each was carved from,
     * form a tree holding every room, and a cell of the returned grid is a
     * wall exactly when initMaze walled it and no carving step cleared it.
     */
    method Generate(pick: nat -> nat) returns (g: array2<bool>, ghost order: seq<Vector2>, ghost parents: seq<nat>)
      requires Valid() && Carvable(size)
      modifies grid
      ensures g == grid && Valid()
      ensures Tree(size, order, parents)
      ensures forall c :: c in order <==> Room(size, c)
      ensures Carves(order, parents)
      ensures size.x != 2 && size.y != 2 ==>
        forall i, j | 0 <= i < size.y && 0 <= j < size.x && (i == 0 || j == 0 || i == size.y - 1 || j == size.x - 1) :: grid[i, j]
    {
      InitMaze();
      var start := Vector2(1, 1);
      var stack := [start];
      var visited := [start];
      parents := [0];
      var draws := 0;
      while stack != []
        invariant Valid() && Tree(size, visited, parents)
        invariant Backtracking(size, visited, stack)
        invariant Carves(visited, parents)
        invariant |visited| <= Capacity(size)
        decreases Capacity(size) - |visited|, |stack|
      {
        ghost var before := stack;
        var current := stack[|stack| - 1];
        stack := stack[..|stack| - 1];
        var neighbours := UnvisitedNeighbours(visited, current);
        if neighbours.Some? {
          stack := stack + [current];
          var chosen := neighbours.value[pick(draws) % |neighbours.value|];
          draws := draws + 1;
          ghost var p := IndexOf(visited, current);
          Carve(visited, parents, p, current, chosen);
          BacktrackingPush(size, visited, before, chosen);
          visited := visited + [chosen];
          parents := parents + [p];
          stack := stack + [chosen];
          VisitedBound(size, visited);
        } else {
          BacktrackingPop(size, visited, before);
        }
      }
      g := grid;
      order := visited;
      RoomsReached(size, visited);
      if size.x != 2 && size.y != 2 {
        CarvedInterior(size, visited, parents);
      }
    }

    /** removeWall between the p-th visited room and an unvisited room two steps from it. */
    method Carve(ghost visited: seq<Vector2>, ghost parents: seq<nat>, ghost p: nat, current: Vector2, chosen: Vector2)
      requires Valid() && Carvable(size) && Tree(size, visited, parents) && Carves(visited, parents)
      requires p < |visited| && visited[p] == current && TwoStep(size, current, chosen) && chosen !in visited
      modifies grid
      ensures Valid() && Tree(size, visited + [chosen], parents + [p]) && Carves(visited + [chosen], parents + [p])
    {
      MidInside(size, current, chosen);
      RemoveWall(current, chosen);
      CarvedSnoc(size, visited, parents, p, chosen);
    }
  }

  /** The position of x in s. */
  ghost function IndexOf(s: seq<Vector2>, x: Vector2): (k: nat)
    requires x in s
    ensures k < |s| && s[k] == x
  {
    if s[0] == x then 0 else 1 + IndexOf(s[1..], x)
  }

  /** Carving from a room of a carvable grid clears a cell of the grid. */
  lemma MidInside(size: Vector2, v: Vector2, n: Vector2)
    requires Carvable(size) && Room(size, v) && TwoStep(size, v, n)
    ensures 0 <= Mid(v, n).y < size.y && 0 <= Mid(v, n).x < size.x
  {
  }

  /** A room two steps from a room is a room. */
  lemma TwoStepRoom(size: Vector2, v: Vector2, n: Vector2)
    requires Room(size, v) && TwoStep(size, v, n)
    ensures Room(size, n)
  {
  }

  /** Visiting one more room, carved from the p-th, adds its midpoint to the carved cells. */
  lemma CarvedSnoc(size: Vector2, visited: seq<Vector2>, parents: seq<nat>, p: nat, n: Vector2)
    requires Tree(size, visited, parents) && p < |visited| && TwoStep(size, visited[p], n) && n !in visited
    ensures Tree(size, visited + [n], parents + [p])
    ensures Carved(visited + [n], parents + [p]) == Carved(visited, parents) + {Mid(visited[p], n)}
  {
    TwoStepRoom(size, visited[p], n);
    AppendNoDup(visited, n);
    var v, ps := visited + [n], parents + [p];
    assert Mid(v[ps[|visited|]], v[|visited|]) == Mid(visited[p], n);
    forall c | c in Carved(visited, parents)
      ensures c in Carved(v, ps)
    {
      var k :| 1 <= k < |visited| && k < |parents| && parents[k] < |visited| && c == Mid(visited[parents[k]], visited[k]);
      assert v[ps[k]] == visited[parents[k]] && v[k] == visited[k];
    }
    forall c | c in Carved(v, ps)
      ensures c in Carved(visited, parents) + {Mid(visited[p], n)}
    {
      var k :| 1 <= k < |v| && k < |ps| && ps[k] < |v| && c == Mid(v[ps[k]], v[k]);
      if k < |visited| {
        assert v[ps[k]] == visited[parents[k]] && v[k] == visited[k];
      }
    }
  }

  /** The number of cells of a rectangle holding every room. */
  ghost function Capacity(size: Vector2): nat
    requires size.x >= 0 && size.y >= 0
  {
    |Moves.Rect(size.x + 2, size.y + 2)|
  }

  /** The visited rooms are distinct cells of a bounded rectangle. */
  lemma VisitedBound(size: Vector2, visited: seq<Vector2>)
    requires NoDup(visited) && forall k | 0 <= k < |visited| :: Room(size, visited[k])
    requires size.x >= 0 && size.y >= 0
    ensures |visited| <= Capacity(size)
  {
    NoDupLength(visited, Moves.Rect(size.x + 2, size.y + 2));
  }

  /**
   * The depth-first stack: every cell on it is visited, and every visited
   * cell off it has no unvisited room next to it.
   */
  ghost predicate Backtracking(size: Vector2, visited: seq<Vector2>, stack: seq<Vector2>)
  {
    (forall c | c in stack :: c in visited) &&
    forall v | v in visited && v !in stack :: Done(size, visited, v)
  }

  /** Popping a cell whose neighbouring rooms are all visited keeps the stack's property. */
  lemma BacktrackingPop(size: Vector2, visited: seq<Vector2>, stack: seq<Vector2>)
    requires Backtracking(size, visited, stack) && stack != [] && Done(size, visited, stack[|stack| - 1])
    ensures Backtracking(size, visited, stack[..|stack| - 1])
  {
    var s := stack[..|stack| - 1];
    assert forall c | c in stack :: c in s || c == stack[|stack| - 1] by {
      forall c | c in stack
        ensures c in s || c == stack[|stack| - 1]
      {
        var i :| 0 <= i < |stack| && stack[i] == c;
        if i < |s| {
          assert s[i] == c;
        }
      }
    }
  }

  /** Putting the top back and pushing a newly visited room keeps the stack's property. */
  lemma BacktrackingPush(size: Vector2, visited: seq<Vector2>, stack: seq<Vector2>, n: Vector2)
    requires Backtracking(size, visited, stack) && stack != []
    ensures Backtracking(size, visited + [n], stack[..|stack| - 1] + [stack[|stack| - 1]] + [n])
  {
    var s := stack[..|stack| - 1] + [stack[|stack| - 1]];
    assert s == stack;
  }

  /** If the visited rooms include (1, 1) and are closed under two-steps, every room along row 1 is visited. */
  lemma {:induction false} RowReached(size: Vector2, visited: seq<Vector2>, x: int)
    requires Vector2(1, 1) in visited && forall v | v in visited :: Done(size, visited, v)
    requires Room(size, Vector2(x, 1))
    ensures Vector2(x, 1) in visited
    decreases x
  {
    if x != 1 {
      RowReached(size, visited, x - 2);
      assert TwoStep(size, Vector2(x - 2, 1), Vector2(x, 1));
    }
  }

  /** Under the same closure, every room is visited: along row 1, then up its column. */
  lemma {:induction false} ColumnReached(size: Vector2, visited: seq<Vector2>, c: Vector2)
    requires Vector2(1, 1) in visited && forall v | v in visited :: Done(size, visited, v)
    requires Room(size, c)
    ensures c in visited
    decreases c.y
  {
    if c.y == 1 {
      RowReached(size, visited, c.x);
    } else {
      var below := Vector2(c.x, c.y - 2);
      ColumnReached(size, visited, below);
      assert TwoStep(size, below, c);
    }
  }

  /** A visited list holding (1, 1) and closed under two-steps holds every room. */
  lemma RoomsReached(size: Vector2, visited: seq<Vector2>)
    requires Vector2(1, 1) in visited && forall v | v in visited :: Done(size, visited, v)
    ensures forall c | Room(size, c) :: c in visited
  {
    forall c | Room(size, c)
      ensures c in visited
    {
      ColumnReached(size, visited, c);
    }
  }

  /** Away from sides of 2, the cell between two rooms is strictly inside the grid. */
  lemma MidInterior(size: Vector2, v: Vector2, n: Vector2)
    requires Carvable(size) && size.x != 2 && size.y != 2 && Room(size, v) && TwoStep(size, v, n)
    ensures 1 <= Mid(v, n).x < size.x - 1 && 1 <= Mid(v, n).y < size.y - 1
  {
  }

  /** Away from sides of 2, carving never clears a cell of the first or last row or column. */
  lemma CarvedInterior(size: Vector2, visited: seq<Vector2>, parents: seq<nat>)
    requires Carvable(size) && size.x != 2 && size.y != 2 && Tree(size, visited, parents)
    ensures forall c | c in Carved(visited, parents) :: 1 <= c.x < size.x - 1 && 1 <= c.y < size.y - 1
  {
    forall c | c in Carved(visited, parents)
      ensures 1 <= c.x < size.x - 1 && 1 <= c.y < size.y - 1
    {
      var k :| 1 <= k < |visited| && k < |parents| && parents[k] < |visited| && c == Mid(visited[parents[k]], visited[k]);
      MidInterior(size, visited[parents[k]], visited[k]);
    }
  }

  /** The cells from (1, 1) to the k-th visited room: the trail to its parent, the cell carved between them, and the room. */
  ghost function Trail(visited: seq<Vector2>, parents: seq<nat>, k: nat): (t: seq<Vector2>)
    requires k < |visited| == |parents| && forall j | 1 <= j < |visited| :: parents[j] < j
    ensures t != [] && t[0] == visited[0] && t[|t| - 1] == visited[k]
    decreases k
  {
    if k == 0 then [visited[0]]
    else Trail(visited, parents, parents[k]) + [Mid(visited[parents[k]], visited[k]), visited[k]]
  }

  /** t is a walk of open cells, each beside the next. */
  ghost predicate Walk(size: Vector2, carved: set<Vector2>, t: seq<Vector2>)
  {
    (forall i | 0 <= i < |t| :: Open(size, carved, t[i])) &&
    forall i | 0 <= i < |t| - 1 :: Adjacent(t[i], t[i + 1])
  }

  /** On sides of at least 3 a room is an open cell, and the cell between it and a room two steps away is beside both. */
  lemma RoomStep(size: Vector2, carved: set<Vector2>, v: Vector2, n: Vector2)
    requires size.x >= 3 && size.y >= 3 && Room(size, v) && TwoStep(size, v, n) && Mid(v, n) in carved
    ensures Open(size, carved, n) && Open(size, carved, Mid(v, n))
    ensures Adjacent(v, Mid(v, n)) && Adjacent(Mid(v, n), n)
  {
    TwoStepRoom(size, v, n);
    MidInside(size, v, n);
  }

  /** Each step of the trail goes to a neighbouring open cell. */
  lemma {:induction false} TrailWalk(size: Vector2, visited: seq<Vector2>, parents: seq<nat>, k: nat)
    requires Tree(size, visited, parents) && size.x >= 3 && size.y >= 3 && k < |visited|
    ensures Walk(size, Carved(visited, parents), Trail(visited, parents, k))
    decreases k
  {
    var carved := Carved(visited, parents);
    if k == 0 {
      assert Room(size, visited[0]);
    } else {
      var p := parents[k];
      TrailWalk(size, visited, parents, p);
      var m := Mid(visited[p], visited[k]);
      assert m in carved;
      RoomStep(size, carved, visited[p], visited[k]);
      var t0 := Trail(visited, parents, p);
      var t := t0 + [m, visited[k]];
      assert t == Trail(visited, parents, k);
      forall i | 0 <= i < |t|
        ensures Open(size, carved, t[i])
      {
        if i < |t0| {
          assert t[i] == t0[i];
        }
      }
      forall i | 0 <= i < |t| - 1
        ensures Adjacent(t[i], t[i + 1])
      {
        if i < |t0| - 1 {
          assert t[i] == t0[i] && t[i + 1] == t0[i + 1];
        } else if i == |t0| - 1 {
          assert t[i] == visited[p];
        }
      }
    }
  }

  /** Every visited room is joined to (1, 1) by a walk of open cells: the maze is connected. */
  lemma Connected(size: Vector2, visited: seq<Vector2>, parents: seq<nat>)
    requires Tree(size, visited, parents) && size.x >= 3 && size.y >= 3
    ensures forall k | 0 <= k < |visited| ::
      var t := Trail(visited, parents, k);
      t[0] == Vector2(1, 1) && t[|t| - 1] == visited[k] && Walk(size, Carved(visited, parents), t)
  {
    forall k | 0 <= k < |visited|
      ensures Walk(size, Carved(visited, parents), Trail(visited, parents, k))
    {
      TrailWalk(size, visited, parents, k);
    }
  }
}
