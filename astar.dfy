/**
 * The A* engine: a square grid of nodes, a start and a destination, the
 * open list, the closed set and the path found.  The engine owns the nodes
 * and updates their fields in place; the open list, closed set and path are
 * kept as the coordinates of the nodes they hold, which is what node
 * equality compares.
 */
module AStarSearch {
  import opened Vectors
  import opened Wrappers
  import opened AstarNodes
  import opened Moves
  import opened Lists
  import opened GridDump
  import opened SearchStates

  /** The exceptions the engine raises on bad arguments. */
  datatype Error =
    | StartOrDestOutOfBounds
    | BlockIsStartOrDest
    | BlockOutOfBounds
    | InputWrongSize

  const START_TAG: string := "ST"
  const DEST_TAG: string := "FI"
  const BLOCK_TAG: string := "||"
  const PATH_TAG: string := "~~"

  class AStar {
    /** Side length of the square grid. */
    const size: nat
    /** grid[y][x] holds the node at coordinates (x, y); the rows are never replaced after construction. */
    const grid: seq<seq<AstarNode>>
    /** The nodes the grid holds. */
    ghost const nodes: set<AstarNode>
    var from: Vector2
    var to: Vector2
    /** The open list, as the positions of the nodes it holds. */
    var openList: seq<Vector2>
    var closedSet: set<Vector2>
    /** The path found, destination first, as filled by backTracePath. */
    var path: seq<Vector2>
    var totalCost: int
    var allowDiagonal: bool
    /** The order in which the search closed each cell. */
    ghost var closedAt: map<Vector2, nat>
    /** The back-links and costs of the nodes, as positions and numbers. */
    ghost var links: map<Vector2, Link>
    /** The walkable cells when the search started. */
    ghost var walk: set<Vector2>

    /** The grid is size x size and the node at (x, y) knows its own coordinates. */
    ghost predicate Positions()
    {
      Square() &&
      (forall y, x | 0 <= y < size && 0 <= x < size :: grid[y][x].pos == Vector2(x, y)) &&
      forall n | n in nodes :: InGrid(size, n.pos) && grid[n.pos.y][n.pos.x] == n
    }

    /** The grid has size rows of size nodes, all of them the engine's. */
    ghost predicate Square()
    {
      |grid| == size && (forall y | 0 <= y < size :: |grid[y]| == size) &&
      forall y, x | 0 <= y < size && 0 <= x < size :: grid[y][x] in nodes
    }

    /** getNode: the node at the given coordinates. */
    function Node(p: Vector2): (n: AstarNode)
      requires Positions() && InGrid(size, p)
      ensures n.pos == p && n in nodes
    {
      grid[p.y][p.x]
    }

    /** The grid is in place and the start and destination lie inside it. */
    ghost predicate Shape()
      reads this`from, this`to
    {
      Positions() && InGrid(size, from) && InGrid(size, to)
    }

    /** Every cell shows a two-character tag. */
    ghost predicate Valid()
      reads this`from, this`to, nodes`status
    {
      Shape() && forall p | InGrid(size, p) :: |Node(p).status| == 2
    }

    /** No search has run yet: empty lists and no back-links. */
    ghost predicate Fresh()
      reads this, nodes`status, nodes`previous
    {
      Valid() && openList == [] && closedSet == {} && closedAt == map[] && path == [] &&
      forall p | InGrid(size, p) :: Node(p).previous == null
    }

    /** The walkable cells of the grid. */
    ghost function Walkable(): (w: set<Vector2>)
      reads nodes`walkable
      requires Positions()
      ensures forall p | InGrid(size, p) :: p in w <==> Node(p).walkable
      ensures forall p | p in w :: InGrid(size, p)
    {
      set x, y | 0 <= x < size && 0 <= y < size && Node(Vector2(x, y)).walkable :: Vector2(x, y)
    }

    constructor (size: nat, from: Vector2, to: Vector2)
      requires InGrid(size, from) && InGrid(size, to)
      ensures Fresh() && fresh(nodes)
      ensures this.size == size && this.from == from && this.to == to
      ensures totalCost == INT_MAX && allowDiagonal
      ensures forall p | InGrid(size, p) :: Node(p).walkable
      ensures forall p | InGrid(size, p) ::
        Node(p).status == if p == from then START_TAG else if p == to then DEST_TAG else BLANK
    {
      var g, ns := NewGrid(size);
      this.size := size;
      grid := g;
      nodes := ns;
      this.from := from;
      this.to := to;
      path := [];
      openList := [];
      closedSet := {};
      closedAt := map[];
      totalCost := INT_MAX;
      allowDiagonal := true;
      new;
      assert Positions();
      SetStartDestStatus();
    }

    /** A new size x size grid: fresh walkable, untagged nodes without a parent, the node at (x, y) in row y, column x. */
    static method NewGrid(size: nat) returns (g: seq<seq<AstarNode>>, ghost ns: set<AstarNode>)
      ensures fresh(ns) && |g| == size
      ensures forall y | 0 <= y < size :: |g[y]| == size
      ensures forall n | n in ns :: InGrid(size, n.pos) && g[n.pos.y][n.pos.x] == n
      ensures forall y, x | 0 <= y < size && 0 <= x < size ::
        g[y][x] in ns && g[y][x].pos == Vector2(x, y) &&
        g[y][x].previous == null && g[y][x].walkable && g[y][x].status == BLANK
    {
      g, ns := [], {};
      for i := 0 to size
        invariant fresh(ns) && |g| == i
        invariant forall y | 0 <= y < i :: |g[y]| == size
        invariant forall n | n in ns :: InGrid(size, n.pos) && n.pos.y < i && g[n.pos.y][n.pos.x] == n
        invariant forall y, x | 0 <= y < i && 0 <= x < size ::
          g[y][x] in ns && g[y][x].pos == Vector2(x, y) &&
          g[y][x].previous == null && g[y][x].walkable && g[y][x].status == BLANK
      {
        var row, rs := NewRow(size, i);
        g := g + [row];
        ns := ns + rs;
      }
    }

    /** Row i of a new grid: fresh walkable, untagged nodes without a parent at (0, i) .. (size - 1, i). */
    static method NewRow(size: nat, i: int) returns (row: seq<AstarNode>, ghost rs: set<AstarNode>)
      ensures fresh(rs) && |row| == size
      ensures forall n | n in rs :: n.pos.y == i && 0 <= n.pos.x < size && row[n.pos.x] == n
      ensures forall x | 0 <= x < size ::
        row[x] in rs && row[x].pos == Vector2(x, i) &&
        row[x].previous == null && row[x].walkable && row[x].status == BLANK
    {
      row, rs := [], {};
      for j := 0 to size
        invariant fresh(rs) && |row| == j
        invariant forall n | n in rs :: n.pos.y == i && 0 <= n.pos.x < j && row[n.pos.x] == n
        invariant forall x | 0 <= x < j ::
          row[x] in rs && row[x].pos == Vector2(x, i) &&
          row[x].previous == null && row[x].walkable && row[x].status == BLANK
      {
        var n := new AstarNode(Vector2(j, i));
        row := row + [n];
        rs := rs + {n};
      }
    }

    /** The public constructor: it rejects a start or destination outside the grid. */
    static method Create(size: int, from: Vector2, to: Vector2) returns (r: Result<AStar, Error>)
      ensures r.Failure? <==> !from.AllInRange(0, size) || !to.AllInRange(0, size)
      ensures r.Failure? ==> r.error == StartOrDestOutOfBounds
      ensures r.Success? ==> r.value.Fresh() && r.value.size == size &&
                             r.value.from == from && r.value.to == to
      ensures r.Success? ==> r.value.totalCost == INT_MAX && r.value.allowDiagonal
      ensures r.Success? ==> forall p | InGrid(size, p) :: r.value.Node(p).walkable
      ensures r.Success? ==> forall p | InGrid(size, p) ::
        r.value.Node(p).status == if p == from then START_TAG else if p == to then DEST_TAG else BLANK
    {
      if !from.AllInRange(0, size) || !to.AllInRange(0, size) {
        return Failure(StartOrDestOutOfBounds);
      }
      var a := new AStar(size, from, to);
      return Success(a);
    }

    /** Tags the destination "FI" and then the start "ST", so a start that is also the destination shows "ST". */
    method SetStartDestStatus()
      requires Shape()
      modifies nodes`status
      ensures forall p | InGrid(size, p) ::
        Node(p).status == if p == from then START_TAG else if p == to then DEST_TAG else old(Node(p).status)
    {
      Node(to).SetStatus(DEST_TAG);
      Node(from).SetStatus(START_TAG);
    }

    /**
     * setBlock: a start or destination cell cannot be blocked, and a
     * coordinate at or past the grid's side is rejected; otherwise the cell
     * becomes unwalkable with tag "||", or walkable with a blank tag.
     */
    method SetBlock(v: Vector2, block: bool) returns (r: Result<(), Error>)
      requires Valid() && v.x >= 0 && v.y >= 0
      modifies nodes`walkable, nodes`status
      ensures Valid()
      ensures block && (v == from || v == to) ==> r == Failure(BlockIsStartOrDest)
      ensures !(block && (v == from || v == to)) && !InGrid(size, v) ==> r == Failure(BlockOutOfBounds)
      ensures r.Success? <==> !(block && (v == from || v == to)) && InGrid(size, v)
      ensures r.Success? ==> Node(v).walkable == !block && Node(v).status == (if block then BLOCK_TAG else BLANK)
      ensures forall p | InGrid(size, p) && (r.Failure? || p != v) ::
        Node(p).walkable == old(Node(p).walkable) && Node(p).status == old(Node(p).status)
    {
      if block && (v == from || v == to) {
        return Failure(BlockIsStartOrDest);
      } else {
        if v.x >= size || v.y >= size {
          return Failure(BlockOutOfBounds);
        }
      }
      var n := Node(v);
      n.SetWalkable(!block);
      n.SetStatus(if block then BLOCK_TAG else BLANK);
      return Success(());
    }

    /**
     * toggleBlock passes the cell's own walkable flag as the block argument,
     * so a walkable cell is "unblocked" and a blocked cell is "blocked" again:
     * no cell ever changes walkability.  Re-blocking a blocked start or
     * destination is refused.
     */
    method ToggleBlock(v: Vector2) returns (r: Result<(), Error>)
      requires Valid() && InGrid(size, v)
      modifies nodes`walkable, nodes`status
      ensures Valid()
      ensures forall p | InGrid(size, p) :: Node(p).walkable == old(Node(p).walkable)
      ensures r.Failure? <==> !old(Node(v).walkable) && (v == from || v == to)
      ensures r.Success? ==> Node(v).status == if Node(v).walkable then BLANK else BLOCK_TAG
      ensures r.Failure? ==> Node(v).status == old(Node(v).status)
      ensures forall p | InGrid(size, p) && p != v :: Node(p).status == old(Node(p).status)
    {
      r := SetBlock(v, !Node(v).walkable);
    }

    /**
     * The toggle toggleBlock is evidently meant to be: a walkable cell is
     * blocked and a blocked cell cleared, and blocking the start or the
     * destination is refused.
     */
    method FlipBlock(v: Vector2) returns (r: Result<(), Error>)
      requires Valid() && InGrid(size, v)
      modifies nodes`walkable, nodes`status
      ensures Valid()
      ensures r.Failure? <==> old(Node(v).walkable) && (v == from || v == to)
      ensures r.Success? ==> Node(v).walkable == !old(Node(v).walkable) &&
                             Node(v).status == if Node(v).walkable then BLANK else BLOCK_TAG
      ensures forall p | InGrid(size, p) && (r.Failure? || p != v) ::
        Node(p).walkable == old(Node(p).walkable) && Node(p).status == old(Node(p).status)
    {
      r := SetBlock(v, Node(v).walkable);
    }

    /** The input has one row per grid row and one entry per grid column. */
    predicate SquareInput(input: seq<seq<bool>>)
      reads this
    {
      |input| == size && forall i | 0 <= i < |input| :: |input[i]| == size
    }

    /**
     * setBlocks: an input that is not size x size is rejected.  Each true
     * entry input[y][x] calls setBlock((x, y), false), which makes that cell
     * walkable with a blank tag; false entries leave their cell alone.
     */
    method SetBlocks(input: seq<seq<bool>>) returns (r: Result<(), Error>)
      requires Valid()
      modifies nodes`walkable, nodes`status
      ensures Valid()
      ensures r.Failure? <==> !SquareInput(input)
      ensures r.Failure? ==> r.error == InputWrongSize
      ensures forall p | InGrid(size, p) ::
        if r.Success? && input[p.y][p.x] then Node(p).walkable && Node(p).status == BLANK
        else Node(p).walkable == old(Node(p).walkable) && Node(p).status == old(Node(p).status)
    {
      if |input| != size || exists i | 0 <= i < |input| :: |input[i]| != size {
        return Failure(InputWrongSize);
      }
      for i := 0 to |input|
        invariant Valid()
        invariant forall p | InGrid(size, p) ::
          if p.y < i && input[p.y][p.x] then Node(p).walkable && Node(p).status == BLANK
          else Node(p).walkable == old(Node(p).walkable) && Node(p).status == old(Node(p).status)
      {
        for j := 0 to |input|
          invariant Valid()
          invariant forall p | InGrid(size, p) ::
            if (p.y < i || (p.y == i && p.x < j)) && input[p.y][p.x] then Node(p).walkable && Node(p).status == BLANK
            else Node(p).walkable == old(Node(p).walkable) && Node(p).status == old(Node(p).status)
        {
          if input[i][j] {
            var _ := SetBlock(Vector2(j, i), false);
          }
        }
      }
      return Success(());
    }

    /** setFrom: the old start is blanked, the start moves to v, and the start and destination tags are redrawn. */
    method SetFrom(v: Vector2)
      requires Valid() && InGrid(size, v)
      modifies this`from, nodes`status
      ensures Valid() && from == v
      ensures forall p | InGrid(size, p) ::
        Node(p).status == if p == v then START_TAG else if p == to then DEST_TAG
                          else if p == old(from) then BLANK else old(Node(p).status)
    {
      Node(from).SetStatus(BLANK);
      from := v;
      SetStartDestStatus();
    }

    /** setTo: the old destination is blanked, the destination moves to v, and the tags are redrawn. */
    method SetTo(v: Vector2)
      requires Valid() && InGrid(size, v)
      modifies this`to, nodes`status
      ensures Valid() && to == v
      ensures forall p | InGrid(size, p) ::
        Node(p).status == if p == from then START_TAG else if p == v then DEST_TAG
                          else if p == old(to) then BLANK else old(Node(p).status)
    {
      Node(to).SetStatus(BLANK);
      to := v;
      SetStartDestStatus();
    }

    method SetAllowDiagonal(allowDiagonal: bool)
      modifies this`allowDiagonal
      ensures this.allowDiagonal == allowDiagonal
    {
      this.allowDiagonal := allowDiagonal;
    }

    /** The search state as a value. */
    ghost function State(): Search
      reads this`allowDiagonal, this`from, this`to, this`walk, this`links
      reads this`openList, this`closedSet, this`closedAt
    {
      Search(size, allowDiagonal, from, to, walk, links, openList, closedSet, closedAt)
    }

    /** Node n holds exactly the link l: its parent node, its three costs, and its walkability. */
    ghost predicate Agrees(n: AstarNode, l: Link)
      reads this`walk, n`gCost, n`hCost, n`fCost, n`walkable, n`previous
    {
      n.gCost == l.g && n.hCost == l.h && n.fCost == l.f && (n.walkable <==> n.pos in walk) &&
      match l.prev
      case None => n.previous == null
      case Some(q) => n.previous != null && n.previous in nodes && n.previous.pos == q
    }

    /** Every node agrees with its link. */
    ghost predicate Mirror()
      reads this`walk, this`links, nodes`gCost, nodes`hCost, nodes`fCost, nodes`walkable, nodes`previous
      requires Positions()
    {
      forall p {:trigger Node(p)} | InGrid(size, p) :: p in links && Agrees(Node(p), links[p])
    }

    /**
     * The head of the open list under the queue's order: the index, among the
     * first i entries, of the first node of least f cost.
     */
    function Least(i: nat): (k: nat)
      reads this`openList, nodes`fCost
      requires Positions() && 0 < i <= |openList| && forall p | p in openList :: InGrid(size, p)
      ensures k < i && forall j | 0 <= j < i :: Node(openList[k]).fCost <= Node(openList[j]).fCost
    {
      if i == 1 then 0
      else
        var k := Least(i - 1);
        if Node(openList[i - 1]).fCost < Node(openList[k]).fCost then i - 1 else k
    }

    /**
     * addNeighbourNode: a walkable, unclosed neighbour that is new, or that
     * the closed cell `current` reaches more cheaply, takes `current` as its
     * parent, gets fresh costs, and joins the open list if it was not on it.
     * Any other neighbour is left alone.  The search state moves as Visit
     * says and the nodes keep mirroring it.
     */
    method AddNeighbourNode(current: AstarNode, neighbour: AstarNode, cost: int)
      requires Shape() && Mirror()
      requires InGrid(size, current.pos) && current == Node(current.pos) && current.pos in closedSet
      requires InGrid(size, neighbour.pos) && neighbour == Node(neighbour.pos)
      requires cost == StepCost(current.pos, neighbour.pos)
      modifies this`openList, this`links, neighbour`previous, neighbour`hCost, neighbour`gCost, neighbour`fCost
      ensures Mirror()
      ensures State() == old(State()).Visit(current.pos, neighbour.pos)
    {
      var nb := neighbour.pos;
      if neighbour.walkable && nb !in closedSet {
        if nb !in openList || neighbour.CheckShorterPath(current, cost) {
          ghost var s := State();
          assert current.gCost == links[current.pos].g && neighbour.gCost == links[nb].g && nb in walk;
          Relax(current, neighbour, cost, s.RelaxedLink(current.pos, nb));
          assert State() == s.Relax(current.pos, nb);
        }
      }
    }

    /**
     * The update branch of addNeighbourNode: the neighbour takes `current` as
     * its parent and gets its costs from calcAllCosts, its link records the
     * same, and it joins the open list if it is not on it.
     */
    method Relax(current: AstarNode, neighbour: AstarNode, cost: int, ghost l: Link)
      requires Shape() && Mirror()
      requires l == Link(Some(current.pos), current.gCost + cost, HCost(neighbour.pos, to), current.gCost + cost + HCost(neighbour.pos, to))
      requires InGrid(size, current.pos) && current == Node(current.pos)
      requires InGrid(size, neighbour.pos) && neighbour == Node(neighbour.pos) && current.pos != neighbour.pos
      requires neighbour.pos in walk
      modifies this`openList, this`links, neighbour`previous, neighbour`hCost, neighbour`gCost, neighbour`fCost
      ensures Mirror()
      ensures links == old(links)[neighbour.pos := l]
      ensures openList == if neighbour.pos in old(openList) then old(openList) else old(openList) + [neighbour.pos]
    {
      var nb := neighbour.pos;
      assert current != neighbour;
      neighbour.SetPrevious(current);
      neighbour.CalcAllCosts(Node(to), cost);
      if nb !in openList {
        openList := openList + [nb];
      }
      links := links[nb := l];
      assert Agrees(neighbour, l);
      forall p | InGrid(size, p) && p != nb
        ensures p in links && Agrees(Node(p), links[p])
      {
        assert old(Agrees(Node(p), links[p]));
        assert Node(p) != neighbour;
      }
    }

    /** The inner loop of addNeighbours with diagonals: the cells of row i beside `current`, left to right. */
    method AddRowNeighbours(current: AstarNode, i: int)
      requires Shape() && Mirror() && allowDiagonal
      requires InGrid(size, current.pos) && current == Node(current.pos) && current.pos in closedSet
      requires 0 <= i < size
      modifies this`openList, this`links, nodes`previous, nodes`hCost, nodes`gCost, nodes`fCost
      ensures Mirror()
      ensures State() == old(State()).VisitAll(current.pos, RowCandidates(size, current.pos, i, current.pos.x + 2))
    {
      var cx := current.pos.x;
      ghost var c := current.pos;
      ghost var s := State();
      for j := cx - 1 to cx + 2
        invariant Mirror()
        invariant State() == s.VisitAll(c, RowCandidates(size, c, i, j))
      {
        AddBlockCell(current, j, i, s, RowCandidates(size, c, i, j));
        RowCandidatesStep(size, c, i, j);
      }
    }

    /** One cell of the eight-way expansion: (x, y), at cost 14 on a diagonal and 10 otherwise, if it is in the grid and not `current`. */
    method AddBlockCell(current: AstarNode, x: int, y: int, ghost s: Search, ghost done: seq<Vector2>)
      requires Shape() && Mirror()
      requires InGrid(size, current.pos) && current == Node(current.pos) && current.pos in closedSet
      requires current.pos in s.links && State() == s.VisitAll(current.pos, done)
      modifies this`openList, this`links, nodes`previous, nodes`hCost, nodes`gCost, nodes`fCost
      ensures Mirror()
      ensures State() == s.VisitAll(current.pos, done + Candidate(size, current.pos, x, y))
    {
      if 0 <= x < size && 0 <= y < size && !(current.pos.x == x && current.pos.y == y) {
        var nb := grid[y][x];
        assert nb == Node(Vector2(x, y));
        AddNeighbourNode(current, nb, if IsDiagonal(current.pos, nb.pos) then DIAG_COST else DEF_COST);
        s.VisitAllSnoc(current.pos, done, nb.pos);
      } else {
        assert done + [] == done;
      }
    }

    /**
     * addNeighbours: with diagonals, every in-grid cell of the 3x3 block
     * around `current` except itself, row by row, at cost 14 for a diagonal
     * and 10 otherwise; without, the right, left, lower and upper neighbours
     * that pass isInBounds, at cost 10.  The search state moves as Expand says.
     */
    method AddNeighbours(current: AstarNode)
      requires Shape() && Mirror()
      requires InGrid(size, current.pos) && current == Node(current.pos) && current.pos in closedSet
      modifies this`openList, this`links, nodes`previous, nodes`hCost, nodes`gCost, nodes`fCost
      ensures Mirror()
      ensures State() == old(State()).Expand(current.pos)
    {
      if allowDiagonal {
        AddBlockNeighbours(current);
      } else {
        AddCrossNeighbours(current);
      }
    }

    /** The eight-way half of addNeighbours: the 3x3 block around `current`, row by row. */
    method AddBlockNeighbours(current: AstarNode)
      requires allowDiagonal
      requires Shape() && Mirror()
      requires InGrid(size, current.pos) && current == Node(current.pos) && current.pos in closedSet
      modifies this`openList, this`links, nodes`previous, nodes`hCost, nodes`gCost, nodes`fCost
      ensures Mirror()
      ensures State() == old(State()).VisitAll(current.pos, BlockCandidates(size, current.pos, current.pos.y + 2))
    {
      var cx, cy := current.pos.x, current.pos.y;
      ghost var s := State();
      ghost var c := current.pos;
      for i := cy - 1 to cy + 2
        invariant Mirror()
        invariant State() == s.VisitAll(c, BlockCandidates(size, c, i))
      {
        ghost var done := BlockCandidates(size, c, i);
        if 0 <= i < size {
          AddRowNeighbours(current, i);
          s.VisitAllAppend(c, done, RowCandidates(size, c, i, cx + 2));
        } else {
          RowCandidatesOutside(size, c, i);
        }
        BlockCandidatesStep(size, c, i);
      }
    }

    /** The four-way half of addNeighbours: right, left, down, up. */
    method AddCrossNeighbours(current: AstarNode)
      requires Shape() && Mirror()
      requires InGrid(size, current.pos) && current == Node(current.pos) && current.pos in closedSet
      modifies this`openList, this`links, nodes`previous, nodes`hCost, nodes`gCost, nodes`fCost
      ensures Mirror()
      ensures State() == old(State()).VisitAll(current.pos, CrossCandidates(size, current.pos))
    {
      var cx, cy := current.pos.x, current.pos.y;
      ghost var s := State();
      ghost var c := current.pos;
      AddCrossPair(current, cx + 1, cy, cx - 1, cy, s, []);
      AddCrossPair(current, cx, cy + 1, cx, cy - 1, s, [] + CrossStep(size, cx + 1, cy) + CrossStep(size, cx - 1, cy));
      assert [] + CrossStep(size, cx + 1, cy) == CrossStep(size, cx + 1, cy);
    }

    /** Two consecutive guarded calls of the four-way expansion: the horizontal pair, or the vertical one. */
    method AddCrossPair(current: AstarNode, x1: int, y1: int, x2: int, y2: int, ghost s: Search, ghost done: seq<Vector2>)
      requires Shape() && Mirror() && !IsDiagonal(current.pos, Vector2(x1, y1)) && !IsDiagonal(current.pos, Vector2(x2, y2))
      requires InGrid(size, current.pos) && current == Node(current.pos) && current.pos in closedSet
      requires current.pos in s.links && State() == s.VisitAll(current.pos, done)
      modifies this`openList, this`links, nodes`previous, nodes`hCost, nodes`gCost, nodes`fCost
      ensures Mirror()
      ensures State() == s.VisitAll(current.pos, done + CrossStep(size, x1, y1) + CrossStep(size, x2, y2))
    {
      AddIfInBounds(current, x1, y1, s, done);
      AddIfInBounds(current, x2, y2, s, done + CrossStep(size, x1, y1));
    }

    /** One guarded call of the four-way expansion: the cell (x, y), at cost 10, if it passes isInBounds. */
    method AddIfInBounds(current: AstarNode, x: int, y: int, ghost s: Search, ghost done: seq<Vector2>)
      requires Shape() && Mirror() && !IsDiagonal(current.pos, Vector2(x, y))
      requires InGrid(size, current.pos) && current == Node(current.pos) && current.pos in closedSet
      requires current.pos in s.links && State() == s.VisitAll(current.pos, done)
      modifies this`openList, this`links, nodes`previous, nodes`hCost, nodes`gCost, nodes`fCost
      ensures Mirror()
      ensures State() == s.VisitAll(current.pos, done + CrossStep(size, x, y))
    {
      if IsInBounds(size, x, y) {
        AddNeighbourNode(current, grid[y][x], DEF_COST);
        s.VisitAllSnoc(current.pos, done, Vector2(x, y));
      } else {
        assert done + [] == done;
      }
    }

    /**
     * backTracePath: appends `current` and then, recursively, its parent
     * until a node without one; on a search state that keeps its invariant
     * this is the back-chain of the cell, which ends at the start.
     */
    method BackTracePath(current: AstarNode?, ghost s: Search)
      requires Shape() && Mirror() && s.Inv() && s.links == links
      requires current != null ==> InGrid(size, current.pos) && current == Node(current.pos) && current.pos in s.closed
      modifies this`path
      ensures current == null ==> path == old(path)
      ensures current != null ==> path == old(path) + s.Chain(current.pos)
      decreases if current == null then 0 else s.rank[current.pos] + 1
    {
      if current != null {
        s.ChainStep(current.pos);
        assert Agrees(current, links[current.pos]);
        ghost var before := path;
        path := path + [current.pos];
        var parent := current.previous;
        ghost var rest := if parent == null then [] else s.Chain(parent.pos);
        if parent != null {
          assert parent == Node(parent.pos);
        }
        assert s.Chain(current.pos) == [current.pos] + rest;
        BackTracePath(parent, s);
        AppendAssoc(before, [current.pos], rest);
      }
    }

    /** setFinalPathStatus: every cell of the path is tagged "~~", then the start and destination tags are redrawn. */
    method SetFinalPathStatus()
      requires Valid() && forall p | p in path :: InGrid(size, p)
      modifies nodes`status
      ensures Valid()
      ensures forall p | InGrid(size, p) ::
        Node(p).status == if p == from then START_TAG else if p == to then DEST_TAG
                          else if p in path then PATH_TAG else old(Node(p).status)
    {
      for i := 0 to |path|
        invariant forall p | InGrid(size, p) ::
          Node(p).status == if p in path[..i] then PATH_TAG else old(Node(p).status)
      {
        Node(path[i]).SetStatus(PATH_TAG);
        assert path[..i + 1] == path[..i] + [path[i]];
      }
      assert path[..|path|] == path;
      SetStartDestStatus();
    }

    /** The cell tags of rows 0 .. n - 1: row y holds the tags of (0, y) .. (size - 1, y). */
    function StatusRows(n: nat): (rows: seq<seq<string>>)
      reads nodes`status
      requires Square() && n <= size
      ensures |rows| == n && forall y | 0 <= y < n :: rows[y] == StatusRow(y, size)
    {
      if n == 0 then [] else StatusRows(n - 1) + [StatusRow(n - 1, size)]
    }

    /** The tags of (0, y) .. (n - 1, y). */
    function StatusRow(y: int, n: nat): (row: seq<string>)
      reads nodes`status
      requires Square() && 0 <= y < size && n <= size
      ensures |row| == n && forall x {:trigger row[x]} | 0 <= x < n :: row[x] == grid[y][x].status
    {
      if n == 0 then [] else StatusRow(y, n - 1) + [grid[y][n - 1].status]
    }

    /**
     * toString: the column header, a newline, a dash line of 3 * size + 5,
     * a newline, one line per row with its label and the blank-prefixed cell
     * tags, and a closing dash line without a newline.  With two-character
     * tags and 1 to 100 rows the dump has 3(size+2)(size+3) characters.
     */
    method ToString() returns (s: string)
      requires Positions()
      ensures s == Render(StatusRows(size))
      ensures (forall y, x | 0 <= y < size && 0 <= x < size :: |grid[y][x].status| == 2) && 1 <= size <= 100 ==>
        |s| == 3 * (size + 2) * (size + 3)
    {
      s := ColumnHeader();
      s := s + "\n";
      s := s + Dashes(size * 3 + 5);
      s := s + "\n";
      s := AppendRows(s);
      ghost var rows := StatusRows(size);
      s := s + Dashes(size * 3 + 5);
      RenderUnfold(rows, size);
      DumpLength();
    }

    /** The column header of toString: "      00 ", then "0i " up to 9 and "i " from 10. */
    method ColumnHeader() returns (s: string)
      ensures s == Header(size)
    {
      s := "";
      for i := 0 to size
        invariant s == Header(i)
      {
        if i == 0 {
          s := s + "      00 ";
        } else if i > 9 {
          s := s + (NatStr(i) + " ");
        } else {
          s := s + ("0" + NatStr(i) + " ");
        }
      }
    }

    /** The rows of toString, one line each. */
    method AppendRows(s0: string) returns (s: string)
      requires Square()
      ensures s == s0 + Body(StatusRows(size))
    {
      s := s0;
      for i := 0 to size
        invariant s == s0 + Body(StatusRows(i))
      {
        s := AppendRow(s0, s, i);
      }
    }

    /** One row of toString: its label, a blank and the tag of each cell, and a newline. */
    method AppendRow(s0: string, prefix: string, i: nat) returns (s: string)
      requires Square() && i < size && prefix == s0 + Body(StatusRows(i))
      ensures s == s0 + Body(StatusRows(i + 1))
    {
      s := prefix + RowLabel(i);
      for j := 0 to size
        invariant s == prefix + RowLabel(i) + CellsText(StatusRow(i, j))
      {
        s := s + " " + grid[i][j].status;
        CellsStep(prefix + RowLabel(i), StatusRow(i, j), grid[i][j].status);
      }
      s := s + "\n";
      RowStep(prefix, i, StatusRow(i, size));
      BodyStep(s0, StatusRows(i), StatusRow(i, size));
    }

    /** When every cell shows a two-character tag, a dump of 1 to 100 rows has 3(size+2)(size+3) characters. */
    lemma DumpLength()
      requires Square()
      ensures (forall y, x | 0 <= y < size && 0 <= x < size :: |grid[y][x].status| == 2) && 1 <= size <= 100 ==>
        |Render(StatusRows(size))| == 3 * (size + 2) * (size + 3)
    {
      if (forall y, x | 0 <= y < size && 0 <= x < size :: |grid[y][x].status| == 2) && 1 <= size <= 100 {
        assert SquareOfTags(StatusRows(size), size);
        RenderLength(StatusRows(size));
      }
    }

    /**
     * calcPath, for one run on a fresh grid: the start gets zero costs and
     * is opened; then, while cells are open, a cell of least f cost is
     * closed; the destination ends the search with its f cost as the total
     * cost and its back-chain as the path, any other cell is expanded.  A
     * path is found exactly when the destination can be reached; it then
     * runs from the destination back to the start without repeating a cell,
     * read backwards it is a walk over walkable cells, its cost is the
     * total cost, and its cells are tagged.  Otherwise nothing is tagged and
     * the total cost stays at its initial value.
     */
    method CalcPath()
      requires Fresh()
      modifies this`openList, this`closedSet, this`closedAt, this`path, this`totalCost
      modifies this`links, this`walk, nodes`previous, nodes`hCost, nodes`gCost, nodes`fCost, nodes`status
      ensures Valid()
      ensures path != [] <==> Reachable(allowDiagonal, size, Walkable(), from, to)
      ensures path != [] ==>
        path[0] == to && Last(path) == from && NoDup(path) && totalCost == PathCost(path) &&
        IsWalk(allowDiagonal, size, Walkable(), Reverse(path)) &&
        Reverse(path)[0] == from && Last(Reverse(path)) == to
      ensures path == [] ==> totalCost == old(totalCost) && forall p | InGrid(size, p) :: Node(p).status == old(Node(p).status)
      ensures path == [] ==> openList == [] && forall p | Reachable(allowDiagonal, size, Walkable(), from, p) :: p in closedSet
      ensures path != [] ==> forall p | InGrid(size, p) ::
        Node(p).status == if p == from then START_TAG else if p == to then DEST_TAG
                          else if p in path then PATH_TAG else old(Node(p).status)
    {
      var found := FindPath();
      if found {
        SetFinalPathStatus();
      }
    }

    /** The search of calcPath: the setup, then the loop. */
    method FindPath() returns (found: bool)
      requires Fresh()
      modifies this`openList, this`closedSet, this`closedAt, this`path, this`totalCost
      modifies this`links, this`walk, nodes`previous, nodes`hCost, nodes`gCost, nodes`fCost
      ensures found <==> Reachable(allowDiagonal, size, Walkable(), from, to)
      ensures found ==>
        path != [] && path[0] == to && Last(path) == from && NoDup(path) && totalCost == PathCost(path) &&
        IsWalk(allowDiagonal, size, Walkable(), Reverse(path)) && Reverse(path)[0] == from && Last(Reverse(path)) == to &&
        forall p | p in path :: InGrid(size, p)
      ensures !found ==> path == [] && totalCost == old(totalCost) && openList == []
      ensures !found ==> forall p | Reachable(allowDiagonal, size, Walkable(), from, p) :: p in closedSet
    {
      OpenStart();
      ghost var w := walk;
      found := SearchLoop();
      assert walk == w;
      assert Walkable() == w;
    }

    /**
     * The setup of calcPath: the start's f, g and h costs become 0 and the
     * start joins the open list.  The search state it starts from has every
     * cell without a parent, and the walkable cells are fixed for the run.
     */
    method OpenStart()
      requires Fresh()
      modifies this`openList, this`links, this`walk, nodes`hCost, nodes`gCost, nodes`fCost
      ensures Shape() && Mirror() && State().Inv() && State().Frontier() && walk == Walkable()
      ensures openList == [from] && closedSet == {} && path == []
      ensures Node(from).fCost == 0 && Node(from).gCost == 0 && Node(from).hCost == 0
    {
      ZeroStart();
      MirrorNodes();
      OpenFrom(State());
    }

    /** The start's f, g and h costs become 0; no node gains a parent. */
    method ZeroStart()
      requires Fresh()
      modifies nodes`hCost, nodes`gCost, nodes`fCost
      ensures Shape() && openList == [] && closedSet == {} && closedAt == map[] && path == []
      ensures forall p | InGrid(size, p) :: Node(p).previous == null
      ensures Node(from).gCost == 0 && Node(from).fCost == 0 && Node(from).hCost == 0
      ensures forall p | InGrid(size, p) && p != from ::
        Node(p).fCost == old(Node(p).fCost) && Node(p).gCost == old(Node(p).gCost) && Node(p).hCost == old(Node(p).hCost)
    {
      var start := Node(from);
      start.SetFCost(0);
      start.SetGCost(0);
      start.SetHCost(0);
    }

    /** openList.add(from) on a search that has not started: the start is the one open cell. */
    method OpenFrom(ghost s0: Search)
      requires Shape() && Mirror() && State() == s0 && s0.Unstarted() && walk == Walkable() && path == []
      requires Node(from).gCost == 0 && Node(from).fCost == 0 && Node(from).hCost == 0
      modifies this`openList
      ensures Shape() && Mirror() && State().Inv() && State().Frontier() && walk == Walkable()
      ensures openList == [from] && closedSet == {} && path == []
      ensures Node(from).fCost == 0 && Node(from).gCost == 0 && Node(from).hCost == 0
    {
      s0.StartInv();
      openList := openList + [from];
      assert State() == s0.Start();
    }

    /**
     * Takes the links of the search state from the nodes as they stand, none
     * with a parent, and fixes the walkable cells for the run.
     */
    ghost method MirrorNodes()
      requires Shape() && openList == [] && closedSet == {} && closedAt == map[] && path == []
      requires forall p | InGrid(size, p) :: Node(p).previous == null
      requires Node(from).gCost == 0 && Node(from).fCost == 0 && Node(from).hCost == 0
      modifies this`links, this`walk
      ensures Shape() && Mirror() && State().Unstarted() && walk == Walkable() && path == []
      ensures Node(from).gCost == 0 && Node(from).fCost == 0 && Node(from).hCost == 0
    {
      walk := Walkable();
      links := map p | p in Cells(size) :: Link(None, Node(p).gCost, Node(p).hCost, Node(p).fCost);
    }

    /**
     * The loop of calcPath.  Each round closes an open cell of least f cost;
     * the destination stops the loop with found set, its f cost as the total
     * cost and its back-chain as the path; any other cell is expanded.  The
     * loop ends when found or when the open list runs dry.
     */
    method SearchLoop() returns (found: bool)
      requires Shape() && Mirror() && State().Inv() && State().Frontier()
      requires path == [] && to !in closedSet
      modifies this`openList, this`closedSet, this`closedAt, this`path, this`totalCost
      modifies this`links, nodes`previous, nodes`hCost, nodes`gCost, nodes`fCost
      ensures found <==> Reachable(allowDiagonal, size, walk, from, to)
      ensures found ==>
        path != [] && path[0] == to && Last(path) == from && NoDup(path) && totalCost == PathCost(path) &&
        IsWalk(allowDiagonal, size, walk, Reverse(path)) && Reverse(path)[0] == from && Last(Reverse(path)) == to &&
        forall p | p in path :: InGrid(size, p)
      ensures !found ==> path == [] && totalCost == old(totalCost) && openList == []
      ensures !found ==> forall p | Reachable(allowDiagonal, size, walk, from, p) :: p in closedSet
    {
      found := false;
      while openList != [] && !found
        invariant Shape() && Mirror() && State().Inv()
        invariant found ==> to in closedSet && path == State().Chain(to) && totalCost == links[to].f
        invariant !found ==> State().Frontier() && to !in closedSet && path == [] && totalCost == old(totalCost)
        decreases Cells(size) - closedSet
      {
        found := Round();
      }
      State().Outcome(found, path);
    }

    /**
     * One round of the loop of calcPath: the open cell of least f cost is
     * polled and closed; the destination ends the search with its f cost as
     * the total cost and its back-chain as the path, any other cell is
     * expanded.  The closed set grows by one cell of the grid.
     */
    method Round() returns (found: bool)
      requires Shape() && Mirror() && State().Inv() && State().Frontier()
      requires openList != [] && path == [] && to !in closedSet
      modifies this`openList, this`closedSet, this`closedAt, this`path, this`totalCost
      modifies this`links, nodes`previous, nodes`hCost, nodes`gCost, nodes`fCost
      ensures Shape() && Mirror() && State().Inv()
      ensures old(closedSet) < closedSet <= Cells(size)
      ensures found ==> to in closedSet && path == State().Chain(to) && totalCost == links[to].f
      ensures !found ==> State().Frontier() && to !in closedSet && path == [] && totalCost == old(totalCost)
    {
      ghost var s := State();
      var current;
      var k;
      s.OpenInGrid();
      current, k := PollAndClose(s);
      s.CloseStep(k);
      found := HandleClosed(current, old(closedSet));
    }

    /**
     * poll followed by closedSet.add: the open cell at the head of the queue
     * (a node of least f cost) leaves the open list and is closed with the
     * next rank, which is the search state's Close step.  The grid, the node
     * fields and the path are untouched.
     */
    method PollAndClose(ghost s: Search) returns (current: AstarNode, k: nat)
      requires Shape() && Mirror() && State() == s && openList != [] && forall p | p in openList :: InGrid(size, p)
      requires path == []
      modifies this`openList, this`closedSet, this`closedAt
      ensures Shape() && Mirror() && path == [] && totalCost == old(totalCost)
      ensures k < |s.open| && current.pos == s.open[k] && State() == s.Close(k)
      ensures current == Node(current.pos)
      ensures forall q | q in old(openList) :: current.fCost <= Node(q).fCost
    {
      k := Least(|openList|);
      current := Node(openList[k]);
      openList, closedAt, closedSet := openList[..k] + openList[k + 1..], closedAt[current.pos := |closedSet|], closedSet + {current.pos};
    }

    /**
     * The branch of the loop of calcPath on the cell just closed: the
     * destination ends the search, any other cell is expanded.
     */
    method HandleClosed(current: AstarNode, ghost before: set<Vector2>) returns (found: bool)
      requires Shape() && Mirror() && State().Inv() && State().FrontierBut(current.pos)
      requires InGrid(size, current.pos) && current == Node(current.pos) && current.pos in closedSet
      requires path == [] && (to in closedSet ==> to == current.pos)
      requires before < closedSet <= Cells(size)
      modifies this`openList, this`path, this`totalCost
      modifies this`links, nodes`previous, nodes`hCost, nodes`gCost, nodes`fCost
      ensures Shape() && Mirror() && State().Inv() && before < closedSet <= Cells(size)
      ensures found ==> to in closedSet && path == State().Chain(to) && totalCost == links[to].f
      ensures !found ==> State().Frontier() && to !in closedSet && path == [] && totalCost == old(totalCost)
    {
      if current.pos == to {
        found := true;
        FinishPath(current, before);
      } else {
        found := false;
        ExpandClosed(current, before);
      }
    }

    /** The cell just closed is the destination: its f cost is the total cost and its back-chain the path. */
    method FinishPath(current: AstarNode, ghost before: set<Vector2>)
      requires Shape() && Mirror() && State().Inv() && path == []
      requires InGrid(size, current.pos) && current == Node(current.pos) && current.pos in closedSet && current.pos == to
      requires before < closedSet <= Cells(size)
      modifies this`path, this`totalCost
      ensures Shape() && Mirror() && State().Inv() && before < closedSet <= Cells(size)
      ensures to in closedSet && path == State().Chain(to) && totalCost == links[to].f
    {
      totalCost := current.fCost;
      BackTracePath(current, State());
    }

    /**
     * addNeighbours on the cell just closed, which is not the destination:
     * the search keeps its invariant and the frontier property is restored.
     */
    method ExpandClosed(current: AstarNode, ghost before: set<Vector2>)
      requires Shape() && Mirror() && State().Inv() && State().FrontierBut(current.pos)
      requires InGrid(size, current.pos) && current == Node(current.pos) && current.pos in closedSet
      requires path == [] && to !in closedSet && before < closedSet <= Cells(size)
      modifies this`openList, this`links, nodes`previous, nodes`hCost, nodes`gCost, nodes`fCost
      ensures Shape() && Mirror() && State().Inv() && before < closedSet <= Cells(size)
      ensures State().Frontier() && to !in closedSet && path == [] && totalCost == old(totalCost)
    {
      ghost var u := State();
      AddNeighbours(current);
      u.ExpandStep(current.pos);
    }
  }
}
