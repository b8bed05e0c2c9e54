/**
 * The per-cell search record of the A* engine: its position in the grid,
 * its three costs, its walkable flag, its display tag and its back-link.
 */
module AstarNodes {
  import opened Vectors

  /** Java's Integer.MAX_VALUE, the "not reached yet" cost of a new node. */
  const INT_MAX: int := 0x7fff_ffff

  /** The tag a cell shows when it carries no special meaning. */
  const BLANK: string := "  "

  function Sq(d: int): (r: nat)
  {
    d * d
  }

  /**
   * The integer square root: the largest r with r * r <= n.  For the squared
   * distances of a grid of at most 200 columns this is what truncating
   * Java's double square root yields.
   */
  function ISqrt(n: nat): (r: nat)
    ensures r * r <= n < (r + 1) * (r + 1)
  {
    if n < 4 then
      (if n == 0 then 0 else 1)
    else
      var h := ISqrt(n / 4);
      ISqrtStep(n, h);
      if (2 * h + 1) * (2 * h + 1) <= n then 2 * h + 1 else 2 * h
  }

  /** The root of n / 4, doubled, brackets n up to 2. */
  lemma ISqrtStep(n: nat, h: nat)
    requires h * h <= n / 4 < (h + 1) * (h + 1)
    ensures (2 * h) * (2 * h) <= n < (2 * h + 2) * (2 * h + 2)
  {
    assert n == 4 * (n / 4) + n % 4;
    assert (2 * h) * (2 * h) == 4 * (h * h);
    assert (2 * h + 2) * (2 * h + 2) == 4 * ((h + 1) * (h + 1));
  }

  lemma SquareMonotone(a: nat, b: nat)
    requires a <= b
    ensures a * a <= b * b
  {
    assert a * a <= a * b;
  }

  /** ISqrt is the one number whose square brackets n: it is floor(sqrt(n)). */
  lemma ISqrtUnique(n: nat, r: nat)
    requires r * r <= n < (r + 1) * (r + 1)
    ensures ISqrt(n) == r
  {
    var s := ISqrt(n);
    if s < r {
      SquareMonotone(s + 1, r);
    } else if r < s {
      SquareMonotone(r + 1, s);
    }
  }

  /**
   * The heuristic of calcHCost: ten times the truncated Euclidean distance
   * between two positions (the cast to int binds before the factor 10).
   */
  function HCost(p: Vector2, to: Vector2): (h: nat)
    ensures h % 10 == 0
    ensures (h / 10) * (h / 10) <= Sq(p.x - to.x) + Sq(p.y - to.y) < (h / 10 + 1) * (h / 10 + 1)
  {
    10 * ISqrt(Sq(p.x - to.x) + Sq(p.y - to.y))
  }

  /** The heuristic vanishes exactly at the destination. */
  lemma HCostZeroIff(p: Vector2, to: Vector2)
    ensures HCost(p, to) == 0 <==> p == to
  {
    var d := Sq(p.x - to.x) + Sq(p.y - to.y);
    if p != to {
      if p.x != to.x {
        SquareMonotone(1, Abs(p.x - to.x));
      } else {
        SquareMonotone(1, Abs(p.y - to.y));
      }
      assert d >= 1;
      assert ISqrt(d) != 0;
    } else {
      assert d == 0;
      ISqrtUnique(0, 0);
    }
  }

  /** The heuristic does not depend on the direction. */
  lemma HCostSymmetric(p: Vector2, q: Vector2)
    ensures HCost(p, q) == HCost(q, p)
  {
    assert Sq(p.x - q.x) == Sq(q.x - p.x);
    assert Sq(p.y - q.y) == Sq(q.y - p.y);
  }

  class AstarNode {
    /** Position in the grid; the grid never moves a node. */
    const pos: Vector2
    /** Two-character tag shown in the text dump. */
    var status: string
    var fCost: int
    var hCost: int
    var gCost: int
    var walkable: bool
    var previous: AstarNode?

    constructor (pos: Vector2)
      ensures this.pos == pos && status == BLANK
      ensures fCost == INT_MAX && hCost == INT_MAX && gCost == INT_MAX
      ensures walkable && previous == null
    {
      this.pos := pos;
      status := BLANK;
      fCost := INT_MAX;
      hCost := INT_MAX;
      gCost := INT_MAX;
      walkable := true;
      previous := null;
    }

    /** The relaxation test: is the route through `openedNode` strictly cheaper? */
    predicate CheckShorterPath(openedNode: AstarNode, cost: int)
      reads this, openedNode
    {
      openedNode.gCost + cost < gCost
    }

    method CalcAllCosts(to: AstarNode, cost: int)
      requires previous != null
      modifies this`hCost, this`gCost, this`fCost
      ensures hCost == HCost(pos, to.pos)
      ensures gCost == old(previous.gCost) + cost
      ensures fCost == gCost + hCost
    {
      CalcHCost(to);
      CalcGCost(cost);
      fCost := gCost + hCost;
    }

    method CalcHCost(to: AstarNode)
      modifies this`hCost
      ensures hCost == HCost(pos, to.pos)
    {
      hCost := HCost(pos, to.pos);
    }

    method CalcGCost(cost: int)
      requires previous != null
      modifies this`gCost
      ensures gCost == old(previous.gCost) + cost
    {
      gCost := previous.gCost + cost;
    }

    /** Node equality is equality of positions, whatever the other fields hold. */
    predicate Equals(o: AstarNode)
      ensures Equals(o) <==> pos == o.pos
    {
      pos.x == o.pos.x && pos.y == o.pos.y
    }

    method SetPrevious(previous: AstarNode?)
      modifies this`previous
      ensures this.previous == previous
    {
      this.previous := previous;
    }

    method SetWalkable(walkable: bool)
      modifies this`walkable
      ensures this.walkable == walkable
    {
      this.walkable := walkable;
    }

    method SetStatus(status: string)
      modifies this`status
      ensures this.status == status
    {
      this.status := status;
    }

    method SetFCost(fCost: int)
      modifies this`fCost
      ensures this.fCost == fCost
    {
      this.fCost := fCost;
    }

    method SetHCost(hCost: int)
      modifies this`hCost
      ensures this.hCost == hCost
    {
      this.hCost := hCost;
    }

    method SetGCost(gCost: int)
      modifies this`gCost
      ensures this.gCost == gCost
    {
      this.gCost := gCost;
    }
  }
}
