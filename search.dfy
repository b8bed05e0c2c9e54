/**
 * The A* search of the engine seen as a value: each cell's back-link and
 * costs, the open list, the closed set, and the order of closing.  The
 * engine's nodes mirror the links held here; the invariants of the search
 * and what it finds are proved on this value.
 */
module SearchStates {
  import opened Vectors
  import opened Wrappers
  import opened AstarNodes
  import opened Moves
  import opened Lists

  /** A node's back-link, as the position of the parent, and its g, h and f costs. */
  datatype Link = Link(prev: Option<Vector2>, g: int, h: int, f: int)

  datatype Search = Search(size: nat, diagonal: bool, from: Vector2, to: Vector2, walk: set<Vector2>,
                           links: map<Vector2, Link>, open: seq<Vector2>, closed: set<Vector2>,
                           rank: map<Vector2, nat>)
  {
    /**
     * What the search keeps true of cell p.  A cell without a parent is the
     * start or has not been found.  A cell with one was reached from a closed
     * cell by an offered step, is walkable, carries the costs calcAllCosts
     * gives it, is open or closed, and if closed was closed after its parent.
     */
    ghost predicate LinkOk(p: Vector2)
      requires p in links
    {
      match links[p].prev
      case None => p == from || (p !in open && p !in closed)
      case Some(q) =>
        q in links && q in closed && q in rank && p != from &&
        Offered(diagonal, size, q, p) && p in walk &&
        links[p].g == links[q].g + StepCost(q, p) &&
        links[p].h == HCost(p, to) && links[p].f == links[p].g + links[p].h &&
        (p in open || p in closed) &&
        (p in closed ==> p in rank && rank[q] < rank[p])
    }

    /**
     * The open list has no repeats, open and closed cells lie in the grid and
     * are apart, the ranks number the closed cells from 0, and until the
     * start is closed the open list holds the start alone.
     */
    ghost predicate Bookkeeping()
    {
      NoDup(open) &&
      (forall p | p in open :: InGrid(size, p) && p !in closed) &&
      (forall p | p in closed :: InGrid(size, p)) &&
      rank.Keys == closed &&
      (forall p | p in closed :: rank[p] < |closed|) &&
      (from !in closed ==> open == [from] && closed == {})
    }

    ghost predicate Inv()
    {
      InGrid(size, from) && InGrid(size, to) &&
      links.Keys == Cells(size) &&
      Bookkeeping() &&
      links[from].g == 0 && links[from].f == 0 &&
      Linked()
    }

    /** Every cell's link is as LinkOk says. */
    ghost predicate Linked()
    {
      forall p {:trigger LinkOk(p)} | p in links :: LinkOk(p)
    }

    /**
     * Before the loop of calcPath: every cell has its link unset, the start
     * costs nothing, and nothing is open or closed.
     */
    ghost predicate Unstarted()
    {
      InGrid(size, from) && InGrid(size, to) && links.Keys == Cells(size) &&
      open == [] && closed == {} && rank == map[] &&
      links[from].g == 0 && links[from].f == 0 &&
      forall p | p in links :: links[p].prev == None
    }

    /** openList.add(from): the start is the one open cell. */
    function Start(): Search
    {
      this.(open := open + [from])
    }

    lemma StartInv()
      requires Unstarted()
      ensures Start().Inv() && Start().Frontier()
    {
      var s := Start();
      forall p | p in s.links
        ensures s.LinkOk(p)
      {
        assert s.links[p].prev == None;
      }
    }

    /** poll and closedSet.add: the k-th open cell moves to the closed set with the next rank. */
    function Close(k: nat): Search
      requires k < |open|
    {
      this.(open := open[..k] + open[k + 1..], closed := closed + {open[k]}, rank := rank[open[k] := |closed|])
    }

    /** Closing an open cell keeps the invariant: it was the start or was reached from a cell closed earlier. */
    lemma CloseKeepsInv(k: nat)
      requires Inv() && k < |open|
      ensures Close(k).Inv()
    {
      CloseKeepsBookkeeping(k);
      CloseKeepsLinked(k);
    }

    /** Closing an open cell keeps the open list, the closed set and the ranks in order. */
    lemma CloseKeepsBookkeeping(k: nat)
      requires Inv() && k < |open|
      ensures Close(k).Bookkeeping()
    {
      var s := Close(k);
      RemoveAtNoDup(open, k);
      assert |s.closed| == |closed| + 1;
      assert from in s.closed by {
        if from !in closed {
          assert open == [from];
        }
      }
    }

    /** Closing an open cell keeps every link as LinkOk says: a parent was closed before its child. */
    lemma CloseKeepsLinked(k: nat)
      requires Inv() && k < |open|
      ensures Close(k).Linked()
    {
      var c := open[k];
      var s := Close(k);
      RemoveAtNoDup(open, k);
      forall p | p in s.links
        ensures s.LinkOk(p)
      {
        assert LinkOk(p);
        if links[p].prev.Some? {
          var q := links[p].prev.value;
          assert q in closed && q != c;
        }
      }
    }

    /**
     * The update branch of addNeighbourNode: p takes c as its parent, gets
     * g = g(c) + step cost, h = the heuristic and f = g + h, and joins the
     * open list if it is not on it.
     */
    function Relax(c: Vector2, p: Vector2): Search
      requires c in links
    {
      this.(links := links[p := RelaxedLink(c, p)], open := if p in open then open else open + [p])
    }

    /** The link p gets when c becomes its parent. */
    function RelaxedLink(c: Vector2, p: Vector2): Link
      requires c in links
    {
      var g := links[c].g + StepCost(c, p);
      Link(Some(c), g, HCost(p, to), g + HCost(p, to))
    }

    /** Relaxing a walkable, unclosed cell offered from a closed cell keeps the invariant. */
    lemma RelaxKeepsInv(c: Vector2, p: Vector2)
      requires Inv() && c in closed && Offered(diagonal, size, c, p) && p in walk && p !in closed
      ensures Relax(c, p).Inv()
    {
      var s := Relax(c, p);
      assert from in closed;
      assert InGrid(size, p);
      if p !in open {
        AppendNoDup(open, p);
      }
      assert s.Bookkeeping();
      forall r | r in s.links
        ensures s.LinkOk(r)
      {
        if r != p {
          assert LinkOk(r);
          if links[r].prev.Some? {
            assert links[r].prev.value != p;
          }
        }
      }
    }

    /**
     * addNeighbourNode on the search value: a walkable cell p that is not
     * closed, and is either not open or reached more cheaply through c than
     * its current g cost, is relaxed from c; otherwise nothing changes.
     */
    function Visit(c: Vector2, p: Vector2): (r: Search)
      requires c in links
      ensures r.links.Keys == links.Keys
      ensures r.size == size && r.diagonal == diagonal && r.from == from && r.to == to && r.walk == walk
      ensures r.closed == closed && r.rank == rank
    {
      if p in links && p in walk && p !in closed && (p !in open || links[c].g + StepCost(c, p) < links[p].g) then Relax(c, p) else this
    }

    /**
     * The cheaper-path test of addNeighbourNode: a visit changes no link but
     * p's, a cell already open is re-linked only to c and only for a
     * strictly lower g cost, so its g cost never rises.
     */
    lemma VisitLowersCost(c: Vector2, p: Vector2)
      requires c in links
      ensures forall q | q in links && q != p :: Visit(c, p).links[q] == links[q]
      ensures p in open && p in links ==> Visit(c, p).links[p].g <= links[p].g
      ensures p in open && p in links && Visit(c, p).links[p] != links[p] ==>
        Visit(c, p).links[p].g < links[p].g && Visit(c, p).links[p].prev == Some(c) &&
        Visit(c, p).open == open
    {
    }

    /** Visit applied from c to each cell of ps in turn. */
    function VisitAll(c: Vector2, ps: seq<Vector2>): (r: Search)
      requires c in links
      ensures r.links.Keys == links.Keys
      ensures r.size == size && r.diagonal == diagonal && r.from == from && r.to == to && r.walk == walk
      ensures r.closed == closed && r.rank == rank
      decreases |ps|
    {
      if ps == [] then this else VisitAll(c, ps[..|ps| - 1]).Visit(c, ps[|ps| - 1])
    }

    /** Visiting keeps every open cell open and leaves the visited cell, if walkable, open or closed. */
    lemma VisitGrows(c: Vector2, p: Vector2)
      requires c in links
      ensures forall q | q in open :: q in Visit(c, p).open
      ensures p in links && p in walk ==> p in Visit(c, p).open || p in closed
    {
    }

    /** Visiting a list keeps every open cell open and leaves each walkable visited cell open or closed. */
    lemma {:induction false} VisitAllGrows(c: Vector2, ps: seq<Vector2>)
      requires c in links
      ensures forall q | q in open :: q in VisitAll(c, ps).open
      ensures forall p | p in ps && p in links && p in walk :: p in VisitAll(c, ps).open || p in closed
      decreases |ps|
    {
      if ps != [] {
        var n := |ps| - 1;
        VisitAllGrows(c, ps[..n]);
        var mid := VisitAll(c, ps[..n]);
        mid.VisitGrows(c, ps[n]);
        forall p | p in ps && p in links && p in walk
          ensures p in VisitAll(c, ps).open || p in closed
        {
          if p != ps[n] {
            var k :| 0 <= k < |ps| && ps[k] == p;
            assert p in ps[..n] by { assert ps[..n][k] == p; }
          }
        }
      }
    }

    /** Visiting a list and then another is visiting their concatenation. */
    lemma {:induction false} VisitAllAppend(c: Vector2, ps: seq<Vector2>, qs: seq<Vector2>)
      requires c in links
      ensures VisitAll(c, ps + qs) == VisitAll(c, ps).VisitAll(c, qs)
      decreases |qs|
    {
      if qs == [] {
        assert ps + qs == ps;
      } else {
        var n := |qs| - 1;
        var init, q := qs[..n], qs[n];
        assert qs == init + [q];
        assert ps + qs == (ps + init) + [q];
        var mid := VisitAll(c, ps);
        calc {
          VisitAll(c, ps + qs);
          { VisitAllSnoc(c, ps + init, q); }
          VisitAll(c, ps + init).Visit(c, q);
          { VisitAllAppend(c, ps, init); }
          mid.VisitAll(c, init).Visit(c, q);
          { mid.VisitAllSnoc(c, init, q); }
          mid.VisitAll(c, qs);
        }
      }
    }

    /** Visiting a list with one more cell at the end is visiting that cell last. */
    lemma VisitAllSnoc(c: Vector2, ps: seq<Vector2>, p: Vector2)
      requires c in links
      ensures VisitAll(c, ps + [p]) == VisitAll(c, ps).Visit(c, p)
    {
      assert (ps + [p])[..|ps|] == ps;
    }

    /** addNeighbours on the search value: every cell it hands on is visited from c in order. */
    function Expand(c: Vector2): Search
      requires c in links
    {
      VisitAll(c, Candidates(diagonal, size, c))
    }

    /** Visiting a cell offered from a closed cell keeps the invariant. */
    lemma VisitKeepsInv(c: Vector2, p: Vector2)
      requires Inv() && c in closed && Offered(diagonal, size, c, p)
      ensures Visit(c, p).Inv()
    {
      if p in links && p in walk && p !in closed && (p !in open || links[c].g + StepCost(c, p) < links[p].g) {
        RelaxKeepsInv(c, p);
      }
    }

    lemma {:induction false} VisitAllKeepsInv(c: Vector2, ps: seq<Vector2>)
      requires Inv() && c in closed && forall p | p in ps :: Offered(diagonal, size, c, p)
      ensures VisitAll(c, ps).Inv()
      decreases |ps|
    {
      if ps != [] {
        var n := |ps| - 1;
        VisitAllKeepsInv(c, ps[..n]);
        VisitAll(c, ps[..n]).VisitKeepsInv(c, ps[n]);
      }
    }

    /**
     * Expanding a closed cell keeps the invariant, leaves the closed set
     * alone, keeps every open cell open, and leaves every walkable cell
     * offered from it open or closed.
     */
    lemma ExpandKeepsInv(c: Vector2)
      requires Inv() && c in closed
      ensures Expand(c).Inv() && Expand(c).closed == closed
      ensures forall q | q in open :: q in Expand(c).open
      ensures forall p | Offered(diagonal, size, c, p) && p in walk :: p in Expand(c).open || p in closed
    {
      CandidatesOffered(diagonal, size, c);
      VisitAllKeepsInv(c, Candidates(diagonal, size, c));
      VisitAllGrows(c, Candidates(diagonal, size, c));
    }

    /** The back-chain backTracePath follows from a closed cell, the cell itself first. */
    ghost function Chain(p: Vector2): seq<Vector2>
      requires Linked() && p in links && p in closed && p in rank
      decreases rank[p]
    {
      assert p in links && LinkOk(p);
      match links[p].prev
      case None => [p]
      case Some(q) => [p] + Chain(q)
    }

    /** One step of a back-chain: the cell, then the back-chain of its parent if it has one, closed earlier. */
    lemma ChainStep(p: Vector2)
      requires Inv() && p in closed
      ensures p in links
      ensures links[p].prev.None? ==> Chain(p) == [p]
      ensures links[p].prev.Some? ==>
        var q := links[p].prev.value;
        q in closed && rank[q] < rank[p] && Chain(p) == [p] + Chain(q)
    {
      assert p in links && LinkOk(p);
    }

    /** A back-chain starts at its cell, ends at the start, and stays among cells closed no later. */
    lemma {:induction false} ChainEnds(p: Vector2)
      requires Inv() && p in closed
      ensures Chain(p) != [] && Chain(p)[0] == p && Last(Chain(p)) == from
      ensures forall i | 0 <= i < |Chain(p)| :: Chain(p)[i] in closed && rank[Chain(p)[i]] <= rank[p]
      ensures forall i | 0 < i < |Chain(p)| :: rank[Chain(p)[i]] < rank[p]
      decreases rank[p]
    {
      assert p in links && LinkOk(p);
      match links[p].prev
      case None =>
      case Some(q) =>
        ChainEnds(q);
        var chain := Chain(p);
        assert chain == [p] + Chain(q);
        forall i | 0 < i < |chain|
          ensures chain[i] in closed && rank[chain[i]] < rank[p]
        {
          assert chain[i] == Chain(q)[i - 1];
        }
    }

    /** A back-chain never visits a cell twice, because ranks fall strictly along it. */
    lemma {:induction false} ChainNoDup(p: Vector2)
      requires Inv() && p in closed
      ensures NoDup(Chain(p))
      decreases rank[p]
    {
      assert p in links && LinkOk(p);
      match links[p].prev
      case None =>
      case Some(q) =>
        ChainNoDup(q);
        ChainEnds(p);
        var chain := Chain(p);
        assert chain == [p] + Chain(q);
        forall i, j | 0 <= i < j < |chain|
          ensures chain[i] != chain[j]
        {
          if i == 0 {
            assert rank[chain[j]] < rank[p];
          } else {
            assert chain[i] == Chain(q)[i - 1] && chain[j] == Chain(q)[j - 1];
          }
        }
    }

    /** Every step of a back-chain, read from parent to child, is an offered move onto a walkable cell. */
    lemma {:induction false} ChainSteps(p: Vector2)
      requires Inv() && p in closed
      ensures forall i | 0 <= i < |Chain(p)| - 1 :: BackStepAt(diagonal, size, walk, Chain(p), i)
      decreases rank[p]
    {
      assert p in links && LinkOk(p);
      match links[p].prev
      case None =>
      case Some(q) =>
        ChainSteps(q);
        ChainEnds(q);
        var chain := Chain(p);
        assert chain == [p] + Chain(q);
        forall i | 0 <= i < |chain| - 1
          ensures BackStepAt(diagonal, size, walk, chain, i)
        {
          if i > 0 {
            assert BackStepAt(diagonal, size, walk, Chain(q), i - 1);
            assert chain[i] == Chain(q)[i - 1] && chain[i + 1] == Chain(q)[i];
          }
        }
    }

    /** The g cost of a closed cell is the summed step cost of its back-chain. */
    lemma {:induction false} ChainCost(p: Vector2)
      requires Inv() && p in closed
      ensures links[p].g == PathCost(Chain(p))
      decreases rank[p]
    {
      assert p in links && LinkOk(p);
      match links[p].prev
      case None =>
      case Some(q) =>
        ChainCost(q);
        ChainEnds(q);
        var chain := Chain(p);
        assert chain == [p] + Chain(q);
        assert chain[1..] == Chain(q);
    }

    /**
     * Once the destination is closed, its back-chain read backwards is a walk
     * from the start to the destination that repeats no cell, and the
     * destination's f cost is that walk's cost.
     */
    lemma FoundPath()
      requires Inv() && to in closed
      ensures var path := Chain(to);
        path[0] == to && Last(path) == from && NoDup(path) &&
        links[to].f == PathCost(path) &&
        IsWalk(diagonal, size, walk, Reverse(path)) &&
        Reverse(path)[0] == from && Last(Reverse(path)) == to
      ensures Reachable(diagonal, size, walk, from, to)
    {
      ChainEnds(to);
      ChainNoDup(to);
      ChainSteps(to);
      ChainCost(to);
      var path := Chain(to);
      BackPathReversed(diagonal, size, walk, path);
      assert to in links && LinkOk(to);
      if links[to].prev.Some? {
        HCostZeroIff(to, to);
      }
    }

    /** Every walkable cell offered from a closed cell is open or closed. */
    ghost predicate Frontier()
    {
      forall c, p | c in closed && Offered(diagonal, size, c, p) && p in walk :: p in open || p in closed
    }

    /** The frontier property, except for the cells offered from c, which is about to be expanded. */
    ghost predicate FrontierBut(c: Vector2)
    {
      forall d, p | d in closed && d != c && Offered(diagonal, size, d, p) && p in walk :: p in open || p in closed
    }

    /**
     * poll and closedSet.add on a search that keeps its invariant and the
     * frontier property: the invariant still holds, and so does the frontier
     * property except for the cells offered from the cell just closed.
     */
    lemma CloseStep(k: nat)
      requires Inv() && Frontier() && k < |open|
      ensures Close(k).Inv() && Close(k).FrontierBut(open[k])
      ensures closed < Close(k).closed <= Cells(size) && Close(k).closed - closed == {open[k]}
    {
      CloseKeepsInv(k);
      RemoveAtNoDup(open, k);
    }

    /** Every open cell lies on the grid. */
    lemma OpenInGrid()
      requires Inv()
      ensures forall p | p in open :: InGrid(size, p)
    {
    }

    /** Expanding the cell that FrontierBut leaves out restores the frontier property. */
    lemma ExpandStep(c: Vector2)
      requires Inv() && c in closed && FrontierBut(c)
      ensures Expand(c).Inv() && Expand(c).Frontier() && Expand(c).closed == closed
    {
      ExpandKeepsInv(c);
    }

    /**
     * When the open list runs dry before the destination is closed, every
     * walk from the start stays inside the closed set, so none reaches the
     * destination.
     */
    lemma ExhaustedMeansUnreachable()
      requires Inv() && Frontier() && open == [] && to !in closed
      ensures !Reachable(diagonal, size, walk, from, to)
    {
      ExhaustedHoldsReachable();
    }

    /**
     * When the open list runs dry, the closed set holds every cell that a
     * walk from the start reaches.
     */
    lemma ExhaustedHoldsReachable()
      requires Inv() && Frontier() && open == []
      ensures forall p | Reachable(diagonal, size, walk, from, p) :: p in closed
    {
      assert from in closed;
      forall p | Reachable(diagonal, size, walk, from, p)
        ensures p in closed
      {
        var w :| IsWalk(diagonal, size, walk, w) && w[0] == from && Last(w) == p;
        ClosedSetHoldsWalks(diagonal, size, walk, closed, w);
      }
    }

    /**
     * What the loop of calcPath reports: a path exactly when the destination
     * can be reached, and then the destination's back-chain with the
     * properties FoundPath gives it.
     */
    lemma Outcome(found: bool, path: seq<Vector2>)
      requires Inv()
      requires found ==> to in closed && path == Chain(to)
      requires !found ==> Frontier() && open == [] && to !in closed
      ensures found <==> Reachable(diagonal, size, walk, from, to)
      ensures found ==>
        path != [] && path[0] == to && Last(path) == from && NoDup(path) && links[to].f == PathCost(path) &&
        IsWalk(diagonal, size, walk, Reverse(path)) && Reverse(path)[0] == from && Last(Reverse(path)) == to &&
        forall p | p in path :: InGrid(size, p)
      ensures !found ==> forall p | Reachable(diagonal, size, walk, from, p) :: p in closed
    {
      if found {
        FoundPath();
        ChainEnds(to);
      } else {
        ExhaustedMeansUnreachable();
        ExhaustedHoldsReachable();
      }
    }
  }
}
