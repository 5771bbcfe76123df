/**
 * Concrete layouts worked through the model: a single aligned neighbour, a
 * tie broken by overlap, nothing in the requested direction, and the history
 * across a turn.
 */
module Scenarios {
  import opened Wrappers
  import opened Seqs
  import opened Directions
  import opened Ranking
  import opened Navigation

  function Box(left: int, top: int, width: int, height: int): Rect {
    Rect(left, left + width, top, top + height, width, height)
  }

  /** Node 1 sits at `Box(20, 0, 10, 10)`, node 2 at `Box(20, 5, 10, 20)`, node 3 at `Box(-20, 0, 10, 10)`. */
  function Layout(n: NodeId): Rect {
    if n == 1 then Box(20, 0, 10, 10)
    else if n == 2 then Box(20, 5, 10, 20)
    else if n == 3 then Box(-20, 0, 10, 10)
    else Box(0, 0, 10, 10)
  }

  const Origin := Box(0, 0, 10, 10)
  const Node1 := Target(1, Box(20, 0, 10, 10), 0, 0, 0)
  const Node2 := Target(2, Box(20, 5, 10, 20), 0, 0, 0)

  lemma AheadOfOrigin(nodes: seq<NodeId>)
    requires nodes == [1]
    ensures FilterByDirection(MeasureAll(nodes, Layout), Origin, Right) == [Node1]
  {
    assert MeasureAll(nodes, Layout) == [Node1];
  }

  /** One aligned candidate to the right of the source is chosen. */
  lemma SingleAlignedNeighbour()
    ensures Select([0, 1], 0, Right, Origin, Layout, []) == Some(Node1)
  {
    assert Candidates([0, 1], 0) == [1];
    AheadOfOrigin([1]);
  }

  /**
   * Two candidates to the right, tied at distance 10: the source covers all
   * of node 1's span but only a quarter of node 2's, so the overlap step
   * keeps node 1 only, whatever the order of the two.
   */
  lemma TieBrokenByOverlap(nearest: seq<Target>)
    requires Node1.(mainEdgeDist := 10) in nearest
    requires forall x | x in nearest :: (x.node == 1 && x.rect == Node1.rect) || (x.node == 2 && x.rect == Node2.rect)
    ensures var chosen := FilterOverlapping(nearest, Origin, [], GetDirectionEdges(Right));
      chosen != [] && forall x | x in chosen :: x.node == 1
  {
    var e := GetDirectionEdges(Right);
    PairScores();
    assert forall u | u in nearest :: SelfScore(u.rect, Origin, e) <= 100;
    NoFallbackWhenBestCoversReference(nearest, Origin, [], e, Node1.(mainEdgeDist := 10));
    var chosen := FilterOverlapping(nearest, Origin, [], e);
    forall x | x in chosen
      ensures x.node == 1
    {
      var t :| t in nearest && (t.node, t.rect) == (x.node, x.rect);
    }
  }

  /** The source covers all of node 1's span and a quarter of node 2's; node 1 covers all of the source's. */
  lemma PairScores()
    ensures SelfScore(Node1.rect, Origin, GetDirectionEdges(Right)) == 100
    ensures SelfScore(Node2.rect, Origin, GetDirectionEdges(Right)) == 25
    ensures CurrentScore(Node1.rect, Origin, GetDirectionEdges(Right)) == 100
  {
    Overlap.RoundPercentUnique(10, 10, 100);
    Overlap.RoundPercentUnique(5, 20, 25);
  }

  /** Asking for the right when every candidate lies to the left gives nothing. */
  lemma NothingAhead()
    ensures Select([0, 3], 0, Right, Origin, Layout, []) == None
  {
    forall n | n in [0, 3] && n != 0
      ensures !IsAhead(Layout(n), Origin, Right)
    {
      assert n == 3;
    }
  }

  /**
   * Right, right, up: the second call leaves two sources in the history,
   * and the turn to the vertical axis ranks with an empty history and
   * keeps only its own source afterwards.
   */
  method RightRightUp() returns (beforeTurn: nat, afterTurn: nat)
    ensures beforeTurn == 2 && afterTurn == 1
  {
    var nav := new GridNav();
    var first := nav.FindNext([], 0, Named(Right), Origin, Layout);
    var second := nav.FindNext([], 1, Named(Right), Node1.rect, Layout);
    beforeTurn := |nav.axisHistory|;
    var third := nav.FindNext([], 1, KeyEvent(KeyUp), Node1.rect, Layout);
    afterTurn := |nav.axisHistory|;
  }

}
