/**
 * The candidate-selection pipeline of `GridNav.findNext`: keep the
 * candidates ahead of the source, keep the nearest row of them, then break
 * ties by cross-axis overlap with the source and, recursively, with the
 * previous source positions.
 */
module Ranking {
  import opened Wrappers
  import opened Seqs
  import opened Directions
  import opened Overlap

  type NodeId = nat

  /**
   * A measured candidate (`NodePos`) and the ranking fields the pipeline
   * attaches to it. The source leaves a field undefined until a step writes
   * it; here it holds 0 until then, and no step reads a field before writing it.
   */
  datatype Target = Target(node: NodeId, rect: Rect, mainEdgeDist: int, overlapSelfSize: int, overlapCurrentSize: int)

  /** The same element with the same measurement, whatever ranking fields it carries. */
  predicate SameCandidate(x: Target, t: Target) {
    x.node == t.node && x.rect == t.rect
  }

  /** The identities (element and measurement) of the candidates in `s`. */
  ghost function Ids(s: seq<Target>): set<(NodeId, Rect)> {
    set t | t in s :: (t.node, t.rect)
  }

  /** Every element of `r` is one of the candidates in `s`. */
  ghost predicate DrawnFrom(r: seq<Target>, s: seq<Target>) {
    Ids(r) <= Ids(s)
  }

  lemma DrawnFromIntro(r: seq<Target>, s: seq<Target>)
    requires forall x | x in r :: (x.node, x.rect) in Ids(s)
    ensures DrawnFrom(r, s)
  {
  }

  /** `NodePos.from(node)`, with the measurement supplied by the caller. */
  function NodePosFrom(node: NodeId, measure: NodeId -> Rect): Target {
    Target(node, measure(node), 0, 0, 0)
  }

  function MeasureAll(nodes: seq<NodeId>, measure: NodeId -> Rect): (targets: seq<Target>)
    ensures |targets| == |nodes|
    ensures forall i | 0 <= i < |nodes| :: targets[i].node == nodes[i] && targets[i].rect == measure(nodes[i])
  {
    seq(|nodes|, i requires 0 <= i < |nodes| => NodePosFrom(nodes[i], measure))
  }

  function NotNode(current: NodeId): NodeId -> bool {
    (n: NodeId) => n != current
  }

  /** `new Set(focusableNodes)` with `currentNode` deleted, in iteration order. */
  function Candidates(focusableNodes: seq<NodeId>, currentNode: NodeId): (nodes: seq<NodeId>)
    ensures forall n | n in nodes :: n in focusableNodes && n != currentNode
    ensures forall n | n in focusableNodes && n != currentNode :: n in nodes
    ensures Distinct(nodes)
  {
    var unique := Dedup(focusableNodes);
    assert forall n | n in focusableNodes && n != currentNode :: n in Filter(unique, NotNode(currentNode)) by {
      forall n | n in focusableNodes && n != currentNode
        ensures n in Filter(unique, NotNode(currentNode))
      {
        var i :| 0 <= i < |unique| && unique[i] == n;
      }
    }
    Filter(unique, NotNode(currentNode))
  }

  // ---------------------------------------------------------------------
  // Direction filter

  function Ahead(source: Rect, direction: Direction): Target -> bool {
    (t: Target) => IsAhead(t.rect, source, direction)
  }

  /** `filterByDirection`: the candidates lying ahead of the source, in their order. */
  function FilterByDirection(targets: seq<Target>, source: Rect, direction: Direction): (r: seq<Target>)
    ensures forall t | t in r :: t in targets && IsAhead(t.rect, source, direction)
    ensures forall t | t in targets && IsAhead(t.rect, source, direction) :: t in r
    ensures IsFilterOf(r, targets, Ahead(source, direction))
  {
    FilterSelects(targets, Ahead(source, direction));
    var r := Filter(targets, Ahead(source, direction));
    assert forall t | t in targets && IsAhead(t.rect, source, direction) :: t in r by {
      forall t | t in targets && IsAhead(t.rect, source, direction)
        ensures t in r
      {
        var i :| 0 <= i < |targets| && targets[i] == t;
      }
    }
    r
  }

  // ---------------------------------------------------------------------
  // Nearest-row filter

  /** `Math.round(Math.abs(source[mainEdgeCurrent] - target[mainEdgeNeighbour]))` */
  function MainEdgeDist(t: Rect, source: Rect, e: DirectionEdges): (d: int)
    ensures d >= 0
    ensures d == Get(source, e.lead) - Get(t, e.trail) || d == Get(t, e.trail) - Get(source, e.lead)
  {
    var rawDist := Get(source, e.lead) - Get(t, e.trail);
    if rawDist >= 0 then rawDist else -rawDist
  }

  /**
   * For a candidate ahead of the source, the main-edge distance is the gap
   * between the two rectangles along the travel direction.
   */
  lemma MainEdgeDistIsGap(t: Rect, source: Rect, direction: Direction)
    requires IsAhead(t, source, direction)
    ensures var e := GetDirectionEdges(direction);
      && MainEdgeDist(t, source, e) >= 0
      && MainEdgeDist(t, source, e) ==
           if Forward(direction) then Get(t, e.trail) - Get(source, e.lead)
           else Get(source, e.lead) - Get(t, e.trail)
  {
    AheadMeansPastLeadingSide(t, source, direction);
  }

  function WithMainEdgeDist(targets: seq<Target>, source: Rect, e: DirectionEdges): seq<Target> {
    seq(|targets|, i requires 0 <= i < |targets| => targets[i].(mainEdgeDist := MainEdgeDist(targets[i].rect, source, e)))
  }

  function MainEdgeDistOf(t: Target): int {
    t.mainEdgeDist
  }

  /**
   * The candidates tied at the smallest main-edge distance, each carrying its
   * distance, in input order.
   */
  function NearestRow(targets: seq<Target>, source: Rect, e: DirectionEdges): (r: seq<Target>)
    ensures r == [] <==> targets == []
    ensures |r| <= |targets|
    ensures forall x | x in r :: exists t | t in targets :: x == t.(mainEdgeDist := MainEdgeDist(t.rect, source, e))
    ensures forall x, t | x in r && t in targets :: x.mainEdgeDist <= MainEdgeDist(t.rect, source, e)
    ensures targets != [] ==>
              var measured := WithMainEdgeDist(targets, source, e);
              IsFilterOf(r, measured, KeyEquals(MainEdgeDistOf, Extremum(measured, MainEdgeDistOf, Ascending)))
  {
    var measured := WithMainEdgeDist(targets, source, e);
    var r := SortAndGetLowest(measured, MainEdgeDistOf);
    NearestRowFacts(targets, source, e, r);
    r
  }

  /** Each kept copy comes from a candidate, and its distance is no larger than any candidate's. */
  lemma NearestRowFacts(targets: seq<Target>, source: Rect, e: DirectionEdges, r: seq<Target>)
    requires r == SortAndGetLowest(WithMainEdgeDist(targets, source, e), MainEdgeDistOf)
    ensures forall x | x in r :: exists t | t in targets :: x == t.(mainEdgeDist := MainEdgeDist(t.rect, source, e))
    ensures forall x, t | x in r && t in targets :: x.mainEdgeDist <= MainEdgeDist(t.rect, source, e)
  {
    var measured := WithMainEdgeDist(targets, source, e);
    forall x | x in r
      ensures exists t | t in targets :: x == t.(mainEdgeDist := MainEdgeDist(t.rect, source, e))
    {
      assert x in measured;
      var i :| 0 <= i < |measured| && measured[i] == x;
      assert targets[i] in targets;
    }
    forall x, t | x in r && t in targets
      ensures x.mainEdgeDist <= MainEdgeDist(t.rect, source, e)
    {
      var i :| 0 <= i < |targets| && targets[i] == t;
      assert measured[i] in measured;
    }
  }

  /** No candidate at the smallest distance is dropped. */
  lemma NearestRowKeepsEveryNearest(targets: seq<Target>, source: Rect, e: DirectionEdges, t: Target)
    requires t in targets
    requires forall u | u in targets :: MainEdgeDist(t.rect, source, e) <= MainEdgeDist(u.rect, source, e)
    ensures t.(mainEdgeDist := MainEdgeDist(t.rect, source, e)) in NearestRow(targets, source, e)
  {
    var measured := WithMainEdgeDist(targets, source, e);
    var i :| 0 <= i < |targets| && targets[i] == t;
    assert measured[i] == t.(mainEdgeDist := MainEdgeDist(t.rect, source, e));
    forall y | y in measured
      ensures MainEdgeDistOf(measured[i]) <= MainEdgeDistOf(y)
    {
      var j :| 0 <= j < |measured| && measured[j] == y;
      assert targets[j] in targets;
    }
  }

  /**
   * `filterByClosestParallel`: write each candidate's main-edge distance,
   * then keep the candidates tied at the smallest one.
   */
  method FilterByClosestParallel(targets: seq<Target>, source: Rect, e: DirectionEdges) returns (r: seq<Target>)
    ensures r == NearestRow(targets, source, e)
  {
    var measured := [];
    for i := 0 to |targets|
      invariant |measured| == i
      invariant forall k | 0 <= k < i :: measured[k] == targets[k].(mainEdgeDist := MainEdgeDist(targets[k].rect, source, e))
    {
      var rawDist := Get(source, e.lead) - Get(targets[i].rect, e.trail);
      var dist := if rawDist >= 0 then rawDist else -rawDist;
      measured := measured + [targets[i].(mainEdgeDist := dist)];
    }
    assert measured == WithMainEdgeDist(targets, source, e);
    r := SortAndGetLowest(measured, MainEdgeDistOf);
  }

  // ---------------------------------------------------------------------
  // Overlap tie-break

  /** `overlapSelfSize`: how much of the candidate's cross span the reference covers. */
  function SelfScore(c: Rect, reference: Rect, e: DirectionEdges): int {
    CalculateOverlap(reference, c, e.lower, e.upper, e.size)
  }

  /** `overlapCurrentSize`: how much of the reference's cross span the candidate covers. */
  function CurrentScore(c: Rect, reference: Rect, e: DirectionEdges): int {
    CalculateOverlap(c, reference, e.lower, e.upper, e.size)
  }

  /**
   * `calculateOverlaps`: a copy of each candidate carrying its two overlap
   * scores against `source`.
   */
  function CalculateOverlaps(targets: seq<Target>, source: Rect, e: DirectionEdges): (r: seq<Target>)
    ensures |r| == |targets|
    ensures forall i | 0 <= i < |r| ::
      && SameCandidate(r[i], targets[i])
      && r[i].mainEdgeDist == targets[i].mainEdgeDist
      && r[i].overlapSelfSize == SelfScore(targets[i].rect, source, e)
      && r[i].overlapCurrentSize == CurrentScore(targets[i].rect, source, e)
    ensures forall i | 0 <= i < |r| && Get(targets[i].rect, e.lower) <= Get(targets[i].rect, e.upper) ::
      0 <= r[i].overlapCurrentSize <= 100
    ensures Get(source, e.lower) <= Get(source, e.upper) ==> forall i | 0 <= i < |r| :: 0 <= r[i].overlapSelfSize <= 100
  {
    seq(|targets|, i requires 0 <= i < |targets| =>
      targets[i].(overlapSelfSize := SelfScore(targets[i].rect, source, e),
                  overlapCurrentSize := CurrentScore(targets[i].rect, source, e)))
  }

  function SelfSizeOf(t: Target): int {
    t.overlapSelfSize
  }

  function CurrentSizeOf(t: Target): int {
    t.overlapCurrentSize
  }

  function HasSelfOverlap(t: Target): bool {
    t.overlapSelfSize > 0
  }

  function HasCurrentOverlap(t: Target): bool {
    t.overlapCurrentSize > 0
  }

  /**
   * The first step of `filterOverlaping`: score against `reference`, drop the
   * candidates it does not cover, keep those tied at the highest self score.
   */
  function MostOverlapped(targets: seq<Target>, reference: Rect, e: DirectionEdges): (best: seq<Target>)
    ensures |best| <= |targets|
    ensures DrawnFrom(best, targets)
    ensures forall b | b in best ::
      && b.overlapSelfSize == SelfScore(b.rect, reference, e) > 0
      && b.overlapCurrentSize == CurrentScore(b.rect, reference, e)
      && forall t | t in targets :: SelfScore(t.rect, reference, e) <= SelfScore(b.rect, reference, e)
  {
    var scored := CalculateOverlaps(targets, reference, e);
    var best := SortAndGetHighest(Filter(scored, HasSelfOverlap), SelfSizeOf);
    BestCoversMost(targets, reference, e, scored, best);
    best
  }

  lemma BestCoversMost(targets: seq<Target>, reference: Rect, e: DirectionEdges, scored: seq<Target>, best: seq<Target>)
    requires |scored| == |targets|
    requires forall i | 0 <= i < |scored| ::
      && SameCandidate(scored[i], targets[i])
      && scored[i].overlapSelfSize == SelfScore(targets[i].rect, reference, e)
      && scored[i].overlapCurrentSize == CurrentScore(targets[i].rect, reference, e)
    requires best == SortAndGetHighest(Filter(scored, HasSelfOverlap), SelfSizeOf)
    ensures DrawnFrom(best, targets)
    ensures forall b | b in best ::
      && b.overlapSelfSize == SelfScore(b.rect, reference, e) > 0
      && b.overlapCurrentSize == CurrentScore(b.rect, reference, e)
      && forall t | t in targets :: SelfScore(t.rect, reference, e) <= SelfScore(b.rect, reference, e)
  {
    var overlapping := Filter(scored, HasSelfOverlap);
    forall b | b in best
      ensures b.overlapSelfSize == SelfScore(b.rect, reference, e) > 0
      ensures b.overlapCurrentSize == CurrentScore(b.rect, reference, e)
      ensures (b.node, b.rect) in Ids(targets)
      ensures forall i | 0 <= i < |scored| :: SelfScore(targets[i].rect, reference, e) <= b.overlapSelfSize
    {
      assert b in overlapping;
      var j :| 0 <= j < |scored| && scored[j] == b;
      assert targets[j] in targets;
      forall i | 0 <= i < |scored|
        ensures SelfScore(targets[i].rect, reference, e) <= b.overlapSelfSize
      {
        if scored[i].overlapSelfSize > 0 {
          assert scored[i] in overlapping;
        }
      }
    }
    DrawnFromIntro(best, targets);
    forall b, t | b in best && t in targets
      ensures SelfScore(t.rect, reference, e) <= SelfScore(b.rect, reference, e)
    {
      var i :| 0 <= i < |targets| && targets[i] == t;
    }
  }

  /** Every candidate the reference covers, at the highest self score, is kept with its scores. */
  lemma MostOverlappedKeepsEveryBest(targets: seq<Target>, reference: Rect, e: DirectionEdges, t: Target)
    requires t in targets && SelfScore(t.rect, reference, e) > 0
    requires forall u | u in targets :: SelfScore(u.rect, reference, e) <= SelfScore(t.rect, reference, e)
    ensures t.(overlapSelfSize := SelfScore(t.rect, reference, e), overlapCurrentSize := CurrentScore(t.rect, reference, e))
              in MostOverlapped(targets, reference, e)
  {
    var scored := CalculateOverlaps(targets, reference, e);
    var overlapping := Filter(scored, HasSelfOverlap);
    var i :| 0 <= i < |targets| && targets[i] == t;
    var s := scored[i];
    assert s == t.(overlapSelfSize := SelfScore(t.rect, reference, e), overlapCurrentSize := CurrentScore(t.rect, reference, e));
    assert s in overlapping;
    forall y | y in overlapping
      ensures SelfSizeOf(y) <= SelfSizeOf(s)
    {
      var j :| 0 <= j < |scored| && scored[j] == y;
      assert targets[j] in targets;
    }
    HighestKeepsTop(overlapping, s);
  }

  /** A candidate whose self size none exceeds is among those sorted to the top. */
  lemma HighestKeepsTop(overlapping: seq<Target>, s: Target)
    requires s in overlapping
    requires forall y | y in overlapping :: SelfSizeOf(y) <= SelfSizeOf(s)
    ensures s in SortAndGetHighest(overlapping, SelfSizeOf)
  {
    var top := Extremum(overlapping, SelfSizeOf, Descending);
    var w :| w in overlapping && SelfSizeOf(w) == top;
  }

  /** Some candidate in `s` covers part of the reference it was last scored against. */
  predicate CoversReference(s: seq<Target>) {
    exists y | y in s :: y.overlapCurrentSize > 0
  }

  /**
   * What the closing step of `filterOverlaping` ranks: the candidates the
   * reference covers most, narrowed again against the most recent history
   * entry while several remain and history is left. Without that recursion
   * they carry their current scores against the reference itself.
   */
  function Refine(targets: seq<Target>, source: Rect, history: seq<Rect>, e: DirectionEdges): (refined: seq<Target>)
    ensures refined == [] <==> MostOverlapped(targets, source, e) == []
    ensures |refined| <= |MostOverlapped(targets, source, e)|
    ensures DrawnFrom(refined, MostOverlapped(targets, source, e))
    ensures (|history| == 0 || |MostOverlapped(targets, source, e)| <= 1) ==>
              forall x | x in refined :: x.overlapCurrentSize == CurrentScore(x.rect, source, e)
    decreases |history|, 0
  {
    var best := MostOverlapped(targets, source, e);
    if |best| > 1 && |history| > 0 then FilterOverlapping(best, history[0], history[1..], e) else best
  }

  /**
   * `filterOverlaping`: among the tied candidates keep those the reference
   * covers most; while several remain and history is left, narrow them
   * again against the most recent history entry; then keep those covering
   * most of the reference, as scored by the innermost scoring that produced
   * them. When none of them covers any of it, the input comes back.
   */
  function FilterOverlapping(targets: seq<Target>, source: Rect, history: seq<Rect>, e: DirectionEdges): (r: seq<Target>)
    ensures r == [] <==> targets == []
    ensures |r| <= |targets|
    ensures DrawnFrom(r, targets)
    ensures !CoversReference(Refine(targets, source, history, e)) ==> r == targets
    ensures CoversReference(Refine(targets, source, history, e)) ==> forall x | x in r ::
      && x in Refine(targets, source, history, e)
      && x.overlapCurrentSize > 0
      && (forall y | y in Refine(targets, source, history, e) :: y.overlapCurrentSize <= x.overlapCurrentSize)
      && SelfScore(x.rect, source, e) > 0
      && forall t | t in targets :: SelfScore(t.rect, source, e) <= SelfScore(x.rect, source, e)
    ensures CoversReference(Refine(targets, source, history, e)) ==>
      forall x, y | x in r && y in Refine(targets, source, history, e) && y.overlapCurrentSize == x.overlapCurrentSize :: y in r
    decreases |history|, 1
  {
    var best := MostOverlapped(targets, source, e);
    var refined := Refine(targets, source, history, e);
    var current := SortAndGetHighest(Filter(refined, HasCurrentOverlap), CurrentSizeOf);
    var r := if |current| > 0 then current else targets;
    FinalStepFacts(targets, source, e, best, refined, current, r);
    r
  }

  /** The closing step of `filterOverlaping` keeps exactly the candidates covering most of the reference. */
  lemma FinalStepFacts(targets: seq<Target>, source: Rect, e: DirectionEdges, best: seq<Target>, refined: seq<Target>,
                       current: seq<Target>, r: seq<Target>)
    requires |best| <= |targets| && DrawnFrom(best, targets)
    requires forall b | b in best ::
      && SelfScore(b.rect, source, e) > 0
      && forall t | t in targets :: SelfScore(t.rect, source, e) <= SelfScore(b.rect, source, e)
    requires refined == [] <==> best == []
    requires |refined| <= |best| && DrawnFrom(refined, best)
    requires current == SortAndGetHighest(Filter(refined, HasCurrentOverlap), CurrentSizeOf)
    requires r == if |current| > 0 then current else targets
    ensures r == [] <==> targets == []
    ensures |r| <= |targets|
    ensures DrawnFrom(r, targets)
    ensures !CoversReference(refined) ==> r == targets
    ensures CoversReference(refined) ==> forall x | x in r ::
      && x in refined
      && x.overlapCurrentSize > 0
      && (forall y | y in refined :: y.overlapCurrentSize <= x.overlapCurrentSize)
      && SelfScore(x.rect, source, e) > 0
      && forall t | t in targets :: SelfScore(t.rect, source, e) <= SelfScore(x.rect, source, e)
    ensures CoversReference(refined) ==>
      forall x, y | x in r && y in refined && y.overlapCurrentSize == x.overlapCurrentSize :: y in r
  {
    ClosingSurvivors(refined, current);
    forall x | x in current
      ensures (x.node, x.rect) in Ids(best)
    {
      assert (x.node, x.rect) in Ids(refined);
    }
    forall x | x in current
      ensures (x.node, x.rect) in Ids(targets)
      ensures SelfScore(x.rect, source, e) > 0
      ensures forall t | t in targets :: SelfScore(t.rect, source, e) <= SelfScore(x.rect, source, e)
    {
      var b :| b in best && (b.node, b.rect) == (x.node, x.rect);
    }
    DrawnFromIntro(current, targets);
    ClosingKeepsEveryTied(refined, current);
  }

  /**
   * The closing step keeps something exactly when some candidate covers its
   * reference, and what it keeps covers it the most.
   */
  lemma ClosingSurvivors(refined: seq<Target>, current: seq<Target>)
    requires current == SortAndGetHighest(Filter(refined, HasCurrentOverlap), CurrentSizeOf)
    ensures current != [] <==> CoversReference(refined)
    ensures forall x | x in current ::
      && x in refined
      && x.overlapCurrentSize > 0
      && forall y | y in refined :: y.overlapCurrentSize <= x.overlapCurrentSize
  {
    var covering := Filter(refined, HasCurrentOverlap);
    if CoversReference(refined) {
      var w :| w in refined && w.overlapCurrentSize > 0;
      var i :| 0 <= i < |refined| && refined[i] == w;
      assert w in covering;
    }
    forall x | x in current
      ensures x in refined && x.overlapCurrentSize > 0
      ensures forall y | y in refined :: y.overlapCurrentSize <= x.overlapCurrentSize
    {
      assert x in covering;
      forall y | y in refined
        ensures y.overlapCurrentSize <= x.overlapCurrentSize
      {
        if y.overlapCurrentSize > 0 {
          var i :| 0 <= i < |refined| && refined[i] == y;
          assert y in covering;
        }
      }
    }
  }

  /** The closing step drops no candidate tied with a survivor on the current score. */
  lemma ClosingKeepsEveryTied(refined: seq<Target>, current: seq<Target>)
    requires current == SortAndGetHighest(Filter(refined, HasCurrentOverlap), CurrentSizeOf)
    ensures forall x, y | x in current && y in refined && y.overlapCurrentSize == x.overlapCurrentSize :: y in current
  {
    var covering := Filter(refined, HasCurrentOverlap);
    forall x, y | x in current && y in refined && y.overlapCurrentSize == x.overlapCurrentSize
      ensures y in current
    {
      var i :| 0 <= i < |refined| && refined[i] == y;
      assert x in covering;
      assert y in covering;
      var top := Extremum(covering, CurrentSizeOf, Descending);
      var w :| w in covering && CurrentSizeOf(w) == top;
    }
  }

  /**
   * The overlap step does not fall back to its input when a candidate with
   * the highest self score also covers part of the reference, whatever the
   * history: the survivors cover part of what they were last scored against
   * and have that highest self score.
   */
  lemma NoFallbackWhenBestCoversReference(targets: seq<Target>, source: Rect, history: seq<Rect>, e: DirectionEdges, t: Target)
    requires t in targets && SelfScore(t.rect, source, e) > 0 && CurrentScore(t.rect, source, e) > 0
    requires forall u | u in targets :: SelfScore(u.rect, source, e) <= SelfScore(t.rect, source, e)
    ensures CoversReference(Refine(targets, source, history, e))
    ensures var r := FilterOverlapping(targets, source, history, e);
      && r != []
      && forall x | x in r :: x.overlapCurrentSize > 0 && SelfScore(x.rect, source, e) == SelfScore(t.rect, source, e)
                             && (x.node, x.rect) in Ids(targets)
  {
    MostOverlappedKeepsEveryBest(targets, source, e, t);
    var kept := t.(overlapSelfSize := SelfScore(t.rect, source, e), overlapCurrentSize := CurrentScore(t.rect, source, e));
    RefineCovers(targets, source, history, e, kept);
    var r := FilterOverlapping(targets, source, history, e);
    TiedWithBest(r, targets, source, e, t);
  }

  /** Candidates drawn from `targets` whose self score no candidate exceeds share the best one's. */
  lemma TiedWithBest(r: seq<Target>, targets: seq<Target>, source: Rect, e: DirectionEdges, t: Target)
    requires t in targets
    requires forall u | u in targets :: SelfScore(u.rect, source, e) <= SelfScore(t.rect, source, e)
    requires DrawnFrom(r, targets)
    requires forall x | x in r :: SelfScore(t.rect, source, e) <= SelfScore(x.rect, source, e)
    ensures forall x | x in r :: SelfScore(x.rect, source, e) == SelfScore(t.rect, source, e) && (x.node, x.rect) in Ids(targets)
  {
    forall x | x in r
      ensures SelfScore(x.rect, source, e) == SelfScore(t.rect, source, e) && (x.node, x.rect) in Ids(targets)
    {
      assert (x.node, x.rect) in Ids(r);
      var u :| u in targets && (u.node, u.rect) == (x.node, x.rect);
    }
  }

  /**
   * A best-covered candidate that covers part of the reference keeps the
   * closing step supplied: either the narrowing falls back to the
   * best-covered candidates, this one among them, or every survivor of the
   * narrowing covers part of its own reference.
   */
  lemma RefineCovers(targets: seq<Target>, source: Rect, history: seq<Rect>, e: DirectionEdges, kept: Target)
    requires kept in MostOverlapped(targets, source, e) && kept.overlapCurrentSize > 0
    ensures CoversReference(Refine(targets, source, history, e))
  {
    var best := MostOverlapped(targets, source, e);
    var refined := Refine(targets, source, history, e);
    if |best| > 1 && |history| > 0 {
      if CoversReference(Refine(best, history[0], history[1..], e)) {
        assert refined[0] in refined;
      } else {
        assert kept in refined;
      }
    } else {
      assert kept in refined;
    }
  }

  /**
   * Without a recursive narrowing, the closing step ranks by the current
   * scores against the reference: it falls back when no best-covered
   * candidate covers any of the reference, and otherwise keeps candidates
   * covering the most of it.
   */
  lemma ClosingStepWithoutRecursion(targets: seq<Target>, source: Rect, history: seq<Rect>, e: DirectionEdges)
    requires |history| == 0 || |MostOverlapped(targets, source, e)| <= 1
    ensures var r, best := FilterOverlapping(targets, source, history, e), MostOverlapped(targets, source, e);
      && ((forall b | b in best :: CurrentScore(b.rect, source, e) <= 0) ==> r == targets)
      && forall x, b | x in r && b in best && CurrentScore(b.rect, source, e) > 0 ::
           && x in best
           && x.overlapCurrentSize == CurrentScore(x.rect, source, e) > 0
           && CurrentScore(b.rect, source, e) <= x.overlapCurrentSize
  {
    var best := MostOverlapped(targets, source, e);
    var refined := Refine(targets, source, history, e);
    assert refined == best;
    forall b | b in best && CurrentScore(b.rect, source, e) > 0
      ensures CoversReference(refined)
    {
      assert b.overlapCurrentSize > 0;
    }
  }

  /**
   * Depth of the recursion of `filterOverlaping`: each level consumes one
   * history entry, so the depth never exceeds the history's length.
   */
  ghost function RecursionDepth(targets: seq<Target>, source: Rect, history: seq<Rect>, e: DirectionEdges): (n: nat)
    ensures n <= |history|
    ensures n > 0 ==> |history| > 0 && |MostOverlapped(targets, source, e)| > 1
    decreases |history|
  {
    var best := MostOverlapped(targets, source, e);
    if |best| > 1 && |history| > 0 then 1 + RecursionDepth(best, history[0], history[1..], e) else 0
  }

  // ---------------------------------------------------------------------
  // The whole selection

  /**
   * The candidate `findNext` returns for the given candidates, direction,
   * source rectangle and the history it ranks with.
   */
  function Select(focusableNodes: seq<NodeId>, currentNode: NodeId, direction: Direction, source: Rect,
                  measure: NodeId -> Rect, history: seq<Rect>): (next: Option<Target>)
    ensures next.None? <==> forall n | n in focusableNodes && n != currentNode :: !IsAhead(measure(n), source, direction)
    ensures next.Some? ==>
      var c, e := next.value, GetDirectionEdges(direction);
      && c.node in focusableNodes && c.node != currentNode
      && c.rect == measure(c.node)
      && IsAhead(c.rect, source, direction)
      && forall n | n in focusableNodes && n != currentNode && IsAhead(measure(n), source, direction) ::
           MainEdgeDist(c.rect, source, e) <= MainEdgeDist(measure(n), source, e)
  {
    var e := GetDirectionEdges(direction);
    var ahead := FilterByDirection(MeasureAll(Candidates(focusableNodes, currentNode), measure), source, direction);
    var chosen := Rank(ahead, source, history, e);
    AheadCandidates(focusableNodes, currentNode, direction, source, measure);
    if |chosen| > 0 then
      var c := chosen[0];
      assert c in chosen;
      assert (c.node, c.rect) in Ids(ahead);
      var t :| t in ahead && (t.node, t.rect) == (c.node, c.rect);
      NearestAmongAhead(focusableNodes, currentNode, direction, source, measure, ahead, c);
      Some(c)
    else
      None
  }

  /**
   * The ranking steps of `findNext` after the direction filter: the nearest
   * row when more than one candidate is ahead, then the overlap tie-break
   * when more than one of those remains.
   */
  function Rank(ahead: seq<Target>, source: Rect, history: seq<Rect>, e: DirectionEdges): (chosen: seq<Target>)
    ensures chosen == [] <==> ahead == []
    ensures DrawnFrom(chosen, ahead)
    ensures forall c, t | c in chosen && t in ahead :: MainEdgeDist(c.rect, source, e) <= MainEdgeDist(t.rect, source, e)
  {
    var nearest := if |ahead| > 1 then NearestRow(ahead, source, e) else ahead;
    var chosen := if |nearest| > 1 then FilterOverlapping(nearest, source, history, e) else nearest;
    NearestFacts(ahead, source, e, nearest);
    RankFacts(ahead, nearest, chosen, source, e);
    chosen
  }

  lemma RankFacts(ahead: seq<Target>, nearest: seq<Target>, chosen: seq<Target>, source: Rect, e: DirectionEdges)
    requires DrawnFrom(nearest, ahead) && DrawnFrom(chosen, nearest)
    requires forall y, t | y in nearest && t in ahead :: MainEdgeDist(y.rect, source, e) <= MainEdgeDist(t.rect, source, e)
    ensures DrawnFrom(chosen, ahead)
    ensures forall c, t | c in chosen && t in ahead :: MainEdgeDist(c.rect, source, e) <= MainEdgeDist(t.rect, source, e)
  {
    forall c, t | c in chosen && t in ahead
      ensures MainEdgeDist(c.rect, source, e) <= MainEdgeDist(t.rect, source, e)
    {
      assert (c.node, c.rect) in Ids(nearest);
      var y :| y in nearest && (y.node, y.rect) == (c.node, c.rect);
    }
  }

  /**
   * When a nearest candidate has the highest self score among the nearest
   * and also covers part of the source, every candidate the ranking keeps
   * has that self score, whatever the history.
   */
  lemma RankPrefersBestCovered(ahead: seq<Target>, source: Rect, history: seq<Rect>, e: DirectionEdges, t: Target)
    requires t in ahead
    requires forall u | u in ahead :: MainEdgeDist(t.rect, source, e) <= MainEdgeDist(u.rect, source, e)
    requires SelfScore(t.rect, source, e) > 0 && CurrentScore(t.rect, source, e) > 0
    requires forall u | u in ahead && MainEdgeDist(u.rect, source, e) == MainEdgeDist(t.rect, source, e) ::
      SelfScore(u.rect, source, e) <= SelfScore(t.rect, source, e)
    ensures forall c | c in Rank(ahead, source, history, e) :: SelfScore(c.rect, source, e) == SelfScore(t.rect, source, e)
  {
    var nearest := if |ahead| > 1 then NearestRow(ahead, source, e) else ahead;
    NearestFacts(ahead, source, e, nearest);
    var t' := if |ahead| > 1 then t.(mainEdgeDist := MainEdgeDist(t.rect, source, e)) else t;
    if |ahead| > 1 {
      NearestRowKeepsEveryNearest(ahead, source, e, t);
    }
    assert t' in nearest && t'.rect == t.rect;
    if |nearest| > 1 {
      NearestBelowBest(ahead, source, e, nearest, t);
      NoFallbackWhenBestCoversReference(nearest, source, history, e, t');
    } else {
      assert nearest == [t'] by {
        assert nearest[0] in nearest;
        var i :| 0 <= i < |nearest| && nearest[i] == t';
      }
    }
  }

  /** Among the nearest candidates none has a higher self score than the best-covered nearest one. */
  lemma NearestBelowBest(ahead: seq<Target>, source: Rect, e: DirectionEdges, nearest: seq<Target>, t: Target)
    requires t in ahead
    requires forall u | u in ahead :: MainEdgeDist(t.rect, source, e) <= MainEdgeDist(u.rect, source, e)
    requires forall u | u in ahead && MainEdgeDist(u.rect, source, e) == MainEdgeDist(t.rect, source, e) ::
      SelfScore(u.rect, source, e) <= SelfScore(t.rect, source, e)
    requires DrawnFrom(nearest, ahead)
    requires forall y, u | y in nearest && u in ahead :: MainEdgeDist(y.rect, source, e) <= MainEdgeDist(u.rect, source, e)
    ensures forall u | u in nearest :: SelfScore(u.rect, source, e) <= SelfScore(t.rect, source, e)
  {
    forall u | u in nearest
      ensures SelfScore(u.rect, source, e) <= SelfScore(t.rect, source, e)
    {
      assert (u.node, u.rect) in Ids(nearest);
      var v :| v in ahead && (v.node, v.rect) == (u.node, u.rect);
    }
  }

  /** What the direction filter keeps, in terms of the candidate nodes and their measurements. */
  lemma AheadCandidates(focusableNodes: seq<NodeId>, currentNode: NodeId, direction: Direction, source: Rect, measure: NodeId -> Rect)
    ensures var ahead := FilterByDirection(MeasureAll(Candidates(focusableNodes, currentNode), measure), source, direction);
      && (forall t | t in ahead ::
            t.node in focusableNodes && t.node != currentNode && t.rect == measure(t.node) && IsAhead(t.rect, source, direction))
      && (forall n | n in focusableNodes && n != currentNode && IsAhead(measure(n), source, direction) ::
            exists t | t in ahead :: t.node == n && t.rect == measure(n))
  {
    var nodes := Candidates(focusableNodes, currentNode);
    var measured := MeasureAll(nodes, measure);
    var ahead := FilterByDirection(measured, source, direction);
    forall t | t in ahead
      ensures t.node in focusableNodes && t.node != currentNode && t.rect == measure(t.node)
    {
      var i :| 0 <= i < |measured| && measured[i] == t;
      assert nodes[i] in nodes;
    }
    forall n | n in focusableNodes && n != currentNode && IsAhead(measure(n), source, direction)
      ensures exists t | t in ahead :: t.node == n && t.rect == measure(n)
    {
      var i :| 0 <= i < |nodes| && nodes[i] == n;
      assert measured[i] in measured;
    }
  }

  /** A candidate no farther than any candidate ahead is no farther than any candidate node ahead. */
  lemma NearestAmongAhead(focusableNodes: seq<NodeId>, currentNode: NodeId, direction: Direction, source: Rect,
                          measure: NodeId -> Rect, ahead: seq<Target>, y: Target)
    requires ahead == FilterByDirection(MeasureAll(Candidates(focusableNodes, currentNode), measure), source, direction)
    requires forall t | t in ahead :: MainEdgeDist(y.rect, source, GetDirectionEdges(direction)) <= MainEdgeDist(t.rect, source, GetDirectionEdges(direction))
    ensures forall n | n in focusableNodes && n != currentNode && IsAhead(measure(n), source, direction) ::
      MainEdgeDist(y.rect, source, GetDirectionEdges(direction)) <= MainEdgeDist(measure(n), source, GetDirectionEdges(direction))
  {
    AheadCandidates(focusableNodes, currentNode, direction, source, measure);
    forall n | n in focusableNodes && n != currentNode && IsAhead(measure(n), source, direction)
      ensures MainEdgeDist(y.rect, source, GetDirectionEdges(direction)) <= MainEdgeDist(measure(n), source, GetDirectionEdges(direction))
    {
      var t :| t in ahead && t.node == n && t.rect == measure(n);
    }
  }

  /**
   * The candidates left after the nearest-row step (skipped for a single
   * candidate) are candidates ahead, at the smallest main-edge distance.
   */
  lemma NearestFacts(ahead: seq<Target>, source: Rect, e: DirectionEdges, nearest: seq<Target>)
    requires nearest == if |ahead| > 1 then NearestRow(ahead, source, e) else ahead
    ensures nearest == [] <==> ahead == []
    ensures DrawnFrom(nearest, ahead)
    ensures forall y, t | y in nearest && t in ahead :: MainEdgeDist(y.rect, source, e) <= MainEdgeDist(t.rect, source, e)
  {
    if |ahead| > 1 {
      forall y | y in nearest
        ensures (y.node, y.rect) in Ids(ahead)
        ensures forall t | t in ahead :: MainEdgeDist(y.rect, source, e) <= MainEdgeDist(t.rect, source, e)
      {
        var t :| t in ahead && y == t.(mainEdgeDist := MainEdgeDist(t.rect, source, e));
      }
      DrawnFromIntro(nearest, ahead);
    }
  }

}
