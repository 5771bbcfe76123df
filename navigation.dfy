/**
 * The stateful navigator `GridNav` of gridnav.js: it remembers the direction
 * of the current call, the axis of the previous one, and a short history of
 * the source rectangles of previous calls on the same axis, which the
 * overlap tie-break consults.
 */
module Navigation {
  import opened Wrappers
  import opened Directions
  import opened Ranking

  /** `maxHistory`: the history is trimmed to fewer entries than this after each call. */
  const MaxHistory := 5

  /** `getAxis` applied to a possibly unset direction: an unset one counts as horizontal. */
  function AxisOf(direction: Option<Direction>): (a: Axis)
    ensures a == Vertical <==> direction == Some(Up) || direction == Some(Down)
  {
    match direction
    case Some(d) => GetAxis(d)
    case None => Horizontal
  }

  /** The history the ranking of a call sees: the stored one, or none after a change of axis. */
  function RankingHistory(history: seq<Rect>, lastAxis: Option<Axis>, axis: Axis): (h: seq<Rect>)
    ensures lastAxis != Some(axis) ==> h == []
    ensures lastAxis == Some(axis) ==> h == history
  {
    if lastAxis == Some(axis) then history else []
  }

  /**
   * The history after a call: `source` in front of the previous entries,
   * cut back to `MaxHistory - 1` entries.
   */
  function RecordedHistory(history: seq<Rect>, source: Rect): (h: seq<Rect>)
    ensures |h| == if |history| + 1 < MaxHistory then |history| + 1 else MaxHistory - 1
    ensures h[0] == source
    ensures forall i | 1 <= i < |h| :: h[i] == history[i - 1]
  {
    var pushed := [source] + history;
    if |pushed| < MaxHistory then pushed else pushed[..MaxHistory - 1]
  }

  /**
   * Two calls in a row on the same axis: the second one ranks with a history
   * whose first entry is the first call's source, followed by what the first
   * call saw, as far as it fits.
   */
  lemma {:induction false} SameAxisRemembersSource(history: seq<Rect>, lastAxis: Option<Axis>, first: Direction, second: Direction,
                                                   source: Rect)
    requires GetAxis(first) == GetAxis(second)
    ensures var seen := RankingHistory(history, lastAxis, GetAxis(first));
      var next := RankingHistory(RecordedHistory(seen, source), Some(GetAxis(first)), GetAxis(second));
      && next[0] == source
      && |next| <= MaxHistory - 1
      && forall i | 1 <= i < |next| :: next[i] == seen[i - 1]
  {
    var seen := RankingHistory(history, lastAxis, GetAxis(first));
    var recorded := RecordedHistory(seen, source);
    assert RankingHistory(recorded, Some(GetAxis(first)), GetAxis(second)) == recorded;
  }

  /** A turn onto the other axis forgets every earlier source. */
  lemma TurnForgetsHistory(history: seq<Rect>, first: Direction, second: Direction, source: Rect)
    requires GetAxis(first) != GetAxis(second)
    ensures RankingHistory(RecordedHistory(history, source), Some(GetAxis(first)), GetAxis(second)) == []
  {
  }

  /**
   * The ranking part of `findNext` in the source's own form, one reassignment
   * of `targets` per step: the candidates without repetitions and without the
   * current node, measured, kept when ahead, then narrowed; the first
   * survivor is the answer. `Select` is its specification, the function the
   * lemmas about the selection speak of.
   */
  method SelectNext(focusableNodes: seq<NodeId>, currentNode: NodeId, direction: Direction, source: Rect,
                    measure: NodeId -> Rect, history: seq<Rect>) returns (next: Option<Target>)
    ensures next == Select(focusableNodes, currentNode, direction, source, measure, history)
  {
    var targets := MeasureAll(Candidates(focusableNodes, currentNode), measure);
    targets := FilterByDirection(targets, source, direction);
    targets := RankAhead(targets, source, history, GetDirectionEdges(direction));
    next := if |targets| > 0 then Some(targets[0]) else None;
  }

  /**
   * The two guarded narrowing steps of `findNext`, as statements, each run
   * only while more than one candidate remains; `Rank` is their specification.
   */
  method RankAhead(ahead: seq<Target>, source: Rect, history: seq<Rect>, e: DirectionEdges) returns (targets: seq<Target>)
    ensures targets == Rank(ahead, source, history, e)
  {
    targets := ahead;
    if |targets| > 1 {
      targets := FilterByClosestParallel(targets, source, e);
    }
    if |targets| > 1 {
      targets := FilterOverlapping(targets, source, history, e);
    }
  }

  class GridNav {
    /** Source rectangles of previous calls on the current axis, most recent first. */
    var axisHistory: seq<Rect>
    /** The axis of the previous call; unset before the first one. */
    var lastAxis: Option<Axis>
    /** The direction, axis and edge tuple of the call in progress. */
    var direction: Option<Direction>
    var axis: Option<Axis>
    var directionEdges: Option<DirectionEdges>

    /** The history never holds more than `MaxHistory - 1` entries between calls. */
    ghost predicate Valid()
      reads this
    {
      |axisHistory| < MaxHistory
    }

    constructor()
      ensures Valid()
      ensures axisHistory == [] && lastAxis == None
      ensures direction == None && axis == None && directionEdges == None
    {
      axisHistory := [];
      lastAxis := None;
      direction := None;
      axis := None;
      directionEdges := None;
    }

    /**
     * `setupDirectionAndAxis`: take the direction from its name or from the
     * key code, and derive the axis and the edge tuple from it. An
     * unrecognised key leaves the direction and the edge tuple unset and the
     * axis horizontal.
     */
    method SetupDirectionAndAxis(input: DirectionInput)
      modifies this
      ensures direction == ResolveDirection(input)
      ensures axis == Some(AxisOf(direction))
      ensures directionEdges == if direction.Some? then Some(GetDirectionEdges(direction.value)) else None
      ensures axisHistory == old(axisHistory) && lastAxis == old(lastAxis)
      ensures Valid() == old(Valid())
    {
      direction := match input
        case Named(d) => Some(d)
        case KeyEvent(keyCode) => TranslateKeyToDirection(keyCode);
      axis := Some(AxisOf(direction));
      directionEdges := if direction.Some? then Some(GetDirectionEdges(direction.value)) else None;
    }

    /** `reset`: forget the history. */
    method Reset()
      modifies this
      ensures axisHistory == []
      ensures lastAxis == old(lastAxis) && direction == old(direction) && axis == old(axis)
      ensures directionEdges == old(directionEdges)
      ensures Valid()
    {
      axisHistory := [];
    }

    /**
     * `findNext`: the candidate to move to from `source` in the direction
     * `input` names, or none when no candidate lies that way. The history
     * is cleared first when the axis differs from the previous call's, and
     * the call's source is recorded in front of it afterwards.
     */
    method FindNext(focusableNodes: seq<NodeId>, currentNode: NodeId, input: DirectionInput, source: Rect,
                    measure: NodeId -> Rect) returns (next: Option<Target>)
      requires ResolveDirection(input).Some?
      modifies this
      ensures var d := ResolveDirection(input).value;
        var ranked := RankingHistory(old(axisHistory), old(lastAxis), GetAxis(d));
        && next == Select(focusableNodes, currentNode, d, source, measure, ranked)
        && axisHistory == RecordedHistory(ranked, source)
        && lastAxis == Some(GetAxis(d))
        && direction == Some(d) && axis == Some(GetAxis(d)) && directionEdges == Some(GetDirectionEdges(d))
      ensures Valid()
    {
      SetupDirectionAndAxis(input);
      if lastAxis != axis {
        Reset();
      }
      next := SelectNext(focusableNodes, currentNode, direction.value, source, measure, axisHistory);

      lastAxis := axis;
      RecordSource(source);
    }

    /**
     * The history update that closes `findNext`: put `source` in front, then
     * drop entries from the back until fewer than `MaxHistory` remain.
     */
    method RecordSource(source: Rect)
      modifies this
      ensures axisHistory == RecordedHistory(old(axisHistory), source)
      ensures lastAxis == old(lastAxis) && direction == old(direction) && axis == old(axis)
      ensures directionEdges == old(directionEdges)
      ensures Valid()
    {
      axisHistory := [source] + axisHistory;
      ghost var pushed := axisHistory;
      while |axisHistory| >= MaxHistory
        invariant |axisHistory| <= |pushed| && axisHistory == pushed[..|axisHistory|]
        invariant |axisHistory| < |pushed| ==> |axisHistory| >= MaxHistory - 1
        invariant lastAxis == old(lastAxis) && direction == old(direction) && axis == old(axis)
        invariant directionEdges == old(directionEdges)
        decreases |axisHistory|
      {
        axisHistory := axisHistory[..|axisHistory| - 1];
      }
    }
  }

}
