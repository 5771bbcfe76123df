/**
 * The static tables of gridnav.js: directions and axes, the arrow-key codes,
 * the rectangle properties the ranking steps look up by name, and the
 * per-direction edge tuple.
 */
module Directions {
  import opened Wrappers

  datatype Direction = Left | Up | Right | Down

  datatype Axis = Vertical | Horizontal

  /** The properties of a client rectangle, as the source names them in its edge table. */
  datatype RectKey = LeftKey | RightKey | TopKey | BottomKey | WidthKey | HeightKey

  /** A bounding-rectangle snapshot, in integer coordinates. */
  datatype Rect = Rect(left: int, right: int, top: int, bottom: int, width: int, height: int)

  /** `rect[key]` */
  function Get(r: Rect, k: RectKey): int {
    match k
    case LeftKey => r.left
    case RightKey => r.right
    case TopKey => r.top
    case BottomKey => r.bottom
    case WidthKey => r.width
    case HeightKey => r.height
  }

  /** What a layout engine reports: sides in order and sizes that match them. */
  ghost predicate WellFormed(r: Rect) {
    && r.left <= r.right && r.width == r.right - r.left
    && r.top <= r.bottom && r.height == r.bottom - r.top
  }

  function GetAxis(direction: Direction): (a: Axis)
    ensures a == Vertical <==> direction == Up || direction == Down
  {
    if direction == Up || direction == Down then Vertical else Horizontal
  }

  /**
   * The tuple `[mainEdgeCurrent, mainEdgeNeighbour, lowerSide, upperSide, sizeKey]`:
   * the source's side facing the travel direction, the candidate's side facing
   * back, and the two sides and the size of the cross-axis span.
   */
  datatype DirectionEdges = DirectionEdges(lead: RectKey, trail: RectKey, lower: RectKey, upper: RectKey, size: RectKey)

  function GetDirectionEdges(direction: Direction): (e: DirectionEdges)
    ensures GetAxis(direction) == Horizontal ==> e.lower == TopKey && e.upper == BottomKey && e.size == HeightKey
    ensures GetAxis(direction) == Vertical ==> e.lower == LeftKey && e.upper == RightKey && e.size == WidthKey
    ensures GetAxis(direction) == Horizontal ==> {e.lead, e.trail} == {LeftKey, RightKey}
    ensures GetAxis(direction) == Vertical ==> {e.lead, e.trail} == {TopKey, BottomKey}
    ensures forall r | WellFormed(r) :: Get(r, e.size) == Get(r, e.upper) - Get(r, e.lower) >= 0
  {
    match direction
    case Right => DirectionEdges(RightKey, LeftKey, TopKey, BottomKey, HeightKey)
    case Left => DirectionEdges(LeftKey, RightKey, TopKey, BottomKey, HeightKey)
    case Down => DirectionEdges(BottomKey, TopKey, LeftKey, RightKey, WidthKey)
    case Up => DirectionEdges(TopKey, BottomKey, LeftKey, RightKey, WidthKey)
  }

  /** The test `filterByDirection` applies to a candidate rectangle `t`. */
  predicate IsAhead(t: Rect, source: Rect, direction: Direction) {
    match direction
    case Right => t.left >= source.right
    case Left => t.right <= source.left
    case Down => t.top >= source.bottom
    case Up => t.bottom <= source.top
  }

  /** Right and down travel towards growing coordinates. */
  predicate Forward(direction: Direction) {
    direction == Right || direction == Down
  }

  /**
   * The direction test and the edge table agree: a candidate is ahead exactly
   * when its trailing side lies at or beyond the source's leading side, in
   * the sense of travel.
   */
  lemma AheadMeansPastLeadingSide(t: Rect, source: Rect, direction: Direction)
    ensures var e := GetDirectionEdges(direction);
      IsAhead(t, source, direction) <==>
        if Forward(direction) then Get(t, e.trail) >= Get(source, e.lead)
        else Get(t, e.trail) <= Get(source, e.lead)
  {
  }

  // Arrow-key codes (`KEYS`).
  const KeyLeft := 37
  const KeyUp := 38
  const KeyRight := 39
  const KeyDown := 40

  /** The entry of `KEYS` for a direction. */
  function KeyCode(direction: Direction): int {
    match direction
    case Left => KeyLeft
    case Up => KeyUp
    case Right => KeyRight
    case Down => KeyDown
  }

  function IsArrowKey(keyCode: int): bool {
    keyCode >= 37 && keyCode <= 40
  }

  /** The arrow keys are exactly the key codes of the four directions. */
  lemma ArrowKeysAreDirectionKeys(keyCode: int)
    ensures IsArrowKey(keyCode) <==> exists d: Direction :: KeyCode(d) == keyCode
  {
    if IsArrowKey(keyCode) {
      var d := if keyCode == 37 then Left else if keyCode == 38 then Up else if keyCode == 39 then Right else Down;
      assert KeyCode(d) == keyCode;
    }
  }

  /** Translating a key code gives back exactly the direction whose code it is. */
  lemma TranslateInvertsKeyCode(keyCode: int, direction: Direction)
    ensures TranslateKeyToDirection(keyCode) == Some(direction) <==> KeyCode(direction) == keyCode
  {
  }

  function TranslateKeyToDirection(keyCode: int): (d: Option<Direction>)
    ensures d.Some? <==> IsArrowKey(keyCode)
  {
    if keyCode == KeyLeft then Some(Left)
    else if keyCode == KeyRight then Some(Right)
    else if keyCode == KeyUp then Some(Up)
    else if keyCode == KeyDown then Some(Down)
    else None
  }

  /** `findNext` takes either a direction name or a keyboard event. */
  datatype DirectionInput = Named(direction: Direction) | KeyEvent(keyCode: int)

  /**
   * The direction a call asks for: a name stands for itself, a key event for
   * the direction whose key code it carries, and any other key for none.
   */
  function ResolveDirection(input: DirectionInput): (d: Option<Direction>)
    ensures d.None? <==> input.KeyEvent? && !IsArrowKey(input.keyCode)
    ensures input.Named? ==> d == Some(input.direction)
    ensures input.KeyEvent? ==> forall direction: Direction :: d == Some(direction) <==> KeyCode(direction) == input.keyCode
  {
    match input
    case Named(direction) => Some(direction)
    case KeyEvent(keyCode) => TranslateKeyToDirection(keyCode)
  }

}
