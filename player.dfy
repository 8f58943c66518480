/**
 * The keyboard-driven player: an arrow key sets the facing direction, and
 * the move flag is raised only when the move in that direction is valid.
 */
module Player {
  import opened Wrappers

  /** The four compass directions of a grid location. */
  datatype Direction = North | East | South | West

  /** java.awt.event.KeyEvent codes of the arrow keys. */
  const VkLeft: int := 37
  const VkUp: int := 38
  const VkRight: int := 39
  const VkDown: int := 40

  /** The arrow key that faces the player in direction `d`. */
  function KeyOfDirection(d: Direction): int
  {
    match d
    case West => VkLeft
    case North => VkUp
    case East => VkRight
    case South => VkDown
  }

  /** The direction an arrow key sets, or None for any other key. */
  function DirectionOfKey(keyCode: int): (r: Option<Direction>)
    ensures r.Some? <==> keyCode in {VkLeft, VkUp, VkRight, VkDown}
    ensures r.Some? ==> KeyOfDirection(r.value) == keyCode
  {
    if keyCode == VkLeft then Some(West)
    else if keyCode == VkUp then Some(North)
    else if keyCode == VkRight then Some(East)
    else if keyCode == VkDown then Some(South)
    else None
  }

  /** Every direction has exactly one arrow key, and that key sets it. */
  lemma KeyDirectionRoundTrip(d: Direction)
    ensures DirectionOfKey(KeyOfDirection(d)) == Some(d)
    ensures forall d' :: KeyOfDirection(d') == KeyOfDirection(d) ==> d' == d
  {
  }

  /** The part of the player that key handling reads and writes. */
  datatype PlayerState = PlayerState(direction: Direction, removed: bool, shouldMove: bool)

  /**
   * The effect of keyRepeated, with isMoveValid taken as a predicate on the
   * direction just set.
   */
  function KeyRepeatedStep(s: PlayerState, keyCode: int, isMoveValid: Direction -> bool): (r: PlayerState)
    ensures r.removed == s.removed
    ensures s.removed ==> r == s
    ensures !s.removed && keyCode !in {VkLeft, VkUp, VkRight, VkDown} ==>
      r == s.(shouldMove := false)
    ensures forall d :: !s.removed && keyCode == KeyOfDirection(d) ==>
      r.direction == d && (r.shouldMove <==> isMoveValid(d))
  {
    if s.removed then s
    else
      match DirectionOfKey(keyCode)
      case None => s.(shouldMove := false)
      case Some(d) => s.(direction := d, shouldMove := isMoveValid(d))
  }

  /**
   * A second press of the same key, with no move in between (so under the
   * same isMoveValid), leaves the state as the first press left it.
   */
  lemma KeyRepeatedIdempotent(s: PlayerState, keyCode: int, isMoveValid: Direction -> bool)
    ensures KeyRepeatedStep(KeyRepeatedStep(s, keyCode, isMoveValid), keyCode, isMoveValid)
         == KeyRepeatedStep(s, keyCode, isMoveValid)
  {
  }

  class ManualPlayer {
    /** The facing direction, kept by the Player superclass. */
    var direction: Direction
    /** isRemoved() of the superclass. */
    var removed: bool
    /** Whether the player may move in this simulation iteration. */
    var shouldMove: bool

    function State(): PlayerState
      reads this
    {
      PlayerState(direction, removed, shouldMove)
    }

    /** A new player faces `initialDirection` and may not move yet. */
    constructor (initialDirection: Direction)
      ensures direction == initialDirection && !removed && !shouldMove
    {
      direction := initialDirection;
      removed := false;
      shouldMove := false;
    }

    /** keyRepeated: the key sets the direction, then the flag records whether the move is valid. */
    method KeyRepeated(keyCode: int, isMoveValid: Direction -> bool)
      modifies this
      ensures State() == KeyRepeatedStep(old(State()), keyCode, isMoveValid)
    {
      if removed {
        return;
      }
      shouldMove := false;
      if keyCode == VkLeft {
        direction := West;
      } else if keyCode == VkUp {
        direction := North;
      } else if keyCode == VkRight {
        direction := East;
      } else if keyCode == VkDown {
        direction := South;
      } else {
        return;
      }
      if !isMoveValid(direction) {
        return;
      }
      shouldMove := true;
    }

    /** setNextDirection: the direction is already set by the key handler. */
    method SetNextDirection()
      ensures unchanged(this)
    {
    }

    /** shouldMove(): reports the flag. */
    method ShouldMove() returns (b: bool)
      ensures b == shouldMove
    {
      b := shouldMove;
    }

    /** resetMove: lowers the flag and nothing else. */
    method ResetMove()
      modifies this
      ensures !shouldMove && direction == old(direction) && removed == old(removed)
    {
      shouldMove := false;
    }
  }
}
