/** Actions an actor can take on a level: doing nothing, or walking one
    cell in a compass direction if the target cell can be walked on.

    The `Action` trait has two implementations; here they are the two
    variants of one datatype, and `Perform` dispatches on the variant. */
module Actions {
  import opened Math
  import opened Game

  datatype ActionResult = ActionResult(succeeded: bool)

  /** The part of an actor an action touches: its position. */
  class Actor {
    var position: Vec2

    constructor (position: Vec2)
      ensures this.position == position
    {
      this.position := position;
    }
  }

  /** The unit step of a direction, in screen coordinates (y grows
      southwards). */
  function Delta(d: Direction): (step: Vec2)
    ensures Abs(step.x as int) + Abs(step.y as int) == 1
    ensures d == North || d == South <==> step.x == 0
    ensures step.y < 0 <==> d == North
    ensures step.x < 0 <==> d == West
  {
    match d
    case North => Vec2(0, -1)
    case South => Vec2(0, 1)
    case East => Vec2(1, 0)
    case West => Vec2(-1, 0)
  }

  /** Number of single orthogonal steps between two positions. */
  function Manhattan(a: Vec2, b: Vec2): nat {
    Abs(a.x as int - b.x as int) + Abs(a.y as int - b.y as int)
  }

  /** Stepping in a direction moves exactly one cell away. */
  lemma DeltaMovesOneCell(pos: Vec2, d: Direction)
    requires CanAdd(pos, Delta(d))
    ensures Manhattan(Add(pos, Delta(d)), pos) == 1
  {
  }

  datatype Action = NullAction | WalkAction(direction: Direction) {

    /** `clone_dyn`: a copy of the same action. */
    function CloneDyn(): (copy: Action)
      ensures copy == this
      ensures WalkAction? ==> copy.direction == direction
    {
      match this
      case NullAction => NullAction
      case WalkAction(d) => WalkAction(d)
    }

    /** `perform`: a null action succeeds and leaves the actor where it is;
        a walk moves the actor one step if the target cell is walkable and
        otherwise fails without moving it. */
    method Perform(level: Level, actor: Actor) returns (result: ActionResult)
      requires level.Valid()
      requires WalkAction? ==> CanAdd(actor.position, Delta(direction))
      modifies actor
      ensures NullAction? ==> result.succeeded && actor.position == old(actor.position)
      ensures WalkAction? ==>
        var target := Add(old(actor.position), Delta(direction));
        result.succeeded == level.CanWalk(target)
        && actor.position == if result.succeeded then target else old(actor.position)
      ensures WalkAction? && result.succeeded ==>
        level.View().InBounds(actor.position.x as int, actor.position.y as int)
        && level.View().At(actor.position.x as int, actor.position.y as int).CanWalk()
        && Manhattan(actor.position, old(actor.position)) == 1
      ensures !result.succeeded ==> actor.position == old(actor.position)
    {
      match this
      case NullAction =>
        result := ActionResult(true);
      case WalkAction(d) =>
        var oldPos := actor.position;
        var newPos := Add(oldPos, Delta(d));
        if level.CanWalk(newPos) {
          actor.position := newPos;
          result := ActionResult(true);
        } else {
          result := ActionResult(false);
        }
    }
  }
}
