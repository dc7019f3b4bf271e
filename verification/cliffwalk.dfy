/** The cliff-walk grid: a maze whose cells coded 4 are cliff. Stepping
    from the goal keeps the agent there; an unknown action is an error;
    a move onto a cliff cell sends the agent back to the start with the
    cliff penalty and does not end the episode; every other move is left
    to the underlying maze's own step rule, which is a parameter here. */
module CliffWalk {
  import opened Common
  import opened Mdp

  /** The cell codes of a layout: path, wall, start, goal and cliff. */
  const Path: int := 0
  const Wall: int := 1
  const Start: int := 2
  const Goal: int := 3
  const Cliff: int := 4

  type Grid = seq<seq<int>>

  /** Every row has the length of the first. */
  predicate Rectangular(g: Grid) {
    forall i :: 0 <= i < |g| ==> |g[i]| == |g[0]|
  }

  /** What the underlying maze provides: the start and goal cells it
      finds in the layout, its move table from action names to (row,
      column) offsets, and its own step rule. */
  datatype Base = Base(
    startPos: State,
    goalPos: State,
    moves: map<Action, (int, int)>,
    step: (State, Action) -> Transition)

  /** A cliff-walk environment: the layout, its size, the maze's parts,
      and the three rewards. */
  datatype World = World(
    maze: Grid,
    height: int,
    width: int,
    base: Base,
    rewardStep: real,
    rewardCliff: real,
    rewardGoal: real)

  /** The classic 4 x 12 layout: three rows of path over a bottom row
      that runs start, ten cliff cells, goal. */
  const Classic: Grid := [
    [0, 0, 0, 0, 0, 0, 0, 0, 0, 0, 0, 0],
    [0, 0, 0, 0, 0, 0, 0, 0, 0, 0, 0, 0],
    [0, 0, 0, 0, 0, 0, 0, 0, 0, 0, 0, 0],
    [2, 4, 4, 4, 4, 4, 4, 4, 4, 4, 4, 3]]

  /** The default rewards. */
  const DefaultStepReward: real := -1.0
  const DefaultCliffReward: real := -100.0
  const DefaultGoalReward: real := 0.0

  /** `CliffWalkEnv(cliffwalk, reward_step, reward_cliff, reward_goal)`:
      without a layout the classic one is used; the cliff reward is kept
      as given, and the layout and the other two rewards go to the maze. */
  function NewEnv(layout: Option<Grid>, rewardStep: real, rewardCliff: real, rewardGoal: real, base: Base): (e: World)
    requires layout.Some? ==> Rectangular(layout.value)
    ensures Rectangular(e.maze)
    ensures e.maze == (if layout.Some? then layout.value else Classic)
    ensures e.height == |e.maze| && e.width == (if |e.maze| == 0 then 0 else |e.maze[0]|)
    ensures e.rewardStep == rewardStep && e.rewardCliff == rewardCliff && e.rewardGoal == rewardGoal
  {
    var g := match layout
      case Some(l) => l
      case None => Classic;
    World(g, |g|, if |g| == 0 then 0 else |g[0]|, base, rewardStep, rewardCliff, rewardGoal)
  }

  /** The environment with every argument left at its default. */
  function DefaultEnv(base: Base): (e: World)
    ensures e.maze == Classic && e.height == 4 && e.width == 12
    ensures e.rewardStep == -1.0 && e.rewardCliff == -100.0 && e.rewardGoal == 0.0
  {
    NewEnv(None, DefaultStepReward, DefaultCliffReward, DefaultGoalReward, base)
  }

  /** `p` lies on the grid. */
  predicate InBounds(e: World, p: State) {
    0 <= p.0 < e.height && 0 <= p.1 < e.width
  }

  /** The height and width describe the layout. */
  predicate WellFormed(e: World) {
    && Rectangular(e.maze)
    && e.height == |e.maze|
    && e.width == (if |e.maze| == 0 then 0 else |e.maze[0]|)
  }

  /** `p` is a cliff cell of the layout. */
  predicate IsCliff(e: World, p: State)
    requires WellFormed(e)
  {
    InBounds(e, p) && e.maze[p.0][p.1] == Cliff
  }

  /** The cell an action's offset leads to, before any check. */
  function Target(p: State, d: (int, int)): State {
    (p.0 + d.0, p.1 + d.1)
  }

  /** `CliffWalkEnv.step`: `None` stands for the `ValueError` raised on an
      unknown action. The goal check comes first, so the goal answers any
      action, known or not; a target off the grid is never a cliff. */
  function Step(e: World, pos: State, a: Action): (r: Option<Transition>)
    requires WellFormed(e)
    ensures r.None? <==> pos != e.base.goalPos && a !in e.base.moves
    ensures pos == e.base.goalPos ==> r == Some(Transition(e.base.goalPos, 0.0, true))
    ensures r.Some? && pos != e.base.goalPos ==>
              r.value == if IsCliff(e, Target(pos, e.base.moves[a])) then Transition(e.base.startPos, e.rewardCliff, false)
                         else e.base.step(pos, a)
  {
    if pos == e.base.goalPos then Some(Transition(e.base.goalPos, 0.0, true))
    else if a !in e.base.moves then None
    else
      var next := Target(pos, e.base.moves[a]);
      if 0 <= next.0 < e.height && 0 <= next.1 < e.width && e.maze[next.0][next.1] == Cliff then
        Some(Transition(e.base.startPos, e.rewardCliff, false))
      else Some(e.base.step(pos, a))
  }

  /** Off the goal and on a known action, `Step` answers with the cliff
      reset exactly when the action's target is a cliff cell, unless the
      maze's own step would give that same answer. */
  lemma CliffResets(e: World, pos: State, a: Action)
    requires WellFormed(e) && pos != e.base.goalPos && a in e.base.moves
    requires e.base.step(pos, a) != Transition(e.base.startPos, e.rewardCliff, false)
    ensures (Step(e, pos, a) == Some(Transition(e.base.startPos, e.rewardCliff, false)))
              <==> IsCliff(e, Target(pos, e.base.moves[a]))
  {
  }

  /** The world as the learners see it: the given states and action
      names, its start and goal, and `Step` as the transition function. A
      name the move table lacks is the `ValueError` case; it is kept in
      place with no reward here, and the lemma below rules it out. */
  function AsEnv(e: World, states: seq<State>, keys: seq<Action>): (env: Env)
    requires WellFormed(e)
    ensures env.states == states && env.actionKeys == keys
    ensures env.startPos == e.base.startPos && env.goalPos == e.base.goalPos
  {
    Env(states, keys, e.base.startPos, e.base.goalPos,
        (p: State, a: Action) => match Step(e, p, a)
          case Some(t) => t
          case None => Transition(p, 0.0, false))
  }

  /** A well-formed world meets the environment contract the solvers and
      learners rely on as soon as its maze does: when the listed actions
      are distinct names of the move table and the maze's own step never
      leaves a state list that holds the start and the goal, every listed
      action is accepted from every state, and the goal, the cliff reset
      and the maze's step all land on a listed state. */
  lemma AsEnvValid(e: World, states: seq<State>, keys: seq<Action>)
    requires WellFormed(e) && |keys| > 0 && Distinct(keys)
    requires forall a :: a in keys ==> a in e.base.moves
    requires e.base.startPos in states && e.base.goalPos in states
    requires forall p, a :: p in states && a in keys ==> e.base.step(p, a).next in states
    ensures ValidEnv(AsEnv(e, states, keys))
    ensures forall p, a :: a in keys ==> Step(e, p, a).Some? && AsEnv(e, states, keys).step(p, a) == Step(e, p, a).value
  {
    var env := AsEnv(e, states, keys);
    forall p, a | p in states && a in keys
      ensures Successor(env, p, a) in states
    {
      assert env.step(p, a) == Step(e, p, a).value;
    }
  }

  /** The cliff cells of the classic layout are exactly the bottom row
      between the start and the goal. */
  lemma ClassicCliffCells(base: Base, p: State)
    ensures IsCliff(DefaultEnv(base), p) <==> p.0 == 3 && 1 <= p.1 <= 10
  {
    var e := DefaultEnv(base);
    if 0 <= p.0 < 4 && 0 <= p.1 < 12 {
      assert e.maze[p.0][p.1] == Classic[p.0][p.1];
    }
  }

  /** The usual compass move table, as an example for the lemmas below. */
  const Compass: map<Action, (int, int)> := map["N" := (-1, 0), "S" := (1, 0), "W" := (0, -1), "E" := (0, 1)]

  /** In the classic layout with the compass moves, stepping east from the
      start falls off the cliff: back to the start with -100, not done;
      stepping north from the start is the maze's own step. */
  lemma ClassicFirstSteps(step: (State, Action) -> Transition)
    ensures var e := DefaultEnv(Base((3, 0), (3, 11), Compass, step));
            && Step(e, (3, 0), "E") == Some(Transition((3, 0), -100.0, false))
            && Step(e, (3, 0), "N") == Some(step((3, 0), "N"))
            && Step(e, (3, 11), "X") == Some(Transition((3, 11), 0.0, true))
            && Step(e, (3, 0), "X").None?
  {
    var e := DefaultEnv(Base((3, 0), (3, 11), Compass, step));
    ClassicCliffCells(e.base, (3, 1));
    ClassicCliffCells(e.base, (2, 0));
  }
}
