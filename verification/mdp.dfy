/** The environment contract the solvers and learners depend on: a finite,
    ordered state list with one goal, an ordered list of action labels and
    a total transition function. The grid environment itself (the maze
    class) is not part of this model; it enters only through `step`. */
module Mdp {
  import opened Common

  /** A grid cell `(row, column)`. */
  type State = (int, int)

  /** An action label such as "N"; the empty label is the goal's policy entry. */
  type Action = string

  datatype Transition = Transition(next: State, reward: real, done: bool)

  datatype Env = Env(
    states: seq<State>,
    actionKeys: seq<Action>,
    startPos: State,
    goalPos: State,
    step: (State, Action) -> Transition)

  type ValueTable = map<State, real>
  type Policy = map<State, Action>

  /** What the solvers need of an environment: the goal is a state, the
      action list is non-empty and free of repeats, and stepping from any
      state with any action lands on a state (a value-table lookup of the
      successor would fail otherwise). */
  predicate ValidEnv(env: Env) {
    && env.goalPos in env.states
    && |env.actionKeys| > 0
    && Distinct(env.actionKeys)
    && forall s, a {:trigger Successor(env, s, a)} ::
         s in env.states && a in env.actionKeys ==> Successor(env, s, a) in env.states
  }

  /** The state `step` leads to. */
  function Successor(env: Env, s: State, a: Action): State {
    env.step(s, a).next
  }

  /** Every state of the environment has an entry in `v`. */
  predicate Covers<T>(env: Env, v: map<State, T>) {
    forall s :: s in env.states ==> s in v
  }

  function StateSet(env: Env): set<State> {
    set s | s in env.states
  }

  /** The all-zero table the solvers start from. */
  function ZeroTable(env: Env): (v: ValueTable)
    ensures v.Keys == StateSet(env)
    ensures forall s :: s in v ==> v[s] == 0.0
  {
    map s | s in env.states :: 0.0
  }

  /** One-step lookahead value of taking `a` in `s`: `reward + gamma * v[next]`. */
  function QValue(env: Env, gamma: real, v: ValueTable, s: State, a: Action): real
    requires ValidEnv(env) && Covers(env, v)
    requires s in env.states && a in env.actionKeys
  {
    assert Successor(env, s, a) in env.states;
    env.step(s, a).reward + gamma * v[Successor(env, s, a)]
  }

  /** Position, in the action list, of the first action of largest
      lookahead value among the first `n` actions: Python's `max` over the
      `action_values` dict, which scans in insertion order and replaces its
      candidate only on a strictly larger value. */
  function FirstBestIndex(env: Env, gamma: real, v: ValueTable, s: State, n: nat): (k: nat)
    requires ValidEnv(env) && Covers(env, v) && s in env.states
    requires 0 < n <= |env.actionKeys|
    ensures k < n
  {
    if n == 1 then 0
    else
      var k := FirstBestIndex(env, gamma, v, s, n - 1);
      if QValue(env, gamma, v, s, env.actionKeys[n - 1]) > QValue(env, gamma, v, s, env.actionKeys[k]) then n - 1 else k
  }

  /** The scan's index is a maximum of the first `n` lookahead values and
      every earlier action does strictly worse. */
  lemma {:induction false} FirstBestIndexIsFirstMax(env: Env, gamma: real, v: ValueTable, s: State, n: nat)
    requires ValidEnv(env) && Covers(env, v) && s in env.states
    requires 0 < n <= |env.actionKeys|
    ensures var k := FirstBestIndex(env, gamma, v, s, n);
            forall j :: 0 <= j < n ==>
              QValue(env, gamma, v, s, env.actionKeys[j]) <= QValue(env, gamma, v, s, env.actionKeys[k])
    ensures var k := FirstBestIndex(env, gamma, v, s, n);
            forall j :: 0 <= j < k ==>
              QValue(env, gamma, v, s, env.actionKeys[j]) < QValue(env, gamma, v, s, env.actionKeys[k])
  {
    if n > 1 {
      FirstBestIndexIsFirstMax(env, gamma, v, s, n - 1);
    }
  }

  /** The greedy action of the solvers: the first action, in action-list
      order, of largest lookahead value (see `GreedyActionIsFirstMax`). */
  function GreedyAction(env: Env, gamma: real, v: ValueTable, s: State): (a: Action)
    requires ValidEnv(env) && Covers(env, v) && s in env.states
    ensures a in env.actionKeys
  {
    env.actionKeys[FirstBestIndex(env, gamma, v, s, |env.actionKeys|)]
  }

  /** The Bellman-optimal backup: the value of the greedy action. */
  function BestValue(env: Env, gamma: real, v: ValueTable, s: State): real
    requires ValidEnv(env) && Covers(env, v) && s in env.states
  {
    QValue(env, gamma, v, s, GreedyAction(env, gamma, v, s))
  }

  /** The greedy action attains the largest lookahead value, and every
      action listed before it does strictly worse. */
  lemma GreedyActionIsFirstMax(env: Env, gamma: real, v: ValueTable, s: State)
    requires ValidEnv(env) && Covers(env, v) && s in env.states
    ensures forall b :: b in env.actionKeys ==>
              QValue(env, gamma, v, s, b) <= QValue(env, gamma, v, s, GreedyAction(env, gamma, v, s))
    ensures forall i, j :: 0 <= j < i < |env.actionKeys| && env.actionKeys[i] == GreedyAction(env, gamma, v, s) ==>
              QValue(env, gamma, v, s, env.actionKeys[j]) < QValue(env, gamma, v, s, GreedyAction(env, gamma, v, s))
  {
    var k := FirstBestIndex(env, gamma, v, s, |env.actionKeys|);
    FirstBestIndexIsFirstMax(env, gamma, v, s, |env.actionKeys|);
    assert forall b :: b in env.actionKeys ==> exists j :: 0 <= j < |env.actionKeys| && env.actionKeys[j] == b;
    assert forall i :: 0 <= i < |env.actionKeys| && env.actionKeys[i] == env.actionKeys[k] ==> i == k;
  }

  /** The backup is the maximum of the lookahead values: no action beats
      it and some action attains it. */
  lemma BestValueIsMax(env: Env, gamma: real, v: ValueTable, s: State)
    requires ValidEnv(env) && Covers(env, v) && s in env.states
    ensures forall b :: b in env.actionKeys ==> QValue(env, gamma, v, s, b) <= BestValue(env, gamma, v, s)
    ensures exists b :: b in env.actionKeys && QValue(env, gamma, v, s, b) == BestValue(env, gamma, v, s)
  {
    GreedyActionIsFirstMax(env, gamma, v, s);
    assert GreedyAction(env, gamma, v, s) in env.actionKeys;
  }

  /** A policy of the policy-iteration solvers: every state has an entry,
      the goal's is the empty label and every other one is an action. */
  predicate PolicyShaped(env: Env, policy: Policy) {
    && policy.Keys == StateSet(env)
    && env.goalPos in policy && policy[env.goalPos] == ""
    && forall s :: s in env.states && s != env.goalPos ==> policy[s] in env.actionKeys
  }

  /** The greedy policy of a value table: the blank label at the goal and
      the greedy action elsewhere. */
  predicate GreedyFor(env: Env, gamma: real, v: ValueTable, policy: Policy)
    requires ValidEnv(env) && Covers(env, v)
  {
    forall s :: s in env.states && s != env.goalPos ==>
      s in policy && policy[s] == GreedyAction(env, gamma, v, s)
  }
}
