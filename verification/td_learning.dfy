/** The one-step temporal-difference learners: Q-learning, SARSA and
    Expected SARSA. Each episode starts from the start state and repeats
    "choose, step, update" until the environment reports `done`. The
    random numbers `choose_action_e_greedy` would draw are an explicit
    sequence of draws, one per choice; an episode that runs out of draws
    before it ends yields `None`. */
module TdLearning {
  import opened Common
  import opened Mdp
  import opened QTables

  /** One environment step as the learner saw it, with the next action the
      learner chose for its update target, when it chose one. */
  datatype Step = Step(
    state: State,
    action: Action,
    reward: real,
    next: State,
    done: bool,
    nextAction: Option<Action>)

  /** What an episode leaves behind: the table, the steps taken, the
      table each step left, the running reward total and the draws not
      consumed. */
  datatype Episode = Episode(q: QTable, trace: seq<Step>, tables: seq<QTable>, total: real, rest: seq<Draw>)

  /** `trace` is a walk through the environment from `s`: every step takes
      a listed action and records what `step` returned for it, each step
      starts where the previous one arrived, and only the last step may
      report `done`. */
  predicate Walk(env: Env, s: State, trace: seq<Step>) {
    && (|trace| > 0 ==> trace[0].state == s)
    && (forall i :: 0 <= i < |trace| ==>
          && trace[i].action in env.actionKeys
          && env.step(trace[i].state, trace[i].action) == Transition(trace[i].next, trace[i].reward, trace[i].done))
    && (forall i :: 0 <= i < |trace| - 1 ==> !trace[i].done && trace[i].next == trace[i + 1].state)
  }

  /** The walk ends with a step that reported `done`. */
  predicate Finished(trace: seq<Step>) {
    |trace| > 0 && trace[|trace| - 1].done
  }

  /** Each step records as its next action the action of the step after
      it. */
  predicate Chained(trace: seq<Step>) {
    forall i :: 0 <= i < |trace| - 1 ==> trace[i].nextAction == Some(trace[i + 1].action)
  }

  function RewardSum(trace: seq<Step>): real {
    if |trace| == 0 then 0.0 else trace[0].reward + RewardSum(trace[1..])
  }

  /** The value a TD update writes: `prior + alpha * (target - prior)`, a step
      of size `alpha` from `prior` toward `target`. */
  function Toward(prior: real, target: real, alpha: real): real {
    prior + alpha * (target - prior)
  }

  /** A one-step TD target: the reward plus the discounted value of what
      follows, `reward + gamma * next`. */
  function Bootstrap(reward: real, gamma: real, next: real): real {
    reward + gamma * next
  }

  /** `old_value = q_table[s][a]; q_table[s][a] = old_value + alpha *
      (target - old_value)`: the update every learner writes out. */
  function Blend(keys: seq<Action>, q: QTable, s: State, a: Action, target: real, alpha: real): (r: QTable)
    requires Complete(keys, q) && a in keys
    ensures r.Keys == q.Keys + {s} && Complete(keys, r)
    ensures Get(keys, r, s, a) == Toward(Get(keys, q, s, a), target, alpha)
    ensures forall t, b :: b in keys && (t, b) != (s, a) ==> Get(keys, r, t, b) == Get(keys, q, t, b)
  {
    var q1 := Touch(keys, q, s);
    SetEntry(keys, q1, s, a, Toward(q1[s][a], target, alpha))
  }

  /** The Q-learning update after taking `a` in `s` and observing `t`: the
      target bootstraps on the largest entry of the next state's row.
      `q_learning` reads the row of `s` before the row of the next state; both
      reads only create rows, so the order does not change the result. */
  function QLearningStep(keys: seq<Action>, q: QTable, s: State, a: Action, t: Transition, alpha: real, gamma: real): (r: QTable)
    requires ValidActions(keys) && Complete(keys, q) && a in keys
    ensures r.Keys == q.Keys + {s, t.next} && Complete(keys, r)
  {
    var q1 := Touch(keys, q, t.next);
    TouchKeepsReads(keys, q, t.next);
    Blend(keys, q1, s, a, Bootstrap(t.reward, gamma, RowMax(keys, ReadRow(keys, q, t.next))), alpha)
  }

  /** A Q-learning step rewrites only the entry of `(s, a)`, to
      `old + alpha * (r + gamma * max(Q[next]) - old)`, where the maximum is
      over the next state's row as read (all zero when it did not exist). */
  lemma QLearningStepUpdates(keys: seq<Action>, q: QTable, s: State, a: Action, t: Transition, alpha: real, gamma: real)
    requires ValidActions(keys) && Complete(keys, q) && a in keys
    ensures Get(keys, QLearningStep(keys, q, s, a, t, alpha, gamma), s, a) ==
              Toward(Get(keys, q, s, a), Bootstrap(t.reward, gamma, RowMax(keys, ReadRow(keys, q, t.next))), alpha)
    ensures forall u, b :: b in keys && (u, b) != (s, a) ==>
              Get(keys, QLearningStep(keys, q, s, a, t, alpha, gamma), u, b) == Get(keys, q, u, b)
  {
    TouchKeepsReads(keys, q, t.next);
  }

  /** The SARSA update: the target bootstraps on the entry of the action
      `next` chosen for the next state. */
  function SarsaStep(keys: seq<Action>, q: QTable, s: State, a: Action, t: Transition, next: Action, alpha: real, gamma: real): (r: QTable)
    requires ValidActions(keys) && Complete(keys, q) && a in keys && next in keys
    ensures r.Keys == q.Keys + {s, t.next} && Complete(keys, r)
  {
    var q1 := Touch(keys, q, t.next);
    TouchKeepsReads(keys, q, t.next);
    Blend(keys, q1, s, a, Bootstrap(t.reward, gamma, Get(keys, q, t.next, next)), alpha)
  }

  /** A SARSA step rewrites only the entry of `(s, a)`, to
      `old + alpha * (r + gamma * Q[next][next_action] - old)`. */
  lemma SarsaStepUpdates(keys: seq<Action>, q: QTable, s: State, a: Action, t: Transition, next: Action, alpha: real, gamma: real)
    requires ValidActions(keys) && Complete(keys, q) && a in keys && next in keys
    ensures Get(keys, SarsaStep(keys, q, s, a, t, next, alpha, gamma), s, a) ==
              Toward(Get(keys, q, s, a), Bootstrap(t.reward, gamma, Get(keys, q, t.next, next)), alpha)
    ensures forall u, b :: b in keys && (u, b) != (s, a) ==>
              Get(keys, SarsaStep(keys, q, s, a, t, next, alpha, gamma), u, b) == Get(keys, q, u, b)
  {
    TouchKeepsReads(keys, q, t.next);
  }

  /** The probability Expected SARSA gives action `a` when `best` is the
      greedy action: `1 - eps + eps/|A|` for the greedy action and
      `eps/|A|` for every other one. */
  function Weight(keys: seq<Action>, best: Action, eps: real, a: Action): real
    requires |keys| > 0
  {
    if a == best then 1.0 - eps + eps / (|keys| as real) else eps / (|keys| as real)
  }

  /** Sum of the weights of the first `n` actions. */
  function WeightSum(keys: seq<Action>, best: Action, eps: real, n: nat): real
    requires 0 < |keys| && n <= |keys|
  {
    if n == 0 then 0.0 else WeightSum(keys, best, eps, n - 1) + Weight(keys, best, eps, keys[n - 1])
  }

  /** `expected_q` after the loop has visited the first `n` actions, with
      `best` as the greedy action. */
  function WeightedSum(keys: seq<Action>, row: Row, best: Action, eps: real, n: nat): real
    requires RowComplete(keys, row) && 0 < |keys| && n <= |keys|
  {
    if n == 0 then 0.0
    else WeightedSum(keys, row, best, eps, n - 1) + Weight(keys, best, eps, keys[n - 1]) * row[keys[n - 1]]
  }

  /** `expected_q`: the next state's row weighted by the epsilon-greedy
      probabilities around `max(row, key=row.get)`. */
  function ExpectedValue(keys: seq<Action>, row: Row, eps: real): real
    requires RowComplete(keys, row) && 0 < |keys|
  {
    WeightedSum(keys, row, ArgMax(keys, row), eps, |keys|)
  }

  /** The weights of a prefix: `eps/|A|` per action, plus `1 - eps` once
      the greedy action has been passed. */
  lemma {:induction false} WeightSumOfPrefix(keys: seq<Action>, best: Action, eps: real, n: nat)
    requires ValidActions(keys) && n <= |keys|
    ensures WeightSum(keys, best, eps, n) ==
              (n as real) * (eps / (|keys| as real)) + (if best in keys[..n] then 1.0 - eps else 0.0)
  {
    if n > 0 {
      WeightSumOfPrefix(keys, best, eps, n - 1);
      assert keys[..n] == keys[..n - 1] + [keys[n - 1]];
      if keys[n - 1] == best {
        assert best !in keys[..n - 1];
      }
    }
  }

  /** The Expected SARSA weights form a probability distribution. */
  lemma WeightsSumToOne(keys: seq<Action>, best: Action, eps: real)
    requires ValidActions(keys) && best in keys
    ensures WeightSum(keys, best, eps, |keys|) == 1.0
  {
    WeightSumOfPrefix(keys, best, eps, |keys|);
    assert keys[..|keys|] == keys;
    var n := |keys| as real;
    assert n * (eps / n) == eps;
  }

  lemma QuotientNonNegative(x: real, n: real)
    requires 0.0 <= x && 0.0 < n
    ensures 0.0 <= x / n
  {
  }

  /** A weighted sum `ev` of total weight `ws` lies between `lo` and `hi`
      scaled by that total. */
  predicate Between(lo: real, hi: real, ws: real, ev: real) {
    lo * ws <= ev <= hi * ws
  }

  /** Adding a non-negative weight `w` on a value `x` within `[lo, hi]` to
      a weighted sum `ev` of total weight `ws` keeps the new sum `ev'`, of
      total weight `ws'`, within the scaled bounds. */
  lemma AccumulateBetween(lo: real, hi: real, ws: real, ev: real, w: real, x: real, ws': real, ev': real)
    requires Between(lo, hi, ws, ev)
    requires 0.0 <= w && lo <= x <= hi
    requires ws' == ws + w && ev' == ev + w * x
    ensures Between(lo, hi, ws', ev')
  {
    assert w * lo <= w * x <= w * hi;
  }

  lemma BetweenOne(lo: real, hi: real, ws: real, ev: real)
    requires ws == 1.0 && Between(lo, hi, ws, ev)
    ensures lo <= ev <= hi
  {
  }

  lemma BetweenZero(lo: real, hi: real)
    ensures Between(lo, hi, 0.0, 0.0)
  {
  }

  /** With non-negative weights the expectation over a prefix lies between
      the weight total scaled by a lower and by an upper bound of the row. */
  lemma {:induction false} WeightedSumBetween(keys: seq<Action>, row: Row, best: Action, eps: real, n: nat, lo: real, hi: real)
    requires RowComplete(keys, row) && ValidActions(keys) && n <= |keys|
    requires 0.0 <= eps <= 1.0
    requires forall a :: a in keys ==> lo <= row[a] <= hi
    ensures Between(lo, hi, WeightSum(keys, best, eps, n), WeightedSum(keys, row, best, eps, n))
  {
    if n == 0 {
      BetweenZero(lo, hi);
    } else {
      WeightedSumBetween(keys, row, best, eps, n - 1, lo, hi);
      var w := Weight(keys, best, eps, keys[n - 1]);
      QuotientNonNegative(eps, |keys| as real);
      AccumulateBetween(lo, hi, WeightSum(keys, best, eps, n - 1), WeightedSum(keys, row, best, eps, n - 1), w, row[keys[n - 1]],
        WeightSum(keys, best, eps, n), WeightedSum(keys, row, best, eps, n));
    }
  }

  /** For 0 <= eps <= 1 the expected next value lies between the row's
      smallest and largest entries. */
  lemma ExpectedValueWithinRow(keys: seq<Action>, row: Row, eps: real)
    requires RowComplete(keys, row) && ValidActions(keys)
    requires 0.0 <= eps <= 1.0
    ensures RowMin(keys, row, |keys|) <= ExpectedValue(keys, row, eps) <= RowMax(keys, row)
  {
    var lo := RowMin(keys, row, |keys|);
    var hi := RowMax(keys, row);
    var best := ArgMax(keys, row);
    RowMaxIsMax(keys, row);
    assert forall a :: a in keys ==> exists j :: 0 <= j < |keys| && keys[j] == a;
    WeightedSumBetween(keys, row, best, eps, |keys|, lo, hi);
    WeightsSumToOne(keys, best, eps);
    BetweenOne(lo, hi, WeightSum(keys, best, eps, |keys|), ExpectedValue(keys, row, eps));
  }

  /** With eps = 0 only the greedy action has weight, so a prefix sums to
      the greedy action's value once it has passed it. */
  lemma {:induction false} GreedyWeightedSum(keys: seq<Action>, row: Row, best: Action, n: nat)
    requires RowComplete(keys, row) && ValidActions(keys) && best in keys && n <= |keys|
    ensures WeightedSum(keys, row, best, 0.0, n) == if best in keys[..n] then row[best] else 0.0
  {
    if n > 0 {
      GreedyWeightedSum(keys, row, best, n - 1);
      assert keys[..n] == keys[..n - 1] + [keys[n - 1]];
      if keys[n - 1] == best {
        assert best !in keys[..n - 1];
      }
    }
  }

  /** With eps = 0 the expectation collapses to the row maximum, so
      Expected SARSA's target becomes the Q-learning target. */
  lemma GreedyExpectationIsMax(keys: seq<Action>, row: Row)
    requires RowComplete(keys, row) && ValidActions(keys)
    ensures ExpectedValue(keys, row, 0.0) == RowMax(keys, row)
  {
    GreedyWeightedSum(keys, row, ArgMax(keys, row), |keys|);
    assert keys[..|keys|] == keys;
  }

  /** The Expected SARSA update: the target bootstraps on the
      epsilon-greedy expectation of the next state's row. */
  function ExpectedSarsaStep(keys: seq<Action>, q: QTable, s: State, a: Action, t: Transition, alpha: real, gamma: real, eps: real): (r: QTable)
    requires ValidActions(keys) && Complete(keys, q) && a in keys
    ensures r.Keys == q.Keys + {s, t.next} && Complete(keys, r)
  {
    var q1 := Touch(keys, q, t.next);
    TouchKeepsReads(keys, q, t.next);
    Blend(keys, q1, s, a, Bootstrap(t.reward, gamma, ExpectedValue(keys, ReadRow(keys, q, t.next), eps)), alpha)
  }

  /** An Expected SARSA step rewrites only the entry of `(s, a)`, to
      `old + alpha * (r + gamma * E - old)`, where `E` is the expectation of
      the next state's row under the epsilon-greedy weights. */
  lemma ExpectedSarsaStepUpdates(keys: seq<Action>, q: QTable, s: State, a: Action, t: Transition, alpha: real, gamma: real, eps: real)
    requires ValidActions(keys) && Complete(keys, q) && a in keys
    ensures Get(keys, ExpectedSarsaStep(keys, q, s, a, t, alpha, gamma, eps), s, a) ==
              Toward(Get(keys, q, s, a), Bootstrap(t.reward, gamma, ExpectedValue(keys, ReadRow(keys, q, t.next), eps)), alpha)
    ensures forall u, b :: b in keys && (u, b) != (s, a) ==>
              Get(keys, ExpectedSarsaStep(keys, q, s, a, t, alpha, gamma, eps), u, b) == Get(keys, q, u, b)
  {
    TouchKeepsReads(keys, q, t.next);
  }


  /** `e` is what an episode from `s` leaves when the reward total stood at
      `total` on entry: a complete table, a finished walk from `s`, and the
      total grown by exactly the rewards of that walk. */
  predicate EpisodeFrom(env: Env, s: State, total: real, e: Episode) {
    && Complete(env.actionKeys, e.q)
    && Walk(env, s, e.trace) && Finished(e.trace)
    && e.total == total + RewardSum(e.trace)
  }

  /** Which one-step learner an episode runs. */
  datatype Rule = QLearning | ExpectedSarsa

  /** One iteration of the episode loop: the step taken and the table
      after it. */
  datatype Move = Move(st: Step, q: QTable)

  /** The step matches the environment and takes a listed action. */
  predicate Faithful(env: Env, st: Step) {
    && st.action in env.actionKeys
    && env.step(st.state, st.action) == Transition(st.next, st.reward, st.done)
  }

  /** The table in force before step `i` of an episode that began with
      `q` and whose step `j` left `tables[j]`. */
  function Before(q: QTable, tables: seq<QTable>, i: nat): QTable
    requires i <= |tables|
  {
    if i == 0 then q else tables[i - 1]
  }

  /** The state the loop is in before step `i` of a walk begun at `s`. */
  function At(s: State, trace: seq<Step>, i: nat): State
    requires i <= |trace|
  {
    if i == 0 then s else trace[i - 1].next
  }

  /** The action in hand before step `i`: `h` at the start, and afterwards
      the next action the step before chose, if it chose one. */
  function Hand(h: Option<Action>, trace: seq<Step>, i: nat): Option<Action>
    requires i <= |trace|
  {
    if i == 0 then h else trace[i - 1].nextAction
  }

  /** One pass of a loop body, as a function of the table in force, the
      state, the action in hand and the draw: the step it takes and the
      table it leaves, or `None` where the body cannot run. */
  type Body = (QTable, State, Option<Action>, Draw) -> Option<Move>

  /** `e` is what a loop running `body` leaves when it starts at `s` with
      the table `q`, the action in hand `h` and the draws `draws`: its step
      `i` is the body run with draw `i` on the table, the state and the
      action in hand the steps before it left, and leaves `e.tables[i]`; the
      episode returns the table the last step left and the draws after
      those its steps used. */
  predicate Replays(body: Body, q: QTable, s: State, h: Option<Action>, draws: seq<Draw>, e: Episode) {
    && |e.tables| == |e.trace| <= |draws|
    && (forall i {:trigger draws[i]} :: 0 <= i < |e.trace| ==>
          body(Before(q, e.tables, i), At(s, e.trace, i), Hand(h, e.trace, i), draws[i]) == Some(Move(e.trace[i], e.tables[i])))
    && e.q == Before(q, e.tables, |e.tables|)
    && e.rest == draws[|e.trace|..]
  }

  /** The episode stops at its first `done`, and its reward total grew
      from `total` by exactly the rewards of its steps. */
  predicate Ends(total: real, e: Episode) {
    && Finished(e.trace)
    && (forall i :: 0 <= i < |e.trace| - 1 ==> !e.trace[i].done)
    && e.total == total + RewardSum(e.trace)
  }

  /** The `while not done` loop each one-step learner writes out, here
      once for any body: run the body, add the reward, and stop on `done`,
      or go on from the state reached with the table and the action in
      hand the pass left. */
  function Episodes(body: Body, q: QTable, s: State, h: Option<Action>, total: real, draws: seq<Draw>): (r: Option<Episode>)
    ensures r.Some? ==> Replays(body, q, s, h, draws, r.value) && Ends(total, r.value)
    decreases |draws|
  {
    if |draws| == 0 then None
    else
      match body(q, s, h, draws[0])
      case None => None
      case Some(m) =>
        if m.st.done then
          var e := Episode(m.q, [m.st], [m.q], total + m.st.reward, draws[1..]);
          assert RewardSum(e.trace) == m.st.reward + RewardSum([]);
          Some(e)
        else
          match Episodes(body, m.q, m.st.next, m.st.nextAction, total + m.st.reward, draws[1..])
          case None => None
          case Some(e) =>
            var r := e.(trace := [m.st] + e.trace, tables := [m.q] + e.tables);
            ReplaysCons(body, q, s, h, draws, m, e, r);
            EndsCons(total, m.st, e, r);
            Some(r)
  }

  /** A pass followed by an episode that replays from what that pass left
      replays from the start. */
  lemma ReplaysCons(body: Body, q: QTable, s: State, h: Option<Action>, draws: seq<Draw>, m: Move, e: Episode, r: Episode)
    requires |draws| > 0 && body(q, s, h, draws[0]) == Some(m)
    requires Replays(body, m.q, m.st.next, m.st.nextAction, draws[1..], e)
    requires r.trace == [m.st] + e.trace && r.tables == [m.q] + e.tables && r.q == e.q && r.rest == e.rest
    ensures Replays(body, q, s, h, draws, r)
  {
    forall i | 0 <= i < |r.trace|
      ensures body(Before(q, r.tables, i), At(s, r.trace, i), Hand(h, r.trace, i), draws[i]) == Some(Move(r.trace[i], r.tables[i]))
    {
      ReplaysAt(body, q, s, h, draws, m, e, r, i);
    }
    BeforeCons(q, m.q, e.tables, |e.tables|);
    assert draws[|r.trace|..] == draws[1..][|e.trace|..];
  }

  /** Prepending a table shifts the tables in force by one step. */
  lemma BeforeCons(q: QTable, t: QTable, tables: seq<QTable>, i: nat)
    requires i <= |tables|
    ensures Before(q, [t] + tables, i + 1) == Before(t, tables, i)
  {
    if i > 0 {
      assert ([t] + tables)[i] == tables[i - 1];
    }
  }

  /** Step `0` of the longer episode is the pass, and step `i > 0` is
      step `i - 1` of the shorter. */
  lemma ReplaysAt(body: Body, q: QTable, s: State, h: Option<Action>, draws: seq<Draw>, m: Move, e: Episode, r: Episode, i: nat)
    requires |draws| > 0 && body(q, s, h, draws[0]) == Some(m)
    requires Replays(body, m.q, m.st.next, m.st.nextAction, draws[1..], e)
    requires r.trace == [m.st] + e.trace && r.tables == [m.q] + e.tables && i < |r.trace|
    ensures body(Before(q, r.tables, i), At(s, r.trace, i), Hand(h, r.trace, i), draws[i]) == Some(Move(r.trace[i], r.tables[i]))
  {
    if i == 0 {
      assert r.trace[0] == m.st && r.tables[0] == m.q && m == Move(m.st, m.q);
    } else {
      assert r.trace[i] == e.trace[i - 1] && r.tables[i] == e.tables[i - 1] && draws[i] == draws[1..][i - 1];
      if i == 1 {
        assert Before(q, r.tables, i) == m.q && At(s, r.trace, i) == m.st.next && Hand(h, r.trace, i) == m.st.nextAction;
      } else {
        assert r.trace[i - 1] == e.trace[i - 2] && Before(q, r.tables, i) == e.tables[i - 2];
      }
    }
  }

  /** A step that goes on, in front of an episode that ends, gives an
      episode that ends. */
  lemma EndsCons(total: real, st: Step, e: Episode, r: Episode)
    requires !st.done && Ends(total + st.reward, e)
    requires r.trace == [st] + e.trace && r.total == e.total
    ensures Ends(total, r)
  {
    assert r.trace[1..] == e.trace;
    assert r.trace[|r.trace| - 1] == e.trace[|e.trace| - 1];
    forall i | 0 <= i < |r.trace| - 1
      ensures !r.trace[i].done
    {
      if i > 0 {
        assert r.trace[i] == e.trace[i - 1];
      }
    }
  }

  /** The rest of an episode after its first step. */
  function Tail(e: Episode): (r: Episode)
    requires |e.trace| > 0 && |e.tables| > 0
    ensures r.trace == e.trace[1..] && r.tables == e.tables[1..] && r.q == e.q && r.total == e.total && r.rest == e.rest
  {
    e.(trace := e.trace[1..], tables := e.tables[1..])
  }

  /** An episode that replays is its first pass followed by an episode
      that replays from what that pass left. */
  lemma ReplaysTail(body: Body, q: QTable, s: State, h: Option<Action>, draws: seq<Draw>, e: Episode)
    requires Replays(body, q, s, h, draws, e) && |e.trace| > 0
    ensures |draws| > 0 && body(q, s, h, draws[0]) == Some(Move(e.trace[0], e.tables[0]))
    ensures Replays(body, e.tables[0], e.trace[0].next, e.trace[0].nextAction, draws[1..], Tail(e))
  {
    var t := Tail(e);
    forall i | 0 <= i < |t.trace|
      ensures body(Before(e.tables[0], t.tables, i), At(e.trace[0].next, t.trace, i), Hand(e.trace[0].nextAction, t.trace, i), draws[1..][i])
                == Some(Move(t.trace[i], t.tables[i]))
    {
      ReplaysTailAt(body, q, s, h, draws, e, i);
    }
    TailRest(q, draws, e);
  }

  /** The rest of an episode returns the same table and leaves the same
      draws. */
  lemma TailRest(q: QTable, draws: seq<Draw>, e: Episode)
    requires 0 < |e.tables| == |e.trace| <= |draws|
    requires e.q == Before(q, e.tables, |e.tables|) && e.rest == draws[|e.trace|..]
    ensures e.q == Before(e.tables[0], e.tables[1..], |e.tables| - 1)
    ensures e.rest == draws[1..][|e.trace| - 1..]
  {
    assert [e.tables[0]] + e.tables[1..] == e.tables;
    BeforeCons(q, e.tables[0], e.tables[1..], |e.tables| - 1);
  }

  /** Step `i` of the rest of an episode is step `i + 1` of the episode. */
  lemma ReplaysTailAt(body: Body, q: QTable, s: State, h: Option<Action>, draws: seq<Draw>, e: Episode, i: nat)
    requires Replays(body, q, s, h, draws, e) && i + 1 < |e.trace|
    ensures body(Before(e.tables[0], e.tables[1..], i), At(e.trace[0].next, e.trace[1..], i), Hand(e.trace[0].nextAction, e.trace[1..], i),
                 draws[1..][i])
              == Some(Move(e.trace[1..][i], e.tables[1..][i]))
  {
    assert body(Before(q, e.tables, i + 1), At(s, e.trace, i + 1), Hand(h, e.trace, i + 1), draws[i + 1])
             == Some(Move(e.trace[i + 1], e.tables[i + 1]));
    if i == 0 {
      assert Before(e.tables[0], e.tables[1..], i) == e.tables[0];
    } else {
      assert e.trace[1..][i - 1] == e.trace[i];
      assert Before(e.tables[0], e.tables[1..], i) == e.tables[1..][i - 1] == e.tables[i];
    }
    assert e.trace[1..][i] == e.trace[i + 1] && e.tables[1..][i] == e.tables[i + 1] && draws[1..][i] == draws[i + 1];
  }

  /** An episode that ends and whose first step goes on leaves, after that
      step, an episode that ends. */
  lemma EndsTail(total: real, e: Episode)
    requires Ends(total, e) && !e.trace[0].done && |e.tables| > 0
    ensures |e.trace| > 1 && Ends(total + e.trace[0].reward, Tail(e))
  {
    assert RewardSum(e.trace) == e.trace[0].reward + RewardSum(e.trace[1..]);
    forall i | 0 <= i < |e.trace| - 2
      ensures !e.trace[1..][i].done
    {
      assert e.trace[1..][i] == e.trace[i + 1];
    }
  }

  /** Any episode that the body replays from these draws and that ends is
      the one the loop returns; so the loop returns `None` exactly when no
      such episode exists, that is, when the draws run out before `done`
      or the body cannot run. */
  lemma {:induction false} EpisodesFinds(body: Body, q: QTable, s: State, h: Option<Action>, total: real, draws: seq<Draw>, e: Episode)
    requires Replays(body, q, s, h, draws, e) && Ends(total, e)
    ensures Episodes(body, q, s, h, total, draws) == Some(e)
    decreases |draws|, 1
  {
    ReplaysTail(body, q, s, h, draws, e);
    var m := Move(e.trace[0], e.tables[0]);
    if m.st.done {
      EpisodesFindsLast(body, q, s, h, total, draws, e);
    } else {
      EndsTail(total, e);
      var t := Tail(e);
      assert [m.st] + t.trace == e.trace && [m.q] + t.tables == e.tables;
      EpisodesFindsStep(body, q, s, h, total, draws, m, t, e);
    }
  }

  /** An episode whose first step ends it is that one step. */
  lemma EpisodesFindsLast(body: Body, q: QTable, s: State, h: Option<Action>, total: real, draws: seq<Draw>, e: Episode)
    requires Replays(body, q, s, h, draws, e) && Ends(total, e) && e.trace[0].done
    ensures Episodes(body, q, s, h, total, draws) == Some(e)
  {
    ReplaysTail(body, q, s, h, draws, e);
    var m := Move(e.trace[0], e.tables[0]);
    assert |e.trace| == 1;
    assert e.trace == [m.st] && e.tables == [m.q] && e.q == m.q;
    assert RewardSum(e.trace) == m.st.reward + RewardSum([]);
    assert e == Episode(m.q, [m.st], [m.q], total + m.st.reward, draws[1..]);
    EpisodesLast(body, q, s, h, total, draws, m);
  }

  /** The pass `m`, in front of an episode that replays and ends from what
      `m` left, is the episode found from the start. */
  lemma {:induction false} EpisodesFindsStep(body: Body, q: QTable, s: State, h: Option<Action>, total: real, draws: seq<Draw>,
                                             m: Move, t: Episode, e: Episode)
    requires |draws| > 0 && body(q, s, h, draws[0]) == Some(m) && !m.st.done
    requires Replays(body, m.q, m.st.next, m.st.nextAction, draws[1..], t) && Ends(total + m.st.reward, t)
    requires e.trace == [m.st] + t.trace && e.tables == [m.q] + t.tables && e.q == t.q && e.total == t.total && e.rest == t.rest
    ensures Episodes(body, q, s, h, total, draws) == Some(e)
    decreases |draws|, 0
  {
    EpisodesFinds(body, m.q, m.st.next, m.st.nextAction, total + m.st.reward, draws[1..], t);
    assert e == t.(trace := [m.st] + t.trace, tables := [m.q] + t.tables);
    EpisodesCons(body, q, s, h, total, draws, m, t);
  }

  /** A pass that reports `done` ends the loop with one step. */
  lemma EpisodesLast(body: Body, q: QTable, s: State, h: Option<Action>, total: real, draws: seq<Draw>, m: Move)
    requires |draws| > 0 && body(q, s, h, draws[0]) == Some(m) && m.st.done
    ensures Episodes(body, q, s, h, total, draws) == Some(Episode(m.q, [m.st], [m.q], total + m.st.reward, draws[1..]))
  {
  }

  /** A pass that goes on puts its step and its table in front of what
      the loop returns from the state reached. */
  lemma EpisodesCons(body: Body, q: QTable, s: State, h: Option<Action>, total: real, draws: seq<Draw>, m: Move, t: Episode)
    requires |draws| > 0 && body(q, s, h, draws[0]) == Some(m) && !m.st.done
    requires Episodes(body, m.q, m.st.next, m.st.nextAction, total + m.st.reward, draws[1..]) == Some(t)
    ensures Episodes(body, q, s, h, total, draws) == Some(t.(trace := [m.st] + t.trace, tables := [m.q] + t.tables))
  {
  }

  /** A replayed episode whose every step is faithful, starts where the
      step before it arrived and leaves a complete table is an episode
      from `s`. */
  lemma StepsWalk(env: Env, q: QTable, s: State, h: Option<Action>, total: real, draws: seq<Draw>, e: Episode)
    requires |e.tables| == |e.trace| && e.q == Before(q, e.tables, |e.tables|) && Ends(total, e)
    requires forall i :: 0 <= i < |e.trace| ==> Faithful(env, e.trace[i]) && e.trace[i].state == At(s, e.trace, i)
    requires forall i :: 0 <= i < |e.tables| ==> Complete(env.actionKeys, e.tables[i])
    ensures EpisodeFrom(env, s, total, e)
  {
    forall i | 0 <= i < |e.trace| - 1
      ensures e.trace[i].next == e.trace[i + 1].state
    {
      assert e.trace[i + 1].state == At(s, e.trace, i + 1);
    }
    assert e.trace[0].state == At(s, e.trace, 0);
  }

  /** A walk from `s` that stops at its first `done`, with the total grown
      by its rewards, ends. */
  lemma WalkEnds(env: Env, s: State, total: real, e: Episode)
    requires EpisodeFrom(env, s, total, e)
    ensures Ends(total, e)
  {
  }

  /** One pass of the Q-learning or Expected SARSA loop body at `s`:
      choose with the current table, step, update. */
  function OffPolicyMove(rule: Rule, env: Env, alpha: real, gamma: real, eps: real, q: QTable, s: State, d: Draw): (m: Move)
    requires ValidActions(env.actionKeys) && Complete(env.actionKeys, q)
    ensures Complete(env.actionKeys, m.q)
    ensures m.st.state == s && Faithful(env, m.st) && m.st.nextAction == None
  {
    var keys := env.actionKeys;
    var c := EpsilonGreedy(keys, q, s, eps, d);
    var t := env.step(s, c.action);
    var q' := match rule
      case QLearning => QLearningStep(keys, c.q, s, c.action, t, alpha, gamma)
      case ExpectedSarsa => ExpectedSarsaStep(keys, c.q, s, c.action, t, alpha, gamma, eps);
    Move(Step(s, c.action, t.reward, t.next, t.done, None), q')
  }

  /** The Q-learning or Expected SARSA loop body. It chooses its own
      action, so it never reads the action in hand. */
  function OffPolicyBody(rule: Rule, env: Env, alpha: real, gamma: real, eps: real): Body {
    (t: QTable, s: State, h: Option<Action>, d: Draw) =>
      if ValidActions(env.actionKeys) && Complete(env.actionKeys, t) then Some(OffPolicyMove(rule, env, alpha, gamma, eps, t, s, d))
      else None
  }

  /** On a complete table the off-policy body is `OffPolicyMove`. */
  lemma OffPolicyBodyIs(rule: Rule, env: Env, alpha: real, gamma: real, eps: real, t: QTable, s: State, h: Option<Action>, d: Draw)
    requires ValidActions(env.actionKeys) && Complete(env.actionKeys, t)
    ensures OffPolicyBody(rule, env, alpha, gamma, eps)(t, s, h, d) == Some(OffPolicyMove(rule, env, alpha, gamma, eps, t, s, d))
  {
  }

  /** Step `i` of an episode the off-policy body replays is the pass
      `OffPolicyMove` on the table and at the state in force before it. */
  lemma OffPolicyStepAt(rule: Rule, env: Env, alpha: real, gamma: real, eps: real, q: QTable, s: State, h: Option<Action>,
                        draws: seq<Draw>, e: Episode, i: nat)
    requires Replays(OffPolicyBody(rule, env, alpha, gamma, eps), q, s, h, draws, e) && i < |e.trace|
    ensures ValidActions(env.actionKeys) && Complete(env.actionKeys, Before(q, e.tables, i))
    ensures Move(e.trace[i], e.tables[i]) == OffPolicyMove(rule, env, alpha, gamma, eps, Before(q, e.tables, i), At(s, e.trace, i), draws[i])
  {
    assert OffPolicyBody(rule, env, alpha, gamma, eps)(Before(q, e.tables, i), At(s, e.trace, i), Hand(h, e.trace, i), draws[i])
             == Some(Move(e.trace[i], e.tables[i]));
  }

  /** An episode the off-policy body replays from `s`, and that ends, is
      an episode from `s` whose first step is the pass on the first draw. */
  lemma OffPolicyWalk(rule: Rule, env: Env, alpha: real, gamma: real, eps: real, q: QTable, s: State, h: Option<Action>,
                      total: real, draws: seq<Draw>, e: Episode)
    requires Replays(OffPolicyBody(rule, env, alpha, gamma, eps), q, s, h, draws, e) && Ends(total, e)
    ensures EpisodeFrom(env, s, total, e)
    ensures ValidActions(env.actionKeys) && Complete(env.actionKeys, q)
    ensures e.trace[0] == OffPolicyMove(rule, env, alpha, gamma, eps, q, s, draws[0]).st
  {
    forall i | 0 <= i < |e.trace|
      ensures Faithful(env, e.trace[i]) && e.trace[i].state == At(s, e.trace, i) && Complete(env.actionKeys, e.tables[i])
    {
      OffPolicyStepAt(rule, env, alpha, gamma, eps, q, s, h, draws, e, i);
    }
    OffPolicyStepAt(rule, env, alpha, gamma, eps, q, s, h, draws, e, 0);
    StepsWalk(env, q, s, h, total, draws, e);
  }

  /** A Q-learning or Expected SARSA episode from `s`: repeat the loop
      body until a step reports `done`. */
  function OffPolicyEpisode(rule: Rule, env: Env, alpha: real, gamma: real, eps: real, q: QTable, s: State, total: real, draws: seq<Draw>): (r: Option<Episode>)
    requires ValidActions(env.actionKeys) && Complete(env.actionKeys, q)
    ensures r.Some? ==> EpisodeFrom(env, s, total, r.value) && |r.value.rest| < |draws|
    ensures r.Some? ==> |draws| > 0 && r.value.trace[0] == OffPolicyMove(rule, env, alpha, gamma, eps, q, s, draws[0]).st
    ensures r.Some? ==> Replays(OffPolicyBody(rule, env, alpha, gamma, eps), q, s, None, draws, r.value)
    ensures forall e :: EpisodeFrom(env, s, total, e) && Replays(OffPolicyBody(rule, env, alpha, gamma, eps), q, s, None, draws, e) ==>
              r == Some(e)
  {
    var r := Episodes(OffPolicyBody(rule, env, alpha, gamma, eps), q, s, None, total, draws);
    OffPolicyEpisodeFinds(rule, env, alpha, gamma, eps, q, s, total, draws);
    if r.Some? then
      OffPolicyWalk(rule, env, alpha, gamma, eps, q, s, None, total, draws, r.value);
      r
    else r
  }

  /** Every episode from `s` that the off-policy body replays with these
      draws is the one the loop returns. */
  lemma OffPolicyEpisodeFinds(rule: Rule, env: Env, alpha: real, gamma: real, eps: real, q: QTable, s: State, total: real,
                              draws: seq<Draw>)
    ensures forall e :: EpisodeFrom(env, s, total, e) && Replays(OffPolicyBody(rule, env, alpha, gamma, eps), q, s, None, draws, e) ==>
              Episodes(OffPolicyBody(rule, env, alpha, gamma, eps), q, s, None, total, draws) == Some(e)
  {
    forall e | EpisodeFrom(env, s, total, e) && Replays(OffPolicyBody(rule, env, alpha, gamma, eps), q, s, None, draws, e)
      ensures Episodes(OffPolicyBody(rule, env, alpha, gamma, eps), q, s, None, total, draws) == Some(e)
    {
      WalkEnds(env, s, total, e);
      EpisodesFinds(OffPolicyBody(rule, env, alpha, gamma, eps), q, s, None, total, draws, e);
    }
  }


  /** The Q-learning and Expected SARSA loop body executes the
      epsilon-greedy choice at `s` and moves only that choice's entry, a
      step `alpha` toward the reward plus `gamma` times the largest entry of
      the next state's row (Q-learning) or that row's expected value under
      the epsilon-greedy policy (Expected SARSA); every other entry reads as
      before. */
  lemma OffPolicyMoveUpdates(rule: Rule, env: Env, alpha: real, gamma: real, eps: real, q: QTable, s: State, d: Draw)
    requires ValidActions(env.actionKeys) && Complete(env.actionKeys, q)
    ensures var m := OffPolicyMove(rule, env, alpha, gamma, eps, q, s, d);
            var keys := env.actionKeys;
            var row := ReadRow(keys, q, m.st.next);
            && m.st.action == EpsilonGreedy(keys, q, s, eps, d).action
            && Get(keys, m.q, s, m.st.action) ==
                 Toward(Get(keys, q, s, m.st.action),
                        Bootstrap(m.st.reward, gamma, if rule.QLearning? then RowMax(keys, row) else ExpectedValue(keys, row, eps)),
                        alpha)
            && forall u, b :: b in keys && (u, b) != (s, m.st.action) ==> Get(keys, m.q, u, b) == Get(keys, q, u, b)
  {
    var keys := env.actionKeys;
    var c := EpsilonGreedy(keys, q, s, eps, d);
    var t := env.step(s, c.action);
    TouchKeepsRows(keys, q, s, t.next);
    assert ReadRow(keys, c.q, t.next) == ReadRow(keys, q, t.next);
    match rule
    case QLearning => QLearningStepUpdates(keys, c.q, s, c.action, t, alpha, gamma);
    case ExpectedSarsa => ExpectedSarsaStepUpdates(keys, c.q, s, c.action, t, alpha, gamma, eps);
  }

  /** One pass of the SARSA loop body at `s` with the action `a` already
      chosen: step, choose the next action at the state reached, update
      with it. */
  function SarsaMove(env: Env, alpha: real, gamma: real, eps: real, q: QTable, s: State, a: Action, d: Draw): (m: Move)
    requires ValidActions(env.actionKeys) && Complete(env.actionKeys, q) && a in env.actionKeys
    ensures Complete(env.actionKeys, m.q)
    ensures m.st.state == s && m.st.action == a && Faithful(env, m.st)
    ensures m.st.nextAction.Some? && m.st.nextAction.value in env.actionKeys
  {
    var keys := env.actionKeys;
    var t := env.step(s, a);
    var c := EpsilonGreedy(keys, q, t.next, eps, d);
    Move(Step(s, a, t.reward, t.next, t.done, Some(c.action)), SarsaStep(keys, c.q, s, a, t, c.action, alpha, gamma))
  }

  /** The SARSA loop body: it runs only with a listed action in hand. */
  function SarsaBody(env: Env, alpha: real, gamma: real, eps: real): Body {
    (t: QTable, s: State, h: Option<Action>, d: Draw) =>
      if ValidActions(env.actionKeys) && Complete(env.actionKeys, t) && h.Some? && h.value in env.actionKeys then
        Some(SarsaMove(env, alpha, gamma, eps, t, s, h.value, d))
      else None
  }

  /** On a complete table and a listed action the SARSA body is
      `SarsaMove`. */
  lemma SarsaBodyIs(env: Env, alpha: real, gamma: real, eps: real, t: QTable, s: State, a: Action, d: Draw)
    requires ValidActions(env.actionKeys) && Complete(env.actionKeys, t) && a in env.actionKeys
    ensures SarsaBody(env, alpha, gamma, eps)(t, s, Some(a), d) == Some(SarsaMove(env, alpha, gamma, eps, t, s, a, d))
  {
  }

  /** Step `i` of an episode the SARSA body replays is the pass
      `SarsaMove` on the table and at the state in force before it, with
      the action in hand. */
  lemma SarsaStepAt(env: Env, alpha: real, gamma: real, eps: real, q: QTable, s: State, h: Option<Action>,
                    draws: seq<Draw>, e: Episode, i: nat)
    requires Replays(SarsaBody(env, alpha, gamma, eps), q, s, h, draws, e) && i < |e.trace|
    ensures ValidActions(env.actionKeys) && Complete(env.actionKeys, Before(q, e.tables, i))
    ensures Hand(h, e.trace, i) == Some(e.trace[i].action) && e.trace[i].action in env.actionKeys
    ensures Move(e.trace[i], e.tables[i]) == SarsaMove(env, alpha, gamma, eps, Before(q, e.tables, i), At(s, e.trace, i), e.trace[i].action, draws[i])
  {
    assert SarsaBody(env, alpha, gamma, eps)(Before(q, e.tables, i), At(s, e.trace, i), Hand(h, e.trace, i), draws[i])
             == Some(Move(e.trace[i], e.tables[i]));
  }

  /** An episode the SARSA body replays from `s` with `a` in hand, and
      that ends, is an episode from `s` that starts with `a` and carries
      each chosen action into the next step. */
  lemma SarsaWalk(env: Env, alpha: real, gamma: real, eps: real, q: QTable, s: State, a: Action,
                  total: real, draws: seq<Draw>, e: Episode)
    requires Replays(SarsaBody(env, alpha, gamma, eps), q, s, Some(a), draws, e) && Ends(total, e)
    ensures EpisodeFrom(env, s, total, e)
    ensures e.trace[0].action == a && Chained(e.trace)
    ensures ValidActions(env.actionKeys) && Complete(env.actionKeys, q) && a in env.actionKeys
    ensures e.trace[0] == SarsaMove(env, alpha, gamma, eps, q, s, a, draws[0]).st
  {
    forall i | 0 <= i < |e.trace|
      ensures Faithful(env, e.trace[i]) && e.trace[i].state == At(s, e.trace, i) && Complete(env.actionKeys, e.tables[i])
      ensures Hand(Some(a), e.trace, i) == Some(e.trace[i].action)
    {
      SarsaStepAt(env, alpha, gamma, eps, q, s, Some(a), draws, e, i);
    }
    forall i | 0 <= i < |e.trace| - 1
      ensures e.trace[i].nextAction == Some(e.trace[i + 1].action)
    {
      assert Hand(Some(a), e.trace, i + 1) == Some(e.trace[i + 1].action);
    }
    SarsaStepAt(env, alpha, gamma, eps, q, s, Some(a), draws, e, 0);
    StepsWalk(env, q, s, Some(a), total, draws, e);
  }

  /** A SARSA episode from `s` whose first action `a` is already chosen;
      the action chosen for the update target is carried into the next
      step. */
  function SarsaEpisode(env: Env, alpha: real, gamma: real, eps: real, q: QTable, s: State, a: Action, total: real, draws: seq<Draw>): (r: Option<Episode>)
    requires ValidActions(env.actionKeys) && Complete(env.actionKeys, q) && a in env.actionKeys
    ensures r.Some? ==> EpisodeFrom(env, s, total, r.value) && |r.value.rest| < |draws|
    ensures r.Some? ==> r.value.trace[0].action == a && Chained(r.value.trace)
    ensures r.Some? ==> |draws| > 0 && r.value.trace[0] == SarsaMove(env, alpha, gamma, eps, q, s, a, draws[0]).st
    ensures r.Some? ==> Replays(SarsaBody(env, alpha, gamma, eps), q, s, Some(a), draws, r.value)
    ensures forall e :: EpisodeFrom(env, s, total, e) && Replays(SarsaBody(env, alpha, gamma, eps), q, s, Some(a), draws, e) ==>
              r == Some(e)
  {
    var r := Episodes(SarsaBody(env, alpha, gamma, eps), q, s, Some(a), total, draws);
    SarsaEpisodeFinds(env, alpha, gamma, eps, q, s, a, total, draws);
    if r.Some? then
      SarsaWalk(env, alpha, gamma, eps, q, s, a, total, draws, r.value);
      r
    else r
  }

  /** Every episode from `s` that the SARSA body replays with `a` in hand
      and these draws is the one the loop returns. */
  lemma SarsaEpisodeFinds(env: Env, alpha: real, gamma: real, eps: real, q: QTable, s: State, a: Action, total: real,
                          draws: seq<Draw>)
    ensures forall e :: EpisodeFrom(env, s, total, e) && Replays(SarsaBody(env, alpha, gamma, eps), q, s, Some(a), draws, e) ==>
              Episodes(SarsaBody(env, alpha, gamma, eps), q, s, Some(a), total, draws) == Some(e)
  {
    forall e | EpisodeFrom(env, s, total, e) && Replays(SarsaBody(env, alpha, gamma, eps), q, s, Some(a), draws, e)
      ensures Episodes(SarsaBody(env, alpha, gamma, eps), q, s, Some(a), total, draws) == Some(e)
    {
      WalkEnds(env, s, total, e);
      EpisodesFinds(SarsaBody(env, alpha, gamma, eps), q, s, Some(a), total, draws, e);
    }
  }

  /** The first SARSA update bootstraps on the epsilon-greedy choice at
      the state reached, that choice is recorded as the step's next action,
      and it is the action the episode executes next. */
  lemma SarsaTargetIsNextAction(env: Env, alpha: real, gamma: real, eps: real, q: QTable, s: State, a: Action, total: real, draws: seq<Draw>)
    requires ValidActions(env.actionKeys) && Complete(env.actionKeys, q) && a in env.actionKeys
    requires |draws| > 0
    ensures var m := SarsaMove(env, alpha, gamma, eps, q, s, a, draws[0]);
            && m.st.nextAction == Some(EpsilonGreedy(env.actionKeys, q, m.st.next, eps, draws[0]).action)
            && Get(env.actionKeys, m.q, s, a) ==
                 Toward(Get(env.actionKeys, q, s, a),
                        Bootstrap(m.st.reward, gamma, Get(env.actionKeys, q, m.st.next, m.st.nextAction.value)), alpha)
    ensures var m := SarsaMove(env, alpha, gamma, eps, q, s, a, draws[0]);
            var r := SarsaEpisode(env, alpha, gamma, eps, q, s, a, total, draws);
            && (r.Some? ==> r.value.trace[0] == m.st)
            && (r.Some? && !m.st.done ==> r.value.trace[1].action == m.st.nextAction.value)
  {
    var keys := env.actionKeys;
    var t := env.step(s, a);
    var c := EpsilonGreedy(keys, q, t.next, eps, draws[0]);
    SarsaStepUpdates(keys, c.q, s, a, t, c.action, alpha, gamma);
    var r := SarsaEpisode(env, alpha, gamma, eps, q, s, a, total, draws);
    if r.Some? && !t.done {
      assert |r.value.trace| > 1;
    }
  }
}
