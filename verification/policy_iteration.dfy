/** Policy iteration and truncated policy iteration: evaluate the current
    policy, then improve it greedily, until an improvement step changes no
    action. Full policy iteration evaluates in place until the largest
    change drops below theta; the truncated variant runs a fixed number of
    synchronous evaluation sweeps. */
module PolicyIteration {
  import opened Common
  import opened Mdp
  import opened ValueIteration

  /** The random initial policy: `pick(s)` stands for the draw of
      `random.choice` at state `s`; the goal gets the empty label. */
  function InitialPolicy(env: Env, pick: State -> nat): (p: Policy)
    requires ValidEnv(env)
    ensures PolicyShaped(env, p)
    ensures forall s :: s in env.states && s != env.goalPos ==>
              p[s] == env.actionKeys[pick(s) % |env.actionKeys|]
  {
    map s | s in env.states :: if s == env.goalPos then "" else env.actionKeys[pick(s) % |env.actionKeys|]
  }

  /** The Bellman expectation backup of `s` under `policy`:
      `reward + gamma * v[next]` for the policy's action. */
  function PolicyQ(env: Env, gamma: real, v: ValueTable, policy: Policy, s: State): real
    requires ValidEnv(env) && PolicyShaped(env, policy) && Covers(env, v)
    requires s in env.states && s != env.goalPos
  {
    QValue(env, gamma, v, s, policy[s])
  }

  // ---------------------------------------------------------------------
  // Full evaluation: in-place sweeps

  /** One in-place evaluation sweep from position `from` of the state list
      on: each non-goal state's new value reads `v` as this sweep has
      already rewritten it, so a state sees the new values of the states
      visited before it. */
  function InPlaceValues(env: Env, gamma: real, policy: Policy, from: nat, v: ValueTable): (r: ValueTable)
    requires ValidEnv(env) && PolicyShaped(env, policy) && v.Keys == StateSet(env) && from <= |env.states|
    ensures r.Keys == v.Keys && r[env.goalPos] == v[env.goalPos]
    decreases |env.states| - from
  {
    if from == |env.states| then v
    else
      var s := env.states[from];
      if s == env.goalPos then InPlaceValues(env, gamma, policy, from + 1, v)
      else InPlaceValues(env, gamma, policy, from + 1, v[s := PolicyQ(env, gamma, v, policy, s)])
  }

  /** The `delta` of the same in-place sweep: the largest
      `abs(v_old - v[s])`, where `v_old` is the value just before the
      write. */
  function InPlaceDelta(env: Env, gamma: real, policy: Policy, from: nat, v: ValueTable, d: real): (r: real)
    requires ValidEnv(env) && PolicyShaped(env, policy) && v.Keys == StateSet(env) && from <= |env.states|
    ensures d <= r
    decreases |env.states| - from
  {
    if from == |env.states| then d
    else
      var s := env.states[from];
      if s == env.goalPos then InPlaceDelta(env, gamma, policy, from + 1, v, d)
      else
        var q := PolicyQ(env, gamma, v, policy, s);
        InPlaceDelta(env, gamma, policy, from + 1, v[s := q], Max(d, Abs(v[s] - q)))
  }

  /** A sweep whose `delta` is 0 leaves the table unchanged, and then the
      table solves the Bellman expectation equation of the policy at every
      visited non-goal state. */
  lemma {:induction false} ZeroDeltaIsFixedPoint(env: Env, gamma: real, policy: Policy, from: nat, v: ValueTable)
    requires ValidEnv(env) && PolicyShaped(env, policy) && v.Keys == StateSet(env) && from <= |env.states|
    requires InPlaceDelta(env, gamma, policy, from, v, 0.0) == 0.0
    ensures InPlaceValues(env, gamma, policy, from, v) == v
    ensures forall s :: s in env.states[from..] && s != env.goalPos ==> v[s] == PolicyQ(env, gamma, v, policy, s)
    decreases |env.states| - from
  {
    if from < |env.states| {
      var s := env.states[from];
      assert forall t :: t in env.states[from..] <==> t == s || t in env.states[from + 1..];
      if s == env.goalPos {
        ZeroDeltaIsFixedPoint(env, gamma, policy, from + 1, v);
      } else {
        var q := PolicyQ(env, gamma, v, policy, s);
        assert Max(0.0, Abs(v[s] - q)) <= InPlaceDelta(env, gamma, policy, from, v, 0.0);
        assert v[s := q] == v;
        ZeroDeltaIsFixedPoint(env, gamma, policy, from + 1, v);
      }
    }
  }

  /** What policy evaluation needs of its inputs: a valid environment, a
      policy of the right shape and a table over exactly the states. */
  predicate Evaluable(env: Env, policy: Policy, v: ValueTable) {
    ValidEnv(env) && PolicyShaped(env, policy) && v.Keys == StateSet(env)
  }

  /** The table after `j` in-place sweeps from `v`. */
  function EvalTable(env: Env, gamma: real, policy: Policy, v: ValueTable, j: nat): (r: ValueTable)
    requires Evaluable(env, policy, v)
    ensures r.Keys == v.Keys && r[env.goalPos] == v[env.goalPos]
  {
    if j == 0 then v else InPlaceValues(env, gamma, policy, 0, EvalTable(env, gamma, policy, v, j - 1))
  }

  /** The `delta` of the in-place sweep that reads `EvalTable(.., j)`. */
  function EvalDelta(env: Env, gamma: real, policy: Policy, v: ValueTable, j: nat): real
    requires Evaluable(env, policy, v)
  {
    InPlaceDelta(env, gamma, policy, 0, EvalTable(env, gamma, policy, v, j), 0.0)
  }

  /** The changes of the successive evaluation sweeps from `v`. */
  function EvalDeltas(env: Env, gamma: real, policy: Policy, v: ValueTable): nat -> real
    requires Evaluable(env, policy, v)
  {
    (j: nat) => EvalDelta(env, gamma, policy, v, j)
  }

  /** The inner `while True` loop of policy evaluation, as the number of
      sweeps it runs from `v`: at most `fuel`, every sweep but the last
      changed some state by `theta` or more, the last changed none by that
      much. */
  function EvaluationSweeps(env: Env, gamma: real, theta: real, policy: Policy, v: ValueTable, fuel: nat): (r: Option<nat>)
    requires Evaluable(env, policy, v)
    ensures r.Some? ==> 1 <= r.value <= fuel
    ensures r.Some? ==> EvalDeltas(env, gamma, policy, v)(r.value - 1) < theta
    ensures r.Some? ==> forall j: nat :: j < r.value - 1 ==> EvalDeltas(env, gamma, policy, v)(j) >= theta
    ensures r.None? ==> forall j: nat :: j < fuel ==> EvalDeltas(env, gamma, policy, v)(j) >= theta
  {
    SweepsUntil(EvalDeltas(env, gamma, policy, v), theta, 0, fuel)
  }

  // ---------------------------------------------------------------------
  // Truncated evaluation: synchronous sweeps

  /** One synchronous evaluation sweep from position `from` on: each
      non-goal state's new value reads the frozen copy `v_old`. */
  function FrozenValues(env: Env, gamma: real, policy: Policy, frozen: ValueTable, from: nat, acc: ValueTable): (r: ValueTable)
    requires ValidEnv(env) && PolicyShaped(env, policy) && Covers(env, frozen) && from <= |env.states|
    requires StateSet(env) <= acc.Keys
    ensures r.Keys == acc.Keys && r[env.goalPos] == acc[env.goalPos]
    decreases |env.states| - from
  {
    if from == |env.states| then acc
    else
      var s := env.states[from];
      if s == env.goalPos then FrozenValues(env, gamma, policy, frozen, from + 1, acc)
      else FrozenValues(env, gamma, policy, frozen, from + 1, acc[s := PolicyQ(env, gamma, frozen, policy, s)])
  }

  /** Every non-goal state from position `from` on gets the expectation
      backup of the frozen table, whatever its position; nothing else
      changes. */
  lemma {:induction false} FrozenValuesComputes(env: Env, gamma: real, policy: Policy, frozen: ValueTable, from: nat, acc: ValueTable)
    requires ValidEnv(env) && PolicyShaped(env, policy) && Covers(env, frozen) && from <= |env.states|
    requires StateSet(env) <= acc.Keys
    ensures forall s {:trigger FrozenValues(env, gamma, policy, frozen, from, acc)[s]} :: s in acc ==>
              FrozenValues(env, gamma, policy, frozen, from, acc)[s] ==
                if s in env.states[from..] && s != env.goalPos then PolicyQ(env, gamma, frozen, policy, s) else acc[s]
    decreases |env.states| - from
  {
    if from < |env.states| {
      var s := env.states[from];
      assert forall t :: t in env.states[from..] <==> t == s || t in env.states[from + 1..];
      if s == env.goalPos {
        FrozenValuesComputes(env, gamma, policy, frozen, from + 1, acc);
      } else {
        FrozenValuesComputes(env, gamma, policy, frozen, from + 1, acc[s := PolicyQ(env, gamma, frozen, policy, s)]);
      }
    }
  }

  /** `j_truncate` synchronous sweeps from `v`. */
  function TruncatedEval(env: Env, gamma: real, policy: Policy, v: ValueTable, j: nat): (r: ValueTable)
    requires ValidEnv(env) && PolicyShaped(env, policy) && v.Keys == StateSet(env)
    ensures r.Keys == v.Keys && r[env.goalPos] == v[env.goalPos]
  {
    if j == 0 then v
    else
      var w := TruncatedEval(env, gamma, policy, v, j - 1);
      FrozenValues(env, gamma, policy, w, 0, w)
  }

  /** Each truncated sweep is the synchronous expectation backup of the
      table before it. */
  lemma TruncatedSweepIsSynchronous(env: Env, gamma: real, policy: Policy, v: ValueTable, j: nat)
    requires ValidEnv(env) && PolicyShaped(env, policy) && v.Keys == StateSet(env)
    ensures var w := TruncatedEval(env, gamma, policy, v, j);
            forall s :: s in env.states && s != env.goalPos ==>
              TruncatedEval(env, gamma, policy, v, j + 1)[s] == PolicyQ(env, gamma, w, policy, s)
  {
    var w := TruncatedEval(env, gamma, policy, v, j);
    assert env.states[0..] == env.states;
    FrozenValuesComputes(env, gamma, policy, w, 0, w);
  }

  // ---------------------------------------------------------------------
  // Improvement

  /** The `policy_stable` flag of one improvement pass from position
      `from` on: no non-goal state's old action differs from its greedy
      action. */
  function Stable(env: Env, gamma: real, v: ValueTable, policy: Policy, from: nat): bool
    requires ValidEnv(env) && Covers(env, v) && PolicyShaped(env, policy) && from <= |env.states|
    decreases |env.states| - from
  {
    if from == |env.states| then true
    else
      var s := env.states[from];
      (s == env.goalPos || policy[s] == GreedyAction(env, gamma, v, s)) && Stable(env, gamma, v, policy, from + 1)
  }

  /** The flag holds exactly when every non-goal state from `from` on
      already holds its greedy action. */
  lemma {:induction false} StableIffGreedy(env: Env, gamma: real, v: ValueTable, policy: Policy, from: nat)
    requires ValidEnv(env) && Covers(env, v) && PolicyShaped(env, policy) && from <= |env.states|
    ensures Stable(env, gamma, v, policy, from) <==>
              forall s :: s in env.states[from..] && s != env.goalPos ==> policy[s] == GreedyAction(env, gamma, v, s)
    decreases |env.states| - from
  {
    if from < |env.states| {
      var s := env.states[from];
      assert forall t :: t in env.states[from..] <==> t == s || t in env.states[from + 1..];
      StableIffGreedy(env, gamma, v, policy, from + 1);
    }
  }

  /** One improvement pass: `policy[s]` becomes the first greedy action
      under `v`, and the flag reports whether nothing changed, which is the
      case exactly when the improved policy equals the old one. */
  lemma ImproveIsGreedy(env: Env, gamma: real, v: ValueTable, policy: Policy)
    requires ValidEnv(env) && v.Keys == StateSet(env) && PolicyShaped(env, policy)
    ensures PolicyShaped(env, NextPolicy(env, gamma, v, policy))
    ensures GreedyFor(env, gamma, v, NextPolicy(env, gamma, v, policy))
    ensures Stable(env, gamma, v, policy, 0) <==> NextPolicy(env, gamma, v, policy) == policy
  {
    var p := NextPolicy(env, gamma, v, policy);
    SweepIsBellmanBackup(env, gamma, v, policy);
    assert env.states[0..] == env.states;
    StableIffGreedy(env, gamma, v, policy, 0);
    if Stable(env, gamma, v, policy, 0) {
      assert forall s :: s in p ==> p[s] == policy[s];
    } else {
      var s :| s in env.states && s != env.goalPos && policy[s] != GreedyAction(env, gamma, v, s);
      assert p[s] != policy[s];
    }
  }

  /** A loop that returns something stopped on a stable round: the
      returned policy has the right shape for the returned table and the
      improvement pass against that table found nothing to change. */
  predicate StoppedStable(env: Env, gamma: real, r: Option<Solution>) {
    r.Some? ==> Evaluable(env, r.value.policy, r.value.v) && Stable(env, gamma, r.value.v, r.value.policy, 0)
  }

  /** The improvement pass of both loops: `NextPolicy`, which keeps the
      policy's shape and makes it greedy for `v`. */
  function Improve(env: Env, gamma: real, v: ValueTable, policy: Policy): (p: Policy)
    requires Evaluable(env, policy, v)
    ensures Evaluable(env, p, v) && GreedyFor(env, gamma, v, p)
  {
    ImproveIsGreedy(env, gamma, v, policy);
    NextPolicy(env, gamma, v, policy)
  }

  /** The evaluation step of policy iteration: the in-place sweeps until
      the change drops below `theta`, or `None` when `evalFuel` sweeps did
      not get there. */
  function Evaluate(env: Env, gamma: real, theta: real, policy: Policy, v: ValueTable, evalFuel: nat): (r: Option<ValueTable>)
    requires Evaluable(env, policy, v) && Pinned(env, v)
    ensures r.Some? ==> Evaluable(env, policy, r.value) && Pinned(env, r.value)
    ensures r.Some? <==> EvaluationSweeps(env, gamma, theta, policy, v, evalFuel).Some?
    ensures r.Some? ==> r.value == EvalTable(env, gamma, policy, v, EvaluationSweeps(env, gamma, theta, policy, v, evalFuel).value)
  {
    match EvaluationSweeps(env, gamma, theta, policy, v, evalFuel)
    case None => None
    case Some(n) => Some(EvalTable(env, gamma, policy, v, n))
  }

  // ---------------------------------------------------------------------
  // The outer loops

  /** `v` covers exactly the states and holds 0 at the goal. */
  predicate Pinned(env: Env, v: ValueTable) {
    v.Keys == StateSet(env) && env.goalPos in v && v[env.goalPos] == 0.0
  }

  /** What an outer loop started with `history` and `fuel` further
      iterations returns, if anything: between one and `fuel` more tables
      appended to `history`, each covering exactly the states with the
      goal at 0, the last of them the returned table. */
  predicate Extends(env: Env, history: seq<ValueTable>, fuel: nat, r: Option<Solution>) {
    r.Some? ==>
      && |history| < |r.value.history| <= |history| + fuel
      && r.value.history[..|history|] == history
      && (forall i :: |history| <= i < |r.value.history| ==> Pinned(env, r.value.history[i]))
      && r.value.history[|r.value.history| - 1] == r.value.v
      && Pinned(env, r.value.v)
  }

  /** A result that extends `history + [v]` within `fuel` iterations
      extends `history` within `fuel + 1` when `v` itself is pinned. */
  lemma ExtendsFurther(env: Env, history: seq<ValueTable>, v: ValueTable, fuel: nat, r: Option<Solution>)
    requires Pinned(env, v) && Extends(env, history + [v], fuel, r)
    ensures Extends(env, history, fuel + 1, r)
  {
    if r.Some? {
      assert r.value.history[..|history|] == r.value.history[..|history| + 1][..|history|];
      assert r.value.history[|history|] == v;
    }
  }

  /** A result that extends the one-table history `[ZeroTable(env)]`
      starts with the all-zero table, and every table it records covers
      the states with the goal at 0. */
  lemma StartsFromZero(env: Env, fuel: nat, r: Option<Solution>)
    requires ValidEnv(env) && r.Some? && Extends(env, [ZeroTable(env)], fuel, r)
    ensures r.value.history[0] == ZeroTable(env)
    ensures forall i :: 0 <= i < |r.value.history| ==> Pinned(env, r.value.history[i])
  {
    assert r.value.history[0] == r.value.history[..1][0];
  }

  /** How a round evaluates the policy in force: in place until the
      change drops below `theta` (at most `evalFuel` sweeps), or with
      exactly `jTruncate` synchronous sweeps. */
  datatype Evaluation = InPlace(theta: real, evalFuel: nat) | Truncated(jTruncate: nat)

  /** The evaluation step of a round; `None` when in-place evaluation ran
      out of sweeps. */
  function EvaluateBy(env: Env, gamma: real, e: Evaluation, policy: Policy, v: ValueTable): (r: Option<ValueTable>)
    requires Evaluable(env, policy, v) && Pinned(env, v)
    ensures r.Some? ==> Evaluable(env, policy, r.value) && Pinned(env, r.value)
    ensures e.Truncated? ==> r == Some(TruncatedEval(env, gamma, policy, v, e.jTruncate))
    ensures e.InPlace? ==> r == Evaluate(env, gamma, e.theta, policy, v, e.evalFuel)
  {
    match e
    case InPlace(theta, evalFuel) => Evaluate(env, gamma, theta, policy, v, evalFuel)
    case Truncated(j) => Some(TruncatedEval(env, gamma, policy, v, j))
  }

  /** The state of an outer loop between rounds: the policy in force and
      the current table. */
  type RoundState = (Policy, ValueTable)

  /** The reference sequence of rounds, independent of any stopping rule:
      the state after `k` rounds of `next` from `s`, or `None` once a
      round has no result. */
  function Iterate(next: RoundState -> Option<RoundState>, s: RoundState, k: nat): Option<RoundState> {
    if k == 0 then Some(s)
    else
      match Iterate(next, s, k - 1)
      case None => None
      case Some(x) => next(x)
  }

  /** Taking the first round and then `k` more is taking `k + 1`. */
  lemma {:induction false} IterateShift(next: RoundState -> Option<RoundState>, s: RoundState, k: nat)
    requires next(s).Some?
    ensures Iterate(next, s, k + 1) == Iterate(next, next(s).value, k)
  {
    if k > 0 {
      IterateShift(next, s, k - 1);
    }
  }

  /** The tables an outer loop records from `s`, round by round, until it
      stops with the policy `final`: each round applies `next` to the
      state and records the table it yields; a round that changes the
      policy is followed by another, and the last round changes nothing,
      leaving `final` in force. */
  predicate Chain(next: RoundState -> Option<RoundState>, s: RoundState, tables: seq<ValueTable>, final: Policy)
    decreases |tables|
  {
    && 1 <= |tables|
    && next(s).Some? && next(s).value.1 == tables[0]
    && if |tables| == 1 then next(s).value.0 == s.0 && final == s.0
       else next(s).value.0 != s.0 && Chain(next, next(s).value, tables[1..], final)
  }

  /** Round `k + 1` of the reference records `tables[k]`. */
  predicate RoundAt(next: RoundState -> Option<RoundState>, s: RoundState, tables: seq<ValueTable>, k: nat) {
    && k < |tables|
    && Iterate(next, s, k).Some?
    && next(Iterate(next, s, k).value).Some?
    && next(Iterate(next, s, k).value).value.1 == tables[k]
  }

  /** Round `k + 1` of the reference changed the policy in force. */
  predicate ChangedAt(next: RoundState -> Option<RoundState>, s: RoundState, k: nat) {
    && Iterate(next, s, k).Some?
    && Iterate(next, s, k + 1).Some?
    && Iterate(next, s, k).value.0 != Iterate(next, s, k + 1).value.0
  }

  /** What a loop that records `tables` from `s` and stops with `final`
      promises about the reference: round `k + 1` records `tables[k]`,
      every round but the last changed the policy, and after the last
      round `final` and the last table are in force, the policy the same
      as before that round. */
  predicate Runs(next: RoundState -> Option<RoundState>, s: RoundState, tables: seq<ValueTable>, final: Policy) {
    && 1 <= |tables|
    && (forall k: nat :: k < |tables| ==> RoundAt(next, s, tables, k))
    && (forall k: nat :: k + 1 < |tables| ==> ChangedAt(next, s, k))
    && Iterate(next, s, |tables|) == Some((final, tables[|tables| - 1]))
    && Iterate(next, s, |tables| - 1).Some? && Iterate(next, s, |tables| - 1).value.0 == final
  }

  lemma {:induction false} ChainRound(next: RoundState -> Option<RoundState>, s: RoundState, tables: seq<ValueTable>,
                                      final: Policy, k: nat)
    requires Chain(next, s, tables, final) && k < |tables|
    ensures RoundAt(next, s, tables, k)
    decreases k
  {
    if k > 0 {
      var t := next(s).value;
      ChainRound(next, t, tables[1..], final, k - 1);
      IterateShift(next, s, k - 1);
    }
  }

  lemma {:induction false} ChainChanges(next: RoundState -> Option<RoundState>, s: RoundState, tables: seq<ValueTable>,
                                        final: Policy, k: nat)
    requires Chain(next, s, tables, final) && k + 1 < |tables|
    ensures ChangedAt(next, s, k)
    decreases k
  {
    if k > 0 {
      var t := next(s).value;
      ChainChanges(next, t, tables[1..], final, k - 1);
      IterateShift(next, s, k - 1);
      IterateShift(next, s, k);
    }
  }

  lemma {:induction false} ChainStops(next: RoundState -> Option<RoundState>, s: RoundState, tables: seq<ValueTable>,
                                      final: Policy)
    requires Chain(next, s, tables, final)
    ensures Iterate(next, s, |tables|) == Some((final, tables[|tables| - 1]))
    ensures Iterate(next, s, |tables| - 1).Some? && Iterate(next, s, |tables| - 1).value.0 == final
    decreases |tables|
  {
    var t := next(s).value;
    if |tables| > 1 {
      ChainStops(next, t, tables[1..], final);
      IterateShift(next, s, |tables| - 1);
      IterateShift(next, s, |tables| - 2);
    }
  }

  /** The tables a loop records round by round are the reference's
      rounds, cut at the first round that changed nothing. */
  lemma ChainIsRuns(next: RoundState -> Option<RoundState>, s: RoundState, tables: seq<ValueTable>, final: Policy)
    requires Chain(next, s, tables, final)
    ensures Runs(next, s, tables, final)
  {
    forall k: nat | k < |tables|
      ensures RoundAt(next, s, tables, k)
    {
      ChainRound(next, s, tables, final, k);
    }
    forall k: nat | k + 1 < |tables|
      ensures ChangedAt(next, s, k)
    {
      ChainChanges(next, s, tables, final, k);
    }
    ChainStops(next, s, tables, final);
  }

  /** Before round `k + 1` the reference holds the `k`-th table a loop
      recorded, counting the table it started from as the 0th. */
  lemma {:induction false} RunsReads(next: RoundState -> Option<RoundState>, s: RoundState, tables: seq<ValueTable>,
                                     final: Policy, k: nat)
    requires Runs(next, s, tables, final) && k < |tables|
    ensures Iterate(next, s, k).Some? && Iterate(next, s, k).value.1 == (if k == 0 then s.1 else tables[k - 1])
    ensures next(Iterate(next, s, k).value).Some? && next(Iterate(next, s, k).value).value.1 == tables[k]
  {
    assert RoundAt(next, s, tables, k);
    if k > 0 {
      assert RoundAt(next, s, tables, k - 1);
    }
  }

  /** One round of an outer loop: evaluate the policy in force with `e`,
      then improve it against the evaluated table; no result when the
      evaluation ran out of sweeps. */
  function RoundStep(env: Env, gamma: real, e: Evaluation): RoundState -> Option<RoundState> {
    (s: RoundState) =>
      if Evaluable(env, s.0, s.1) && Pinned(env, s.1) then
        match EvaluateBy(env, gamma, e, s.0, s.1)
        case None => None
        case Some(w) => Some((Improve(env, gamma, w, s.0), w))
      else None
  }

  /** What an outer loop started from `policy` and `v`, with `history`
      recorded, returns when it returns something: the tables it appended
      are the rounds of `RoundStep` from `policy` and `v`, ending with the
      returned policy. */
  predicate Recorded(env: Env, gamma: real, e: Evaluation, policy: Policy, v: ValueTable, history: seq<ValueTable>,
                     r: Option<Solution>)
  {
    r.Some? ==> |history| <= |r.value.history| && Chain(RoundStep(env, gamma, e), (policy, v), r.value.history[|history|..], r.value.policy)
  }

  /** A stable round that evaluates to `w` is a whole run. */
  lemma RecordedStop(env: Env, gamma: real, e: Evaluation, policy: Policy, v: ValueTable, w: ValueTable, history: seq<ValueTable>)
    requires Evaluable(env, policy, v) && Pinned(env, v)
    requires EvaluateBy(env, gamma, e, policy, v) == Some(w) && Stable(env, gamma, w, policy, 0)
    ensures Recorded(env, gamma, e, policy, v, history, Some(Solution(w, policy, history + [w])))
  {
    ImproveIsGreedy(env, gamma, w, policy);
    assert RoundStep(env, gamma, e)((policy, v)) == Some((policy, w));
    assert (history + [w])[|history|..] == [w];
  }

  /** A round that evaluates to `w` and changes the policy, in front of a
      run of the rest of the loop, is a run. */
  lemma RecordedFurther(env: Env, gamma: real, e: Evaluation, policy: Policy, v: ValueTable, w: ValueTable,
                        history: seq<ValueTable>, fuel: nat, r: Option<Solution>)
    requires Evaluable(env, policy, v) && Pinned(env, v)
    requires EvaluateBy(env, gamma, e, policy, v) == Some(w) && !Stable(env, gamma, w, policy, 0)
    requires Extends(env, history + [w], fuel, r)
    requires Recorded(env, gamma, e, Improve(env, gamma, w, policy), w, history + [w], r)
    ensures Recorded(env, gamma, e, policy, v, history, r)
  {
    if r.Some? {
      var h := r.value.history;
      UnstableChanges(env, gamma, w, policy);
      RoundStepIs(env, gamma, e, policy, v, w);
      SplitAt(h, history, w);
      ChainCons(RoundStep(env, gamma, e), (policy, v), (Improve(env, gamma, w, policy), w), h[|history|..], r.value.policy);
    }
  }

  /** A round that changes the policy, followed by a record of the rounds
      after it, is a record of the rounds from where it started. */
  lemma ChainCons(next: RoundState -> Option<RoundState>, s: RoundState, t: RoundState, tables: seq<ValueTable>,
                  final: Policy)
    requires next(s) == Some(t) && t.0 != s.0 && 2 <= |tables| && tables[0] == t.1
    requires Chain(next, t, tables[1..], final)
    ensures Chain(next, s, tables, final)
  {
  }

  /** A round from a table of the right shape evaluates it and improves
      the policy in force. */
  lemma RoundStepIs(env: Env, gamma: real, e: Evaluation, policy: Policy, v: ValueTable, w: ValueTable)
    requires Evaluable(env, policy, v) && Pinned(env, v) && EvaluateBy(env, gamma, e, policy, v) == Some(w)
    ensures RoundStep(env, gamma, e)((policy, v)) == Some((Improve(env, gamma, w, policy), w))
  {
  }

  /** A history that extends `history + [w]` by at least one more table
      records, from position `|history|` on, `w` and then the tables after
      it. */
  lemma SplitAt(h: seq<ValueTable>, history: seq<ValueTable>, w: ValueTable)
    requires |history| + 1 < |h| && h[..|history| + 1] == history + [w]
    ensures 2 <= |h[|history|..]| && h[|history|..][0] == w
    ensures h[|history|..][1..] == h[|history + [w]|..]
  {
    assert h[|history|] == h[..|history| + 1][|history|];
  }

  /** An improvement pass that is not stable changes the policy. */
  lemma UnstableChanges(env: Env, gamma: real, w: ValueTable, policy: Policy)
    requires Evaluable(env, policy, w) && !Stable(env, gamma, w, policy, 0)
    ensures Improve(env, gamma, w, policy) != policy
  {
    ImproveIsGreedy(env, gamma, w, policy);
  }

  /** Round `k + 1` of a loop started from `p0` and the zero table read
      the recorded table `h[k]` with the policy then in force, which has
      the right shape, and evaluated it into `h[k + 1]`. */
  predicate EvaluatedAt(env: Env, gamma: real, e: Evaluation, p0: Policy, h: seq<ValueTable>, k: nat) {
    && k + 1 < |h|
    && var before := Iterate(RoundStep(env, gamma, e), (p0, ZeroTable(env)), k);
       && before.Some? && before.value.1 == h[k]
       && Evaluable(env, before.value.0, h[k]) && Pinned(env, h[k])
       && EvaluateBy(env, gamma, e, before.value.0, h[k]) == Some(h[k + 1])
  }

  /** The policy in force before round `k + 1` of a loop started from
      `p0` and the zero table. */
  function InForce(env: Env, gamma: real, e: Evaluation, p0: Policy, h: seq<ValueTable>, k: nat): (p: Policy)
    requires EvaluatedAt(env, gamma, e, p0, h, k)
    ensures Evaluable(env, p, h[k])
  {
    Iterate(RoundStep(env, gamma, e), (p0, ZeroTable(env)), k).value.0
  }

  /** With the starting table at the head of the record, round `k + 1`
      reads `h[k]` and records `h[k + 1]`. */
  lemma RunsTable(next: RoundState -> Option<RoundState>, s: RoundState, h: seq<ValueTable>, final: Policy, k: nat)
    requires 1 <= |h| && h[0] == s.1 && Runs(next, s, h[1..], final) && k + 1 < |h|
    ensures Iterate(next, s, k).Some? && Iterate(next, s, k).value.1 == h[k]
    ensures next(Iterate(next, s, k).value).Some? && next(Iterate(next, s, k).value).value.1 == h[k + 1]
  {
    RunsReads(next, s, h[1..], final, k);
  }

  /** A round that completes read a table of the right shape and
      recorded its evaluation under the policy in force. */
  lemma RoundStepEvaluates(env: Env, gamma: real, e: Evaluation, x: RoundState, y: RoundState)
    requires RoundStep(env, gamma, e)(x) == Some(y)
    ensures Evaluable(env, x.0, x.1) && Pinned(env, x.1)
    ensures EvaluateBy(env, gamma, e, x.0, x.1) == Some(y.1)
  {
  }

  /** Every round of a run from `p0` and the zero table evaluates the
      policy then in force on the table before it. */
  lemma RoundEvaluates(env: Env, gamma: real, e: Evaluation, p0: Policy, h: seq<ValueTable>, final: Policy, k: nat)
    requires 1 <= |h| && h[0] == ZeroTable(env)
    requires Runs(RoundStep(env, gamma, e), (p0, ZeroTable(env)), h[1..], final) && k + 1 < |h|
    ensures EvaluatedAt(env, gamma, e, p0, h, k)
  {
    var next := RoundStep(env, gamma, e);
    var s := (p0, ZeroTable(env));
    RunsTable(next, s, h, final, k);
    var x := Iterate(next, s, k).value;
    RoundStepEvaluates(env, gamma, e, x, next(x).value);
  }

  /** Round `k + 1` of an in-place run evaluated the policy then in force
      in place from `h[k]`, until a sweep changed no state by `theta` or
      more, and recorded the result as `h[k + 1]`. */
  predicate InPlaceAt(env: Env, gamma: real, theta: real, evalFuel: nat, p0: Policy, h: seq<ValueTable>, k: nat) {
    && EvaluatedAt(env, gamma, InPlace(theta, evalFuel), p0, h, k)
    && Evaluate(env, gamma, theta, InForce(env, gamma, InPlace(theta, evalFuel), p0, h, k), h[k], evalFuel) == Some(h[k + 1])
  }

  /** Round `k + 1` of a truncated run recorded as `h[k + 1]` exactly
      `jTruncate` synchronous sweeps of the policy then in force from
      `h[k]`. */
  predicate TruncatedAt(env: Env, gamma: real, jTruncate: nat, p0: Policy, h: seq<ValueTable>, k: nat) {
    && EvaluatedAt(env, gamma, Truncated(jTruncate), p0, h, k)
    && h[k + 1] == TruncatedEval(env, gamma, InForce(env, gamma, Truncated(jTruncate), p0, h, k), h[k], jTruncate)
  }

  /** An in-place round records the in-place evaluation of the policy in
      force. */
  lemma InPlaceRound(env: Env, gamma: real, theta: real, evalFuel: nat, p0: Policy, h: seq<ValueTable>, k: nat)
    requires EvaluatedAt(env, gamma, InPlace(theta, evalFuel), p0, h, k)
    ensures InPlaceAt(env, gamma, theta, evalFuel, p0, h, k)
  {
  }

  /** A truncated round records `jTruncate` synchronous sweeps of the
      policy in force. */
  lemma TruncatedRound(env: Env, gamma: real, jTruncate: nat, p0: Policy, h: seq<ValueTable>, k: nat)
    requires EvaluatedAt(env, gamma, Truncated(jTruncate), p0, h, k)
    ensures TruncatedAt(env, gamma, jTruncate, p0, h, k)
  {
  }

  /** A result of either solver is the reference's rounds from `p0` and
      the zero table, recorded one table per round behind the zero table,
      and every round evaluates the policy then in force. */
  lemma ResultRuns(env: Env, gamma: real, e: Evaluation, p0: Policy, fuel: nat, r: Solution)
    requires ValidEnv(env) && Extends(env, [ZeroTable(env)], fuel, Some(r))
    requires Recorded(env, gamma, e, p0, ZeroTable(env), [ZeroTable(env)], Some(r))
    ensures r.history[0] == ZeroTable(env)
    ensures Runs(RoundStep(env, gamma, e), (p0, ZeroTable(env)), r.history[1..], r.policy)
    ensures forall k: nat :: k + 1 < |r.history| ==> EvaluatedAt(env, gamma, e, p0, r.history, k)
  {
    StartsFromZero(env, fuel, Some(r));
    ChainIsRuns(RoundStep(env, gamma, e), (p0, ZeroTable(env)), r.history[1..], r.policy);
    forall k: nat | k + 1 < |r.history|
      ensures EvaluatedAt(env, gamma, e, p0, r.history, k)
    {
      RoundEvaluates(env, gamma, e, p0, r.history, r.policy, k);
    }
  }

  /** In the rounds of a recorded in-place run, each table is the
      in-place evaluation of the policy in force on the one before. */
  lemma InPlaceRounds(env: Env, gamma: real, theta: real, evalFuel: nat, p0: Policy, fuel: nat, r: Solution)
    requires ValidEnv(env) && Extends(env, [ZeroTable(env)], fuel, Some(r))
    requires Recorded(env, gamma, InPlace(theta, evalFuel), p0, ZeroTable(env), [ZeroTable(env)], Some(r))
    ensures forall k: nat :: k + 1 < |r.history| ==> InPlaceAt(env, gamma, theta, evalFuel, p0, r.history, k)
  {
    ResultRuns(env, gamma, InPlace(theta, evalFuel), p0, fuel, r);
    forall k: nat | k + 1 < |r.history|
      ensures InPlaceAt(env, gamma, theta, evalFuel, p0, r.history, k)
    {
      InPlaceRound(env, gamma, theta, evalFuel, p0, r.history, k);
    }
  }

  /** In the rounds of a recorded truncated run, each table is
      `jTruncate` synchronous sweeps of the policy in force on the one
      before. */
  lemma TruncatedRounds(env: Env, gamma: real, jTruncate: nat, p0: Policy, fuel: nat, r: Solution)
    requires ValidEnv(env) && Extends(env, [ZeroTable(env)], fuel, Some(r))
    requires Recorded(env, gamma, Truncated(jTruncate), p0, ZeroTable(env), [ZeroTable(env)], Some(r))
    ensures forall k: nat :: k + 1 < |r.history| ==> TruncatedAt(env, gamma, jTruncate, p0, r.history, k)
  {
    ResultRuns(env, gamma, Truncated(jTruncate), p0, fuel, r);
    forall k: nat | k + 1 < |r.history|
      ensures TruncatedAt(env, gamma, jTruncate, p0, r.history, k)
    {
      TruncatedRound(env, gamma, jTruncate, p0, r.history, k);
    }
  }

  /** The outer `while True` loop of policy iteration, with the history
      recorded so far; `evalFuel` bounds every evaluation and `fuel` the
      number of further outer iterations. Each iteration evaluates the
      policy in place, records the table, improves the policy, and stops
      when the improvement changed nothing. */
  function PILoop(env: Env, gamma: real, theta: real, policy: Policy, v: ValueTable, history: seq<ValueTable>,
                  evalFuel: nat, fuel: nat): (r: Option<Solution>)
    requires Evaluable(env, policy, v) && Pinned(env, v)
    ensures Extends(env, history, fuel, r) && StoppedStable(env, gamma, r)
    ensures Recorded(env, gamma, InPlace(theta, evalFuel), policy, v, history, r)
    decreases fuel
    ensures forall tables, final | Chain(RoundStep(env, gamma, InPlace(theta, evalFuel)), (policy, v), tables, final) &&
                                   |tables| <= fuel ::
              r == Some(Solution(tables[|tables| - 1], final, history + tables))
  {
    if fuel == 0 then None
    else
      match Evaluate(env, gamma, theta, policy, v, evalFuel)
      case None =>
        NoChain(env, gamma, InPlace(theta, evalFuel), policy, v);
        None
      case Some(v') =>
        if Stable(env, gamma, v', policy, 0) then
          RecordedStop(env, gamma, InPlace(theta, evalFuel), policy, v, v', history);
          FindsStop(env, gamma, InPlace(theta, evalFuel), policy, v, v', history, fuel);
          Some(Solution(v', policy, history + [v']))
        else
          var r := PILoop(env, gamma, theta, Improve(env, gamma, v', policy), v', history + [v'], evalFuel, fuel - 1);
          ExtendsFurther(env, history, v', fuel - 1, r);
          RecordedFurther(env, gamma, InPlace(theta, evalFuel), policy, v, v', history, fuel - 1, r);
          FindsFurther(env, gamma, InPlace(theta, evalFuel), policy, v, v', history, fuel, r);
          r
  }

  /** No run of the reference starts with a round whose evaluation has
      no result. */
  lemma NoChain(env: Env, gamma: real, e: Evaluation, policy: Policy, v: ValueTable)
    requires Evaluable(env, policy, v) && Pinned(env, v) && EvaluateBy(env, gamma, e, policy, v).None?
    ensures forall tables, final :: !Chain(RoundStep(env, gamma, e), (policy, v), tables, final)
  {
  }

  /** A run of the reference that ends within `fuel` rounds is what the
      loop returns, when the first round changed the policy: the rest of
      the run is a run from the round after it. */
  lemma FindsFurther(env: Env, gamma: real, e: Evaluation, policy: Policy, v: ValueTable, w: ValueTable,
                     history: seq<ValueTable>, fuel: nat, r: Option<Solution>)
    requires Evaluable(env, policy, v) && Pinned(env, v) && fuel > 0
    requires EvaluateBy(env, gamma, e, policy, v) == Some(w) && !Stable(env, gamma, w, policy, 0)
    requires forall tables, final | Chain(RoundStep(env, gamma, e), (Improve(env, gamma, w, policy), w), tables, final) &&
                                    |tables| <= fuel - 1 ::
               r == Some(Solution(tables[|tables| - 1], final, history + [w] + tables))
    ensures forall tables, final | Chain(RoundStep(env, gamma, e), (policy, v), tables, final) && |tables| <= fuel ::
              r == Some(Solution(tables[|tables| - 1], final, history + tables))
  {
    forall tables, final | Chain(RoundStep(env, gamma, e), (policy, v), tables, final) && |tables| <= fuel
      ensures r == Some(Solution(tables[|tables| - 1], final, history + tables))
    {
      ChainGoesOn(env, gamma, e, policy, v, w, tables, final);
      RecordCons(history, w, tables);
    }
  }

  /** Recording `w` and then the rest of `tables`, which starts with `w`,
      records `tables`, and ends with the same table. */
  lemma RecordCons(history: seq<ValueTable>, w: ValueTable, tables: seq<ValueTable>)
    requires |tables| > 1 && tables[0] == w
    ensures history + [w] + tables[1..] == history + tables
    ensures tables[1..][|tables[1..]| - 1] == tables[|tables| - 1]
  {
    assert tables == [w] + tables[1..];
  }

  /** A run whose first round evaluates to `w` and is not stable goes on:
      it records `w` and then a run from the improved policy and `w`. */
  lemma ChainGoesOn(env: Env, gamma: real, e: Evaluation, policy: Policy, v: ValueTable, w: ValueTable,
                    tables: seq<ValueTable>, final: Policy)
    requires Evaluable(env, policy, v) && Pinned(env, v)
    requires EvaluateBy(env, gamma, e, policy, v) == Some(w) && !Stable(env, gamma, w, policy, 0)
    requires Chain(RoundStep(env, gamma, e), (policy, v), tables, final)
    ensures |tables| > 1 && tables[0] == w
    ensures Chain(RoundStep(env, gamma, e), (Improve(env, gamma, w, policy), w), tables[1..], final)
  {
    UnstableChanges(env, gamma, w, policy);
    RoundStepIs(env, gamma, e, policy, v, w);
  }

  /** A run whose first round evaluates to `w` and is stable is that one
      round, ending with the policy it started from. */
  lemma ChainStopsAt(env: Env, gamma: real, e: Evaluation, policy: Policy, v: ValueTable, w: ValueTable,
                     tables: seq<ValueTable>, final: Policy)
    requires Evaluable(env, policy, v) && Pinned(env, v)
    requires EvaluateBy(env, gamma, e, policy, v) == Some(w) && Stable(env, gamma, w, policy, 0)
    requires Chain(RoundStep(env, gamma, e), (policy, v), tables, final)
    ensures tables == [w] && final == policy
  {
    ImproveIsGreedy(env, gamma, w, policy);
    RoundStepIs(env, gamma, e, policy, v, w);
  }

  /** A run of the reference that ends within `fuel` rounds is the single
      round the loop returns when that round is stable. */
  lemma FindsStop(env: Env, gamma: real, e: Evaluation, policy: Policy, v: ValueTable, w: ValueTable,
                  history: seq<ValueTable>, fuel: nat)
    requires Evaluable(env, policy, v) && Pinned(env, v) && fuel > 0
    requires EvaluateBy(env, gamma, e, policy, v) == Some(w) && Stable(env, gamma, w, policy, 0)
    ensures forall tables, final | Chain(RoundStep(env, gamma, e), (policy, v), tables, final) && |tables| <= fuel ::
              Some(Solution(w, policy, history + [w])) == Some(Solution(tables[|tables| - 1], final, history + tables))
  {
    forall tables, final | Chain(RoundStep(env, gamma, e), (policy, v), tables, final) && |tables| <= fuel
      ensures Some(Solution(w, policy, history + [w])) == Some(Solution(tables[|tables| - 1], final, history + tables))
    {
      ChainStopsAt(env, gamma, e, policy, v, w, tables, final);
    }
  }

  /** Policy iteration from the initial policy `InitialPolicy(env, pick)`
      and the all-zero table. On success the history is the zero table
      followed by one evaluated table per outer iteration, and the returned
      table is the last of them, with the goal at 0. */
  function PolicyIteration(env: Env, gamma: real, theta: real, pick: State -> nat, evalFuel: nat, fuel: nat): (r: Option<Solution>)
    requires ValidEnv(env)
    ensures Extends(env, [ZeroTable(env)], fuel, r) && StoppedStable(env, gamma, r)
    ensures Recorded(env, gamma, InPlace(theta, evalFuel), InitialPolicy(env, pick), ZeroTable(env), [ZeroTable(env)], r)
    ensures forall tables, final | Chain(RoundStep(env, gamma, InPlace(theta, evalFuel)), (InitialPolicy(env, pick), ZeroTable(env)),
                                         tables, final) && |tables| <= fuel ::
              r == Some(Solution(tables[|tables| - 1], final, [ZeroTable(env)] + tables))
  {
    PILoop(env, gamma, theta, InitialPolicy(env, pick), ZeroTable(env), [ZeroTable(env)], evalFuel, fuel)
  }

  /** The policy policy iteration returns gives the goal the blank label
      and every other state an action, is greedy for the returned table,
      and one more improvement pass would change nothing. */
  lemma PolicyIterationIsGreedy(env: Env, gamma: real, theta: real, pick: State -> nat, evalFuel: nat, fuel: nat)
    requires ValidEnv(env) && PolicyIteration(env, gamma, theta, pick, evalFuel, fuel).Some?
    ensures var r := PolicyIteration(env, gamma, theta, pick, evalFuel, fuel).value;
            && PolicyShaped(env, r.policy)
            && GreedyFor(env, gamma, r.v, r.policy)
            && NextPolicy(env, gamma, r.v, r.policy) == r.policy
    ensures var r := PolicyIteration(env, gamma, theta, pick, evalFuel, fuel).value;
            && r.history[0] == ZeroTable(env)
            && forall i :: 0 <= i < |r.history| ==> Pinned(env, r.history[i])
  {
    var r := PolicyIteration(env, gamma, theta, pick, evalFuel, fuel).value;
    ImproveIsGreedy(env, gamma, r.v, r.policy);
    StartsFromZero(env, fuel, Some(r));
  }

  /** The outer loop of truncated policy iteration: each iteration runs
      exactly `jTruncate` synchronous sweeps, records the table, improves
      the policy, and stops when the improvement changed nothing. */
  function TPILoop(env: Env, gamma: real, jTruncate: nat, policy: Policy, v: ValueTable, history: seq<ValueTable>,
                   fuel: nat): (r: Option<Solution>)
    requires Evaluable(env, policy, v) && Pinned(env, v)
    ensures Extends(env, history, fuel, r) && StoppedStable(env, gamma, r)
    ensures Recorded(env, gamma, Truncated(jTruncate), policy, v, history, r)
    ensures forall tables, final | Chain(RoundStep(env, gamma, Truncated(jTruncate)), (policy, v), tables, final) &&
                                   |tables| <= fuel ::
              r == Some(Solution(tables[|tables| - 1], final, history + tables))
    decreases fuel
  {
    if fuel == 0 then None
    else
      var v' := TruncatedEval(env, gamma, policy, v, jTruncate);
      if Stable(env, gamma, v', policy, 0) then
        RecordedStop(env, gamma, Truncated(jTruncate), policy, v, v', history);
        FindsStop(env, gamma, Truncated(jTruncate), policy, v, v', history, fuel);
        Some(Solution(v', policy, history + [v']))
      else
        var r := TPILoop(env, gamma, jTruncate, Improve(env, gamma, v', policy), v', history + [v'], fuel - 1);
        ExtendsFurther(env, history, v', fuel - 1, r);
        RecordedFurther(env, gamma, Truncated(jTruncate), policy, v, v', history, fuel - 1, r);
        FindsFurther(env, gamma, Truncated(jTruncate), policy, v, v', history, fuel, r);
        r
  }

  /** Truncated policy iteration from the initial policy and the all-zero
      table, with the same guarantees as `PolicyIteration`. */
  function TruncatedPolicyIteration(env: Env, gamma: real, jTruncate: nat, pick: State -> nat, fuel: nat): (r: Option<Solution>)
    requires ValidEnv(env)
    ensures Extends(env, [ZeroTable(env)], fuel, r) && StoppedStable(env, gamma, r)
    ensures Recorded(env, gamma, Truncated(jTruncate), InitialPolicy(env, pick), ZeroTable(env), [ZeroTable(env)], r)
    ensures forall tables, final | Chain(RoundStep(env, gamma, Truncated(jTruncate)), (InitialPolicy(env, pick), ZeroTable(env)),
                                         tables, final) && |tables| <= fuel ::
              r == Some(Solution(tables[|tables| - 1], final, [ZeroTable(env)] + tables))
  {
    TPILoop(env, gamma, jTruncate, InitialPolicy(env, pick), ZeroTable(env), [ZeroTable(env)], fuel)
  }

  /** The policy truncated policy iteration returns has the same shape and
      is greedy for, and stable under, the returned table. */
  lemma TruncatedPolicyIterationIsGreedy(env: Env, gamma: real, jTruncate: nat, pick: State -> nat, fuel: nat)
    requires ValidEnv(env) && TruncatedPolicyIteration(env, gamma, jTruncate, pick, fuel).Some?
    ensures var r := TruncatedPolicyIteration(env, gamma, jTruncate, pick, fuel).value;
            && PolicyShaped(env, r.policy)
            && GreedyFor(env, gamma, r.v, r.policy)
            && NextPolicy(env, gamma, r.v, r.policy) == r.policy
    ensures var r := TruncatedPolicyIteration(env, gamma, jTruncate, pick, fuel).value;
            && r.history[0] == ZeroTable(env)
            && forall i :: 0 <= i < |r.history| ==> Pinned(env, r.history[i])
  {
    var r := TruncatedPolicyIteration(env, gamma, jTruncate, pick, fuel).value;
    ImproveIsGreedy(env, gamma, r.v, r.policy);
    StartsFromZero(env, fuel, Some(r));
  }

  /** Policy iteration records, behind the zero table, one table per
      round of the reference from the initial policy: round `k + 1`
      evaluates the policy then in force in place, from `h[k]`, until a
      sweep changes no state by `theta` or more, and records the result
      as `h[k + 1]`. Every round but the last changed the policy; the last
      changed nothing and left the returned policy and table. */
  lemma PolicyIterationEvaluates(env: Env, gamma: real, theta: real, pick: State -> nat, evalFuel: nat, fuel: nat)
    requires ValidEnv(env) && PolicyIteration(env, gamma, theta, pick, evalFuel, fuel).Some?
    ensures var r := PolicyIteration(env, gamma, theta, pick, evalFuel, fuel).value;
            Runs(RoundStep(env, gamma, InPlace(theta, evalFuel)), (InitialPolicy(env, pick), ZeroTable(env)), r.history[1..], r.policy)
    ensures var r := PolicyIteration(env, gamma, theta, pick, evalFuel, fuel).value;
            forall k: nat :: k + 1 < |r.history| ==> InPlaceAt(env, gamma, theta, evalFuel, InitialPolicy(env, pick), r.history, k)
  {
    var r := PolicyIteration(env, gamma, theta, pick, evalFuel, fuel).value;
    ResultRuns(env, gamma, InPlace(theta, evalFuel), InitialPolicy(env, pick), fuel, r);
    InPlaceRounds(env, gamma, theta, evalFuel, InitialPolicy(env, pick), fuel, r);
  }

  /** Truncated policy iteration records, behind the zero table, one
      table per round of the reference from the initial policy: round
      `k + 1` runs exactly `jTruncate` synchronous sweeps of the policy
      then in force from `h[k]` and records the result as `h[k + 1]`.
      Every round but the last changed the policy; the last changed
      nothing and left the returned policy and table. */
  lemma TruncatedPolicyIterationEvaluates(env: Env, gamma: real, jTruncate: nat, pick: State -> nat, fuel: nat)
    requires ValidEnv(env) && TruncatedPolicyIteration(env, gamma, jTruncate, pick, fuel).Some?
    ensures var r := TruncatedPolicyIteration(env, gamma, jTruncate, pick, fuel).value;
            Runs(RoundStep(env, gamma, Truncated(jTruncate)), (InitialPolicy(env, pick), ZeroTable(env)), r.history[1..], r.policy)
    ensures var r := TruncatedPolicyIteration(env, gamma, jTruncate, pick, fuel).value;
            forall k: nat :: k + 1 < |r.history| ==> TruncatedAt(env, gamma, jTruncate, InitialPolicy(env, pick), r.history, k)
  {
    var r := TruncatedPolicyIteration(env, gamma, jTruncate, pick, fuel).value;
    ResultRuns(env, gamma, Truncated(jTruncate), InitialPolicy(env, pick), fuel, r);
    TruncatedRounds(env, gamma, jTruncate, InitialPolicy(env, pick), fuel, r);
  }
}
