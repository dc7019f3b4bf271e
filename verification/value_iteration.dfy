/** Value iteration: synchronous Bellman-optimality sweeps over every
    non-goal state until the largest change of a sweep drops below theta. */
module ValueIteration {
  import opened Common
  import opened Mdp

  /** The solver's result: value table, policy and the snapshot history. */
  datatype Solution = Solution(v: ValueTable, policy: Policy, history: seq<ValueTable>)

  /** The policy value iteration starts from: the empty label everywhere. */
  function BlankPolicy(env: Env): (p: Policy)
    ensures p.Keys == StateSet(env)
    ensures forall s :: s in p ==> p[s] == ""
  {
    map s | s in env.states :: ""
  }

  /** The value writes of one sweep, from position `from` of the state list
      on: every non-goal state gets the Bellman-optimal backup, which reads
      the frozen pre-sweep table and never `acc` (`SweepValuesComputes`). */
  function SweepValues(env: Env, gamma: real, frozen: ValueTable, from: nat, acc: ValueTable): (r: ValueTable)
    requires ValidEnv(env) && Covers(env, frozen) && from <= |env.states|
    requires StateSet(env) <= acc.Keys
    ensures r.Keys == acc.Keys
    ensures r[env.goalPos] == acc[env.goalPos]
    decreases |env.states| - from
  {
    if from == |env.states| then acc
    else
      var s := env.states[from];
      if s == env.goalPos then SweepValues(env, gamma, frozen, from + 1, acc)
      else SweepValues(env, gamma, frozen, from + 1, acc[s := BestValue(env, gamma, frozen, s)])
  }

  /** The policy writes of the same sweep: every non-goal state gets its
      first greedy action under the frozen table. */
  function SweepPolicy(env: Env, gamma: real, frozen: ValueTable, from: nat, acc: Policy): (r: Policy)
    requires ValidEnv(env) && Covers(env, frozen) && from <= |env.states|
    requires StateSet(env) <= acc.Keys
    ensures r.Keys == acc.Keys
    ensures r[env.goalPos] == acc[env.goalPos]
    decreases |env.states| - from
  {
    if from == |env.states| then acc
    else
      var s := env.states[from];
      if s == env.goalPos then SweepPolicy(env, gamma, frozen, from + 1, acc)
      else SweepPolicy(env, gamma, frozen, from + 1, acc[s := GreedyAction(env, gamma, frozen, s)])
  }

  /** Every non-goal state from position `from` on gets the Bellman-optimal
      backup of the frozen table; every other entry keeps its value. */
  lemma {:induction false} SweepValuesComputes(env: Env, gamma: real, frozen: ValueTable, from: nat, acc: ValueTable)
    requires ValidEnv(env) && Covers(env, frozen) && from <= |env.states|
    requires StateSet(env) <= acc.Keys
    ensures forall s {:trigger SweepValues(env, gamma, frozen, from, acc)[s]} :: s in acc ==>
              SweepValues(env, gamma, frozen, from, acc)[s] ==
                if s in env.states[from..] && s != env.goalPos then BestValue(env, gamma, frozen, s) else acc[s]
    decreases |env.states| - from
  {
    if from < |env.states| {
      var s := env.states[from];
      assert forall t :: t in env.states[from..] <==> t == s || t in env.states[from + 1..];
      if s == env.goalPos {
        SweepValuesComputes(env, gamma, frozen, from + 1, acc);
      } else {
        SweepValuesComputes(env, gamma, frozen, from + 1, acc[s := BestValue(env, gamma, frozen, s)]);
      }
    }
  }

  /** Every non-goal state from position `from` on gets its first greedy
      action under the frozen table; every other entry is kept. */
  lemma {:induction false} SweepPolicyComputes(env: Env, gamma: real, frozen: ValueTable, from: nat, acc: Policy)
    requires ValidEnv(env) && Covers(env, frozen) && from <= |env.states|
    requires StateSet(env) <= acc.Keys
    ensures forall s {:trigger SweepPolicy(env, gamma, frozen, from, acc)[s]} :: s in acc ==>
              SweepPolicy(env, gamma, frozen, from, acc)[s] ==
                if s in env.states[from..] && s != env.goalPos then GreedyAction(env, gamma, frozen, s) else acc[s]
    decreases |env.states| - from
  {
    if from < |env.states| {
      var s := env.states[from];
      assert forall t :: t in env.states[from..] <==> t == s || t in env.states[from + 1..];
      if s == env.goalPos {
        SweepPolicyComputes(env, gamma, frozen, from + 1, acc);
      } else {
        SweepPolicyComputes(env, gamma, frozen, from + 1, acc[s := GreedyAction(env, gamma, frozen, s)]);
      }
    }
  }

  /** How far the backup of `s` moves its value away from the frozen
      table: `abs(v_old - v[s])` for the new `v[s]`. */
  function Change(env: Env, gamma: real, frozen: ValueTable, s: State): real
    requires ValidEnv(env) && Covers(env, frozen) && s in env.states
  {
    Abs(frozen[s] - BestValue(env, gamma, frozen, s))
  }

  /** The running `delta = max(delta, abs(v_old - v[s]))` of one sweep from
      position `from` of the state list on, starting from `d` (see
      `LargestChangeIsMax`). */
  function LargestChange(env: Env, gamma: real, frozen: ValueTable, from: nat, d: real): (r: real)
    requires ValidEnv(env) && Covers(env, frozen) && from <= |env.states|
    ensures d <= r
    decreases |env.states| - from
  {
    if from == |env.states| then d
    else
      var s := env.states[from];
      if s == env.goalPos then LargestChange(env, gamma, frozen, from + 1, d)
      else LargestChange(env, gamma, frozen, from + 1, Max(d, Change(env, gamma, frozen, s)))
  }

  /** `LargestChange` is the largest change of a visited non-goal state,
      or the starting value when that is larger. */
  lemma {:induction false} LargestChangeIsMax(env: Env, gamma: real, frozen: ValueTable, from: nat, d: real)
    requires ValidEnv(env) && Covers(env, frozen) && from <= |env.states|
    ensures forall s {:trigger Change(env, gamma, frozen, s)} ::
              s in env.states[from..] && s != env.goalPos ==>
                Change(env, gamma, frozen, s) <= LargestChange(env, gamma, frozen, from, d)
    ensures var r := LargestChange(env, gamma, frozen, from, d);
            r == d || exists s {:trigger Change(env, gamma, frozen, s)} ::
              s in env.states[from..] && s != env.goalPos && r == Change(env, gamma, frozen, s)
    decreases |env.states| - from
  {
    if from < |env.states| {
      var s := env.states[from];
      assert forall t :: t in env.states[from..] <==> t == s || t in env.states[from + 1..];
      if s == env.goalPos {
        LargestChangeIsMax(env, gamma, frozen, from + 1, d);
      } else {
        var d' := Max(d, Change(env, gamma, frozen, s));
        LargestChangeIsMax(env, gamma, frozen, from + 1, d');
        var r := LargestChange(env, gamma, frozen, from, d);
        assert r == LargestChange(env, gamma, frozen, from + 1, d');
        if r != d && r == d' {
          assert r == Change(env, gamma, frozen, s);
        }
      }
    }
  }

  /** The table after one value-iteration sweep over the state list. */
  function NextTable(env: Env, gamma: real, v: ValueTable): (r: ValueTable)
    requires ValidEnv(env) && v.Keys == StateSet(env)
    ensures r.Keys == v.Keys && r[env.goalPos] == v[env.goalPos]
  {
    SweepValues(env, gamma, v, 0, v)
  }

  /** The policy after one sweep that reads `v`, starting from `policy`. */
  function NextPolicy(env: Env, gamma: real, v: ValueTable, policy: Policy): (r: Policy)
    requires ValidEnv(env) && v.Keys == StateSet(env) && policy.Keys == StateSet(env)
    ensures r.Keys == policy.Keys && r[env.goalPos] == policy[env.goalPos]
  {
    SweepPolicy(env, gamma, v, 0, policy)
  }

  /** The `delta` of one sweep that reads `v`: it starts at 0. */
  function SweepDelta(env: Env, gamma: real, v: ValueTable): (d: real)
    requires ValidEnv(env) && v.Keys == StateSet(env)
    ensures 0.0 <= d
  {
    LargestChange(env, gamma, v, 0, 0.0)
  }

  /** What a sweep computes for every non-goal state: the Bellman-optimal
      backup against the pre-sweep table and the first action attaining it,
      whatever the policy held before; a `delta` that is the largest
      absolute change of any such state (0 when there is none). The result
      is the synchronous backup, so the order of the state list does not
      matter. */
  lemma SweepIsBellmanBackup(env: Env, gamma: real, v: ValueTable, policy: Policy)
    requires ValidEnv(env) && v.Keys == StateSet(env) && policy.Keys == StateSet(env)
    ensures Covers(env, v)
    ensures forall s {:trigger NextTable(env, gamma, v)[s]} :: s in env.states && s != env.goalPos ==>
              NextTable(env, gamma, v)[s] == BestValue(env, gamma, v, s)
    ensures forall s {:trigger NextPolicy(env, gamma, v, policy)[s]} :: s in env.states && s != env.goalPos ==>
              NextPolicy(env, gamma, v, policy)[s] == GreedyAction(env, gamma, v, s)
    ensures forall s {:trigger Change(env, gamma, v, s)} ::
              s in env.states && s != env.goalPos ==> Change(env, gamma, v, s) <= SweepDelta(env, gamma, v)
    ensures SweepDelta(env, gamma, v) == 0.0 || exists s {:trigger Change(env, gamma, v, s)} ::
              s in env.states && s != env.goalPos && SweepDelta(env, gamma, v) == Change(env, gamma, v, s)
  {
    assert Covers(env, v);
    assert env.states[0..] == env.states;
    SweepValuesComputes(env, gamma, v, 0, v);
    SweepPolicyComputes(env, gamma, v, 0, policy);
    LargestChangeIsMax(env, gamma, v, 0, 0.0);
  }

  /** A sweep whose `delta` is 0 found every non-goal state already at its
      Bellman-optimal backup: the table is a fixed point of the sweep. */
  lemma ZeroDeltaIsOptimalFixedPoint(env: Env, gamma: real, v: ValueTable)
    requires ValidEnv(env) && v.Keys == StateSet(env) && SweepDelta(env, gamma, v) == 0.0
    ensures forall s :: s in env.states && s != env.goalPos ==> v[s] == BestValue(env, gamma, v, s)
    ensures NextTable(env, gamma, v) == v
  {
    SweepIsBellmanBackup(env, gamma, v, BlankPolicy(env));
    forall s | s in env.states && s != env.goalPos
      ensures v[s] == BestValue(env, gamma, v, s)
    {
      assert Change(env, gamma, v, s) <= 0.0;
    }
    var t := NextTable(env, gamma, v);
    forall s | s in t
      ensures t[s] == v[s]
    {
      if s != env.goalPos {
        assert t[s] == BestValue(env, gamma, v, s);
      }
    }
  }

  /** The table after `n` sweeps from the all-zero table. Every snapshot
      covers exactly the environment's states and keeps the goal at 0. */
  function Snapshot(env: Env, gamma: real, n: nat): (t: ValueTable)
    requires ValidEnv(env)
    ensures t.Keys == StateSet(env) && t[env.goalPos] == 0.0
  {
    if n == 0 then ZeroTable(env) else NextTable(env, gamma, Snapshot(env, gamma, n - 1))
  }

  /** The policy after `n` sweeps: the blank policy, rewritten by every
      sweep. */
  function PolicyAfter(env: Env, gamma: real, n: nat): (p: Policy)
    requires ValidEnv(env)
    ensures p.Keys == StateSet(env) && p[env.goalPos] == ""
  {
    if n == 0 then BlankPolicy(env)
    else NextPolicy(env, gamma, Snapshot(env, gamma, n - 1), PolicyAfter(env, gamma, n - 1))
  }

  /** The largest change of the sweep that reads snapshot `n`. */
  function DeltaAfter(env: Env, gamma: real, n: nat): real
    requires ValidEnv(env)
  {
    SweepDelta(env, gamma, Snapshot(env, gamma, n))
  }

  /** The recorded history after `n` sweeps: the zero table, then one copy
      of the table per sweep. */
  function History(env: Env, gamma: real, n: nat): (h: seq<ValueTable>)
    requires ValidEnv(env)
    ensures |h| == n + 1
    ensures forall i :: 0 <= i <= n ==> h[i] == Snapshot(env, gamma, i)
  {
    seq(n + 1, i requires 0 <= i <= n => Snapshot(env, gamma, i))
  }

  /** The changes of the successive sweeps: entry `i` is `DeltaAfter(.., i)`. */
  function Deltas(env: Env, gamma: real): nat -> real
    requires ValidEnv(env)
  {
    (i: nat) => DeltaAfter(env, gamma, i)
  }

  /** The sweeps `0 .. n - 1` are the ones a run with at most `fuel`
      sweeps performs: every one but the last changed some state by
      `theta` or more and the last changed none by that much. */
  predicate StopsAfter(env: Env, gamma: real, theta: real, fuel: nat, n: nat)
    requires ValidEnv(env)
  {
    && 1 <= n <= fuel
    && (forall i: nat :: i < n - 1 ==> Deltas(env, gamma)(i) >= theta)
    && Deltas(env, gamma)(n - 1) < theta
  }

  /** The result after `n` sweeps: the last snapshot, the policy the
      sweeps left behind and the history of all snapshots. */
  function SolutionAfter(env: Env, gamma: real, n: nat): (r: Solution)
    requires ValidEnv(env)
    ensures |r.history| == n + 1
  {
    Solution(Snapshot(env, gamma, n), PolicyAfter(env, gamma, n), History(env, gamma, n))
  }

  /** Value iteration from the all-zero table, with at most `fuel` sweeps.
      On success it ran `n` sweeps, where `n` is the first sweep count
      whose last sweep changed no state by `theta` or more; the result is
      the last snapshot, the policy the sweeps left behind and the history
      of the zero table and one snapshot per sweep (see
      `ValueIterationIsGreedy`). `None` reports `fuel` sweeps without
      convergence. */
  function ValueIteration(env: Env, gamma: real, theta: real, fuel: nat): (r: Option<Solution>)
    requires ValidEnv(env)
    ensures r.Some? ==> 2 <= |r.value.history|
    ensures r.Some? ==> var n := |r.value.history| - 1;
                        StopsAfter(env, gamma, theta, fuel, n) && r.value == SolutionAfter(env, gamma, n)
    ensures r.None? ==> forall i: nat :: i < fuel ==> Deltas(env, gamma)(i) >= theta
  {
    match SweepsUntil(Deltas(env, gamma), theta, 0, fuel)
    case None => None
    case Some(n) => Some(SolutionAfter(env, gamma, n))
  }

  /** What value iteration returns: the history starts with the all-zero
      table, the goal stays at 0 in every snapshot, its policy entry stays
      blank, and every other state's entry is the first greedy action of the
      table the last sweep read, whose backups the returned table holds. */
  lemma ValueIterationIsGreedy(env: Env, gamma: real, theta: real, fuel: nat)
    requires ValidEnv(env) && ValueIteration(env, gamma, theta, fuel).Some?
    ensures var r := ValueIteration(env, gamma, theta, fuel).value;
            var n := |r.history| - 1;
            && r.history[0] == ZeroTable(env)
            && (forall i :: 0 <= i <= n ==> r.history[i][env.goalPos] == 0.0)
            && r.policy[env.goalPos] == ""
            && GreedyFor(env, gamma, r.history[n - 1], r.policy)
            && (forall s :: s in env.states && s != env.goalPos ==>
                  r.v[s] == BestValue(env, gamma, r.history[n - 1], s))
  {
    var r := ValueIteration(env, gamma, theta, fuel).value;
    var n := |r.history| - 1;
    var last := Snapshot(env, gamma, n - 1);
    SweepIsBellmanBackup(env, gamma, last, PolicyAfter(env, gamma, n - 1));
  }
}
