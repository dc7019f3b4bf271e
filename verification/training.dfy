/** The training driver each of the four learners repeats, written once
    and generic in the learner's episode: start from an empty table (rows
    appear as they are first read), run the requested number of episodes
    from the start state, record each episode's reward total, and read the
    greedy policy off the final table. */
module Training {
  import opened Common
  import opened Mdp
  import opened QTables
  import opened TdLearning
  import opened NStepSarsa

  /** Which learner trains: `q_learning` or `expected_sarsa` (an
      off-policy rule), `sarsa`, or `n_step_sarsa` with its `n_steps` and
      `max_steps_per_episode`. */
  datatype Learner = OffPolicy(rule: Rule) | OnPolicy | NStep(n: nat, maxSteps: nat)

  /** The shape of an episode's walk: it starts at the start state and
      follows the environment; it ends on `done`, except that an n-step
      episode may also stop when it reaches its step bound. */
  predicate Shaped(learner: Learner, env: Env, trace: seq<Step>) {
    && Walk(env, env.startPos, trace)
    && (if learner.NStep? then |trace| <= learner.maxSteps && (Finished(trace) || |trace| == learner.maxSteps)
        else Finished(trace))
  }

  /** One episode of the chosen learner from the start state with the
      reward total at 0. SARSA chooses its first action before the loop. */
  function RunEpisode(learner: Learner, env: Env, alpha: real, gamma: real, eps: real, q: QTable, draws: seq<Draw>): (r: Option<Episode>)
    requires ValidActions(env.actionKeys) && Complete(env.actionKeys, q)
    ensures r.Some? ==> Complete(env.actionKeys, r.value.q) && Shaped(learner, env, r.value.trace)
    ensures r.Some? ==> r.value.total == RewardSum(r.value.trace) && |r.value.rest| < |draws|
  {
    match learner
    case OffPolicy(rule) => OffPolicyEpisode(rule, env, alpha, gamma, eps, q, env.startPos, 0.0, draws)
    case OnPolicy =>
      if |draws| == 0 then None
      else
        var c := EpsilonGreedy(env.actionKeys, q, env.startPos, eps, draws[0]);
        SarsaEpisode(env, alpha, gamma, eps, c.q, env.startPos, c.action, 0.0, draws[1..])
    case NStep(n, maxSteps) => NStepEpisode(env, n, alpha, gamma, eps, maxSteps, q, draws)
  }

  /** Every episode the learner runs is its loop, step by step. */
  lemma RunEpisodeReplays(learner: Learner, env: Env, alpha: real, gamma: real, eps: real, q: QTable, draws: seq<Draw>)
    requires ValidActions(env.actionKeys) && Complete(env.actionKeys, q)
    requires RunEpisode(learner, env, alpha, gamma, eps, q, draws).Some?
    ensures EpisodeReplays(learner, env, alpha, gamma, eps, q, draws, RunEpisode(learner, env, alpha, gamma, eps, q, draws).value)
  {
    RunEpisodeIs(learner, env, alpha, gamma, eps, q, draws, RunEpisode(learner, env, alpha, gamma, eps, q, draws).value);
  }

  /** An episode is what the learner's loop returns exactly when it
      replays that loop; so `RunEpisode` is `None` exactly when no episode
      replays it, that is, when the draws run out first. */
  lemma RunEpisodeIs(learner: Learner, env: Env, alpha: real, gamma: real, eps: real, q: QTable, draws: seq<Draw>, e: Episode)
    requires ValidActions(env.actionKeys) && Complete(env.actionKeys, q)
    ensures RunEpisode(learner, env, alpha, gamma, eps, q, draws) == Some(e) <==>
            EpisodeReplays(learner, env, alpha, gamma, eps, q, draws, e)
  {
    match learner
    case OffPolicy(rule) =>
    case OnPolicy =>
    case NStep(n, maxSteps) =>
      NStepEpisodeIs(env, n, alpha, gamma, eps, maxSteps, q, draws, e);
  }

  /** `e` is the learner's episode from the table `q` with the draws
      `draws`, step by step, from the start state with the reward total
      at 0: the off-policy loop body run on the table in force before
      each step; for SARSA, the first action chosen at the start state
      with the first draw, then the SARSA body from the table that choice
      left; for n-step SARSA, the n-step loop from that same choice with
      an empty buffer, and then the drain of the loop's last table over
      the window it ended with. */
  predicate EpisodeReplays(learner: Learner, env: Env, alpha: real, gamma: real, eps: real, q: QTable, draws: seq<Draw>, e: Episode)
    requires ValidActions(env.actionKeys) && Complete(env.actionKeys, q)
  {
    match learner
    case OffPolicy(rule) =>
      && EpisodeFrom(env, env.startPos, 0.0, e)
      && Replays(OffPolicyBody(rule, env, alpha, gamma, eps), q, env.startPos, None, draws, e)
    case OnPolicy =>
      && |draws| > 0 && |e.trace| > 0
      && var c := EpsilonGreedy(env.actionKeys, q, env.startPos, eps, draws[0]);
      && e.trace[0].action == c.action
      && EpisodeFrom(env, env.startPos, 0.0, e)
      && Replays(SarsaBody(env, alpha, gamma, eps), c.q, env.startPos, Some(c.action), draws[1..], e)
    case NStep(n, maxSteps) => EpisodeIs(env, n, alpha, gamma, eps, maxSteps, q, draws, e)
  }

  /** The episodes run so far: the table, each episode's walk, the
      reward history and the draws left. */
  datatype Progress = Progress(q: QTable, traces: seq<seq<Step>>, history: seq<real>, rest: seq<Draw>)

  /** `p` records `k` episodes: one walk per episode, each of the
      learner's shape, and one history entry per episode equal to the sum
      of that walk's rewards. */
  predicate Recorded(learner: Learner, env: Env, k: nat, p: Progress) {
    && Complete(env.actionKeys, p.q)
    && |p.traces| == k && |p.history| == k
    && (forall i :: 0 <= i < k ==> Shaped(learner, env, p.traces[i]))
    && (forall i :: 0 <= i < k ==> p.history[i] == RewardSum(p.traces[i]))
  }

  /** One episode as a function of the table and the draws it starts
      with; `None` where it cannot run or runs out of draws. */
  type Runner = (QTable, seq<Draw>) -> Option<Episode>

  /** The chosen learner's episode. */
  function Learn(learner: Learner, env: Env, alpha: real, gamma: real, eps: real): Runner {
    (q: QTable, ds: seq<Draw>) =>
      if ValidActions(env.actionKeys) && Complete(env.actionKeys, q) then RunEpisode(learner, env, alpha, gamma, eps, q, ds)
      else None
  }

  /** On a complete table, `Learn` runs `RunEpisode`. */
  lemma LearnIs(learner: Learner, env: Env, alpha: real, gamma: real, eps: real, q: QTable, ds: seq<Draw>)
    requires ValidActions(env.actionKeys) && Complete(env.actionKeys, q)
    ensures Learn(learner, env, alpha, gamma, eps)(q, ds) == RunEpisode(learner, env, alpha, gamma, eps, q, ds)
  {
  }

  /** Episode `i` of training from the table `q` with the draws `draws`:
      the first episode runs on `q` and `draws`, and each later one on the
      table and the draws the episode before it left. */
  function EpisodeAt(run: Runner, q: QTable, draws: seq<Draw>, i: nat): Option<Episode> {
    if i == 0 then run(q, draws)
    else
      match EpisodeAt(run, q, draws, i - 1)
      case None => None
      case Some(e) => run(e.q, e.rest)
  }

  /** Episode `i > 0` from `q` is episode `i - 1` from what the first
      episode left. */
  lemma {:induction false} EpisodeAtShift(run: Runner, q: QTable, draws: seq<Draw>, e: Episode, i: nat)
    requires run(q, draws) == Some(e)
    ensures i > 0 ==> EpisodeAt(run, q, draws, i) == EpisodeAt(run, e.q, e.rest, i - 1)
  {
    if i > 1 {
      EpisodeAtShift(run, q, draws, e, i - 1);
    }
  }

  /** `p` records the first `k` episodes of training from the table `q`
      with the draws `draws`: each walk and each history entry is that of
      the episode `EpisodeAt` runs, and the table and the draws left are
      those the last of them left (`q` and `draws` when `k` is 0). */
  predicate Follows(run: Runner, q: QTable, draws: seq<Draw>, k: nat, p: Progress) {
    && |p.traces| == k && |p.history| == k
    && (forall i :: 0 <= i < k ==> RecordsEpisode(run, q, draws, p, i))
    && (k == 0 ==> p.q == q && p.rest == draws)
    && (k > 0 ==>
          && EpisodeAt(run, q, draws, k - 1).Some?
          && p.q == EpisodeAt(run, q, draws, k - 1).value.q
          && p.rest == EpisodeAt(run, q, draws, k - 1).value.rest)
  }

  /** Entry `i` of the record `p` holds the walk and the reward total of
      episode `i` of training from `q` with `draws`. */
  predicate RecordsEpisode(run: Runner, q: QTable, draws: seq<Draw>, p: Progress, i: nat) {
    && i < |p.traces| && i < |p.history|
    && EpisodeAt(run, q, draws, i).Some?
    && p.traces[i] == EpisodeAt(run, q, draws, i).value.trace
    && p.history[i] == EpisodeAt(run, q, draws, i).value.total
  }

  /** An episode in front of the record of the episodes run from the
      table and the draws it left records one episode more. */
  lemma FollowsCons(run: Runner, q: QTable, draws: seq<Draw>, k: nat, e: Episode, p: Progress, r: Progress)
    requires run(q, draws) == Some(e) && Follows(run, e.q, e.rest, k, p)
    requires r.traces == [e.trace] + p.traces && r.history == [e.total] + p.history && r.q == p.q && r.rest == p.rest
    ensures Follows(run, q, draws, k + 1, r)
  {
    forall i | 0 <= i < k + 1
      ensures RecordsEpisode(run, q, draws, r, i)
    {
      FollowsAt(run, q, draws, k, e, p, r, i);
    }
    FollowsLast(run, q, draws, k, e, p, r);
  }

  /** Episode `0` of the longer record is `e`; episode `i > 0` is episode
      `i - 1` of the shorter. */
  lemma FollowsAt(run: Runner, q: QTable, draws: seq<Draw>, k: nat, e: Episode, p: Progress, r: Progress, i: nat)
    requires run(q, draws) == Some(e) && Follows(run, e.q, e.rest, k, p)
    requires r.traces == [e.trace] + p.traces && r.history == [e.total] + p.history && i < k + 1
    ensures RecordsEpisode(run, q, draws, r, i)
  {
    if i > 0 {
      EpisodeAtShift(run, q, draws, e, i);
      assert RecordsEpisode(run, e.q, e.rest, p, i - 1);
      assert r.traces[i] == p.traces[i - 1] && r.history[i] == p.history[i - 1];
    }
  }

  /** The longer record ends with the table and the draws the shorter one
      ends with. */
  lemma FollowsLast(run: Runner, q: QTable, draws: seq<Draw>, k: nat, e: Episode, p: Progress, r: Progress)
    requires run(q, draws) == Some(e) && Follows(run, e.q, e.rest, k, p)
    requires r.q == p.q && r.rest == p.rest
    ensures && EpisodeAt(run, q, draws, k).Some?
            && r.q == EpisodeAt(run, q, draws, k).value.q
            && r.rest == EpisodeAt(run, q, draws, k).value.rest
  {
    EpisodeAtShift(run, q, draws, e, k);
  }

  /** The `for _ in range(episodes)` loop with `k` episodes to go, for
      any episode `run`: each episode continues from the table and the
      draws the previous one left. */
  function Loop(run: Runner, q: QTable, draws: seq<Draw>, k: nat): (r: Option<Progress>)
    ensures r.Some? ==> Follows(run, q, draws, k, r.value)
    ensures k > 0 ==> (r.Some? <==> EpisodeAt(run, q, draws, k - 1).Some?)
    decreases k
  {
    if k == 0 then Some(Progress(q, [], [], draws))
    else
      match run(q, draws)
      case None =>
        EpisodeAtFails(run, q, draws, k - 1);
        None
      case Some(e) =>
        EpisodeAtShift(run, q, draws, e, k - 1);
        match Loop(run, e.q, e.rest, k - 1)
        case None => None
        case Some(p) =>
          var r := Progress(p.q, [e.trace] + p.traces, [e.total] + p.history, p.rest);
          FollowsCons(run, q, draws, k - 1, e, p, r);
          Some(r)
  }

  /** Once an episode fails, so does every later one. */
  lemma {:induction false} EpisodeAtFails(run: Runner, q: QTable, draws: seq<Draw>, i: nat)
    requires run(q, draws).None?
    ensures EpisodeAt(run, q, draws, i).None?
  {
    if i > 0 {
      EpisodeAtFails(run, q, draws, i - 1);
    }
  }

  /** Every episode training runs is of the learner's shape, totals its
      rewards and leaves a complete table. */
  lemma {:induction false} EpisodeAtShaped(learner: Learner, env: Env, alpha: real, gamma: real, eps: real, q: QTable,
                                           draws: seq<Draw>, i: nat)
    requires ValidActions(env.actionKeys) && Complete(env.actionKeys, q)
    requires EpisodeAt(Learn(learner, env, alpha, gamma, eps), q, draws, i).Some?
    ensures var e := EpisodeAt(Learn(learner, env, alpha, gamma, eps), q, draws, i).value;
            Shaped(learner, env, e.trace) && e.total == RewardSum(e.trace) && Complete(env.actionKeys, e.q)
  {
    if i == 0 {
      LearnIs(learner, env, alpha, gamma, eps, q, draws);
    } else {
      EpisodeAtShaped(learner, env, alpha, gamma, eps, q, draws, i - 1);
      var e := EpisodeAt(Learn(learner, env, alpha, gamma, eps), q, draws, i - 1).value;
      LearnIs(learner, env, alpha, gamma, eps, e.q, e.rest);
    }
  }

  /** A faithful record of the learner's episodes is `Recorded`. */
  lemma FollowsRecorded(learner: Learner, env: Env, alpha: real, gamma: real, eps: real, q: QTable, draws: seq<Draw>,
                        k: nat, p: Progress)
    requires ValidActions(env.actionKeys) && Complete(env.actionKeys, q)
    requires Follows(Learn(learner, env, alpha, gamma, eps), q, draws, k, p)
    ensures Recorded(learner, env, k, p)
  {
    forall i | 0 <= i < k
      ensures Shaped(learner, env, p.traces[i]) && p.history[i] == RewardSum(p.traces[i])
    {
      assert RecordsEpisode(Learn(learner, env, alpha, gamma, eps), q, draws, p, i);
      EpisodeAtShaped(learner, env, alpha, gamma, eps, q, draws, i);
    }
    if k > 0 {
      EpisodeAtShaped(learner, env, alpha, gamma, eps, q, draws, k - 1);
    }
  }

  /** A faithful record's history holds each episode's reward total. */
  lemma FollowsHistory(run: Runner, q: QTable, draws: seq<Draw>, k: nat, p: Progress)
    requires Follows(run, q, draws, k, p)
    ensures forall i :: 0 <= i < k ==>
              EpisodeAt(run, q, draws, i).Some? && p.history[i] == EpisodeAt(run, q, draws, i).value.total
  {
    forall i | 0 <= i < k
      ensures EpisodeAt(run, q, draws, i).Some? && p.history[i] == EpisodeAt(run, q, draws, i).value.total
    {
      assert RecordsEpisode(run, q, draws, p, i);
    }
  }

  /** The training loop of the chosen learner. */
  function TrainLoop(learner: Learner, env: Env, alpha: real, gamma: real, eps: real, q: QTable, k: nat,
                     draws: seq<Draw>): (r: Option<Progress>)
    requires ValidActions(env.actionKeys) && Complete(env.actionKeys, q)
    ensures r.Some? ==> Recorded(learner, env, k, r.value)
    ensures r.Some? ==> Follows(Learn(learner, env, alpha, gamma, eps), q, draws, k, r.value)
    ensures k > 0 ==> (r.Some? <==> EpisodeAt(Learn(learner, env, alpha, gamma, eps), q, draws, k - 1).Some?)
  {
    var r := Loop(Learn(learner, env, alpha, gamma, eps), q, draws, k);
    if r.Some? then
      FollowsRecorded(learner, env, alpha, gamma, eps, q, draws, k, r.value);
      r
    else r
  }

  /** What training returns: the final table, its greedy policy and the
      reward history. */
  datatype Trained = Trained(q: QTable, policy: map<State, Action>, history: seq<real>)

  /** Training from the empty table; `None` when the draws run out before
      the last episode ends. */
  function Train(learner: Learner, env: Env, episodes: nat, alpha: real, gamma: real, eps: real, draws: seq<Draw>): (r: Option<Trained>)
    requires ValidActions(env.actionKeys)
    ensures r.Some? ==> |r.value.history| == episodes && Complete(env.actionKeys, r.value.q)
    ensures r.Some? ==> r.value.policy.Keys == r.value.q.Keys
    ensures r.Some? ==> exists traces: seq<seq<Step>> {:trigger |traces|} :: && |traces| == episodes
                          && (forall i :: 0 <= i < episodes ==> Shaped(learner, env, traces[i]))
                          && (forall i :: 0 <= i < episodes ==> r.value.history[i] == RewardSum(traces[i]))
    ensures r.Some? ==> forall i :: 0 <= i < episodes ==>
              && EpisodeAt(Learn(learner, env, alpha, gamma, eps), map[], draws, i).Some?
              && r.value.history[i] == EpisodeAt(Learn(learner, env, alpha, gamma, eps), map[], draws, i).value.total
    ensures episodes > 0 ==> (r.Some? <==> EpisodeAt(Learn(learner, env, alpha, gamma, eps), map[], draws, episodes - 1).Some?)
    ensures r.Some? && episodes == 0 ==> r.value.q == map[]
    ensures r.Some? && episodes > 0 ==>
              && EpisodeAt(Learn(learner, env, alpha, gamma, eps), map[], draws, episodes - 1).Some?
              && r.value.q == EpisodeAt(Learn(learner, env, alpha, gamma, eps), map[], draws, episodes - 1).value.q
  {
    match TrainLoop(learner, env, alpha, gamma, eps, map[], episodes, draws)
    case None => None
    case Some(p) =>
      assert |p.traces| == episodes;
      FollowsHistory(Learn(learner, env, alpha, gamma, eps), map[], draws, episodes, p);
      Some(Trained(p.q, GreedyPolicy(env.actionKeys, p.q), p.history))
  }

  /** The trained policy picks, in every state the table has a row for,
      an action of largest value, and the first such action in the order
      of the action keys. */
  lemma TrainedPolicyIsGreedy(learner: Learner, env: Env, episodes: nat, alpha: real, gamma: real, eps: real, draws: seq<Draw>)
    requires ValidActions(env.actionKeys) && Train(learner, env, episodes, alpha, gamma, eps, draws).Some?
    ensures var t := Train(learner, env, episodes, alpha, gamma, eps, draws).value;
            && (forall s, b :: s in t.q && b in env.actionKeys ==> t.q[s][b] <= t.q[s][t.policy[s]])
            && (forall s, i, j :: s in t.q && 0 <= j < i < |env.actionKeys| && env.actionKeys[i] == t.policy[s] ==>
                  t.q[s][env.actionKeys[j]] < t.q[s][t.policy[s]])
  {
    var t := Train(learner, env, episodes, alpha, gamma, eps, draws).value;
    GreedyPolicyMaximises(env.actionKeys, t.q);
  }
}
