# Tabular reinforcement learning: solvers, TD learners and the cliff walk

This project models the algorithm core of a small tabular reinforcement
learning code base and proves properties of the model. It covers four
groups of code:

- **Dynamic-programming solvers** (`Homework1/source/algorithm.py`):
  value iteration, policy iteration and truncated policy iteration. They
  run over a finite MDP with an ordered state list, an ordered list of
  action labels, a goal state and a total `step(s, a) -> (next, reward,
  done)`.
- **Temporal-difference learners** (`Homework2/source/algorithm.py`):
  - the epsilon-greedy choice;
  - Q-learning, SARSA, Expected SARSA and n-step SARSA;
  - the training driver. Each Python learner repeats its own episode
    loop: it runs episodes, records each episode's reward total and
    returns the greedy policy of the final table. The model writes that
    loop once, as `Training.Loop`, generic in the learner's episode.
- **The cliff-walk transition rule** (`Homework2/source/cliffwalk.py`).
  Stepping from the goal keeps the agent there. An unknown action is an
  error. A move onto a cliff cell sends the agent back to the start with
  the cliff penalty. Every other move is the underlying maze's own step.
- **The Q-to-V projection** (`Homework2/source/visualization.py`): the
  value of a state is the largest entry of its row.

## Representation

- A state is a `(row, column)` pair and an action is a string. The empty
  string is the goal's policy entry.
- Value tables and policies are `map`s. A Q-table is a
  `map<State, map<Action, real>>`. Reading the row of an unseen state
  creates an all-zero row, so a Q-table only grows, one complete row at a
  time.
- Arithmetic is on `real`.
- Python's `random` is replaced by an explicit sequence of draws.
  - A `Draw(u, pick)` stands for one epsilon-greedy choice.
  - `u` is compared with epsilon.
  - `pick` selects among the candidates modulo their number.
  - An episode that runs out of draws yields `None`. `Training.RunEpisodeIs`
    states that `None` comes exactly when no episode of the learner's loop
    replays with the draws given.
- The `while True` loops of the solvers carry a fuel bound. `None`
  reports that the fuel ran out: `PolicyIteration.PILoop` and its
  relatives return every reference run that ends within the fuel.

The modules follow the Python files:

| module | models |
|---|---|
| `Common` | shared helpers |
| `Mdp` | the environment contract, lookahead values and the solvers' first-maximum greedy action |
| `ValueIteration`, `PolicyIteration` | the three solvers |
| `QTables` | lazily created rows, `max(row, key=row.get)`, the epsilon-greedy choice and the final policy |
| `TdLearning` | Q-learning, SARSA and Expected SARSA |
| `NStepSarsa` | n-step SARSA |
| `Training` | the episode loop each learner repeats, written once for all four |
| `CliffWalk` | the cliff-walk transition rule |
| `Visualization` | `q_to_v_table` |

## Model

| member | source | states |
|---|---|---|
| Common.SweepsUntil | Homework1/source/algorithm.py:37-70 | A repeat-until-converged loop stops after the first sweep whose change is below theta. Every earlier sweep changed by theta or more. Running out of fuel means no sweep within the bound converged. |
| Mdp.ZeroTable | Homework1/source/algorithm.py:28 | The initial table has exactly the environment's states, all at 0. |
| Mdp.FirstBestIndexIsFirstMax | Homework1/source/algorithm.py:58 | The insertion-order scan of `max(action_values, key=...)` lands on a largest lookahead value. Every action scanned before it is strictly worse. |
| Mdp.GreedyActionIsFirstMax | Homework1/source/algorithm.py:51-59 | The solvers' best action attains the largest `reward + gamma * v[next]`. Every action listed before it does strictly worse, so ties go to the first in `action_keys` order. |
| Mdp.GreedyAction | Homework1/source/algorithm.py:58 | The action `max(action_values, key=...)` returns is one of `action_keys`. |
| Mdp.BestValueIsMax | Homework1/source/algorithm.py:51-60 | The backed-up value is the maximum over actions of the lookahead values: no action beats it and some action attains it. |
| ValueIteration.BlankPolicy | Homework1/source/algorithm.py:29 | Value iteration's initial policy maps every state to the empty label. |
| ValueIteration.SweepValues | Homework1/source/algorithm.py:44-60 | A sweep's value writes keep the table's states and leave the goal's entry as it was. |
| ValueIteration.SweepPolicy | Homework1/source/algorithm.py:44-59 | A sweep's policy writes keep the policy's states and leave the goal's entry as it was. |
| ValueIteration.LargestChange | Homework1/source/algorithm.py:62-63 | `delta = max(delta, abs(...))` never decreases during a sweep. |
| ValueIteration.NextTable | Homework1/source/algorithm.py:44-60 | The table after one whole sweep keeps the same states and the goal's value. `SweepIsBellmanBackup` states what it holds. |
| ValueIteration.NextPolicy | Homework1/source/algorithm.py:57-59 | The policy after one whole sweep keeps the same states and the goal's entry. `SweepIsBellmanBackup` states which action each state gets. |
| ValueIteration.SweepDelta | Homework1/source/algorithm.py:40-63 | A sweep's `delta`, started at 0 and raised by `max`, is never negative. `LargestChangeIsMax` states which change it is. |
| ValueIteration.SweepValuesComputes | Homework1/source/algorithm.py:44-60 | During a sweep, every non-goal state gets the Bellman-optimal backup of the pre-sweep copy, whatever its position in the state list. All other entries are untouched. |
| ValueIteration.SweepPolicyComputes | Homework1/source/algorithm.py:57-59 | During a sweep, every non-goal state's policy entry becomes its first greedy action under the pre-sweep copy. The goal's entry is kept. |
| ValueIteration.LargestChangeIsMax | Homework1/source/algorithm.py:62-63 | The running `delta` bounds the absolute change of every visited non-goal state. It equals one of those changes, or its starting value. |
| ValueIteration.SweepIsBellmanBackup | Homework1/source/algorithm.py:41-63 | One sweep is the synchronous Bellman-optimality backup and does not depend on the state order. Each non-goal state gets the maximum over actions and the first action attaining it. `delta` is the largest change over non-goal states, or 0 when there is none. |
| ValueIteration.ZeroDeltaIsOptimalFixedPoint | Homework1/source/algorithm.py:63-70 | A sweep with `delta` 0 found a fixed point: every non-goal value already equals its Bellman-optimal backup and the sweep returns the same table. |
| ValueIteration.Snapshot | Homework1/source/algorithm.py:45-47 | Every table value iteration produces covers exactly the states and keeps the goal at 0. |
| ValueIteration.PolicyAfter | Homework1/source/algorithm.py:29 | The policy after any number of sweeps covers exactly the states, and the goal keeps the empty label. |
| ValueIteration.History | Homework1/source/algorithm.py:33 | After `n` sweeps the history holds `n + 1` tables: the zero table, then one snapshot per sweep. |
| ValueIteration.ValueIteration | Homework1/source/algorithm.py:20-73 | A result comes after the first sweep whose `delta` is below theta; every earlier sweep had a `delta` of theta or more. The result has one history entry per sweep after the zero table, the last snapshot, and the policy the sweeps left. `None` means no sweep within the fuel converged. |
| ValueIteration.ValueIterationIsGreedy | Homework1/source/algorithm.py:51-66 | The returned history starts with the zero table and every snapshot keeps the goal at 0. The returned policy is blank at the goal and greedy for the table the last sweep read. Every non-goal value is that table's Bellman-optimal backup. |
| PolicyIteration.InitialPolicy | Homework1/source/algorithm.py:84-85 | The random initial policy gives the goal `''` and every other state the action `random.choice` picked. |
| PolicyIteration.InPlaceValues | Homework1/source/algorithm.py:100-107 | An in-place evaluation sweep keeps the table's states and the goal's value. |
| PolicyIteration.InPlaceDelta | Homework1/source/algorithm.py:100-107 | The in-place sweep's `delta` never decreases while the states are visited. |
| PolicyIteration.ZeroDeltaIsFixedPoint | Homework1/source/algorithm.py:98-110 | An in-place evaluation sweep with `delta` 0 leaves the table unchanged. The table then solves the policy's Bellman expectation equation at every non-goal state. |
| PolicyIteration.EvalTable | Homework1/source/algorithm.py:98-110 | Any number of in-place evaluation sweeps keeps the table's states and the goal's value. |
| PolicyIteration.EvaluationSweeps | Homework1/source/algorithm.py:98-110 | Full evaluation runs in-place sweeps until the first one whose `delta` is below theta; every earlier sweep had a `delta` of theta or more. |
| PolicyIteration.FrozenValues | Homework1/source/algorithm.py:166-171 | A truncated sweep's writes keep the table's states and the goal's value. |
| PolicyIteration.FrozenValuesComputes | Homework1/source/algorithm.py:165-171 | A truncated sweep gives every non-goal state the expectation backup of the per-sweep copy, whatever its position. The goal is untouched. |
| PolicyIteration.TruncatedEval | Homework1/source/algorithm.py:165-171 | `j_truncate` sweeps keep the table's states and the goal's value. |
| PolicyIteration.TruncatedSweepIsSynchronous | Homework1/source/algorithm.py:165-171 | Each truncated sweep is the synchronous backup `reward + gamma * v_old[next]` of the table before it. |
| PolicyIteration.StableIffGreedy | Homework1/source/algorithm.py:117-133 | `policy_stable` stays true exactly when every non-goal state already holds its greedy action. |
| PolicyIteration.ImproveIsGreedy | Homework1/source/algorithm.py:117-137 | Improvement keeps the policy's shape: `''` at the goal and an action elsewhere. It makes the policy greedy for the evaluated table. The stable flag is set exactly when the improved policy equals the old one. |
| PolicyIteration.Improve | Homework1/source/algorithm.py:118-129 | The improved policy keeps `''` at the goal and an action elsewhere, and is greedy for the evaluated table. |
| PolicyIteration.Evaluate | Homework1/source/algorithm.py:98-110 | Evaluation keeps the table over exactly the states with the goal at 0. It succeeds exactly when the in-place sweeps converge within the fuel, and then returns the table those sweeps left. |
| PolicyIteration.EvaluateBy | Homework1/source/algorithm.py:98-110 | The evaluation step of an outer round: for policy iteration the in-place sweeps until convergence, for truncated policy iteration exactly `j_truncate` synchronous sweeps, as at lines 165-171. Both keep the table's states and the goal at 0. |
| PolicyIteration.UnstableChanges | Homework1/source/algorithm.py:117-137 | A round whose improvement pass leaves `policy_stable` false hands the next round a different policy. |
| PolicyIteration.ChainIsRuns | Homework1/source/algorithm.py:93-137 | A loop's record of rounds is the reference rounds from the starting policy and table. Round `k + 1`'s table is the `k`-th recorded one. Every round but the last changed the policy. The last round changed nothing and ends on the returned policy and table. |
| PolicyIteration.RoundEvaluates | Homework1/source/algorithm.py:95-110 | In a run from the zero table, round `k + 1` reads the recorded table `h[k]` with the policy then in force and evaluates it into `h[k + 1]`. |
| PolicyIteration.StartsFromZero | Homework1/source/algorithm.py:86-90 | A history grown from `[v.copy()]` of the zero table starts with the zero table, and every table in it keeps the goal at 0. |
| PolicyIteration.PILoop | Homework1/source/algorithm.py:93-137 | Each outer iteration evaluates the policy then in force in place from the previous table and appends the result, then improves the policy. The loop returns the last table and stops only on a round whose improvement pass found nothing to change. Every earlier round changed the policy. Conversely, every run of the reference rounds that ends within `fuel` rounds is what the loop returns, so `None` means no stable round within the fuel or an evaluation that ran out. |
| PolicyIteration.PolicyIteration | Homework1/source/algorithm.py:76-140 | Policy iteration returns a history of the zero table followed by one table per outer iteration, at most `fuel` of them. The last table is the returned value table, which has the goal at 0. It stops on a stable round. Every run of the reference rounds from the initial policy and the zero table that ends within `fuel` rounds is what it returns. |
| PolicyIteration.PolicyIterationEvaluates | Homework1/source/algorithm.py:76-140 | Behind the zero table, the history holds one table per round of the reference started from the random initial policy. Round `k + 1` evaluates the policy then in force in place from `h[k]` and yields `h[k + 1]`. Every round but the last changed the policy. |
| PolicyIteration.PolicyIterationIsGreedy | Homework1/source/algorithm.py:117-137 | The returned policy has `''` at the goal and an action elsewhere. It is greedy for the returned table and a fixed point of improvement. The history starts with the zero table and every entry keeps the goal at 0. |
| PolicyIteration.TPILoop | Homework1/source/algorithm.py:160-194 | Each truncated outer iteration runs exactly `j_truncate` synchronous sweeps of the policy then in force from the previous table and appends the result, then improves the policy. It stops only on a stable round. Every earlier round changed the policy. Every run of the truncated reference rounds that ends within `fuel` rounds is what the loop returns. |
| PolicyIteration.NoChain | Homework1/source/algorithm.py:93-110 | When the first round's evaluation has no result, no run of the reference rounds exists from there. |
| PolicyIteration.ChainStopsAt | Homework1/source/algorithm.py:117-137 | A run of the reference rounds whose first round is stable is that one round, ending on the policy it started from. |
| PolicyIteration.ChainGoesOn | Homework1/source/algorithm.py:117-137 | A run whose first round is not stable records that round's table and goes on as a run from the improved policy and that table. |
| PolicyIteration.FindsFurther | Homework1/source/algorithm.py:93-137 | If the loop after an unstable round returns every run from the improved policy that ends within the fuel left, the loop from before that round returns every run that ends within one round more. |
| PolicyIteration.TruncatedPolicyIteration | Homework1/source/algorithm.py:143-197 | Truncated policy iteration has the same history and stopping guarantees as policy iteration, and returns every run of the truncated reference rounds from the initial policy and the zero table that ends within `fuel` rounds. |
| PolicyIteration.TruncatedPolicyIterationEvaluates | Homework1/source/algorithm.py:143-197 | Behind the zero table, the history holds one table per round started from the random initial policy. `h[k + 1]` is `j_truncate` synchronous sweeps of the policy in force in round `k + 1`, starting from `h[k]`. Every round but the last changed the policy. |
| PolicyIteration.TruncatedPolicyIterationIsGreedy | Homework1/source/algorithm.py:178-194 | The policy truncated policy iteration returns is well shaped, greedy for the returned table and stable under improvement. Its history starts with the zero table and keeps the goal at 0. |
| QTables.ZeroRow | Homework2/source/algorithm.py:56 | A fresh row has exactly one entry per action, each 0.0. |
| QTables.Touch | Homework2/source/algorithm.py:56 | Reading a row creates it all-zero when missing and changes no other row. No row is ever partially initialised. |
| QTables.ReadRow | Homework2/source/algorithm.py:35 | `q_table[state]` returns a complete row holding what each entry read returns, which is the row the table holds afterwards. |
| QTables.SetEntry | Homework2/source/algorithm.py:80 | Writing `q_table[s][a]` changes that entry only. |
| QTables.FirstMaxKey | Homework2/source/algorithm.py:87 | The scan of `max(row, key=row.get)` over the first `n` actions returns a position among them. |
| QTables.FirstMaxKeyIsFirstMax | Homework2/source/algorithm.py:87 | `max(row, key=row.get)` lands on a largest entry, and every action before it in row order is strictly smaller. |
| QTables.ArgMax | Homework2/source/algorithm.py:87 | The key `max` returns is a listed action with an entry in the row. |
| QTables.RowMaxIsMax | Homework2/source/algorithm.py:37 | `max(q_values.values())` bounds every entry of the row and is attained by the first maximal action. |
| QTables.Ties | Homework2/source/algorithm.py:39 | The tie list holds exactly the actions whose value equals the maximum. |
| QTables.Exploit | Homework2/source/algorithm.py:34-40 | The exploit branch creates the row of the state and returns an action whose value is the row maximum. |
| QTables.EpsilonGreedy | Homework2/source/algorithm.py:22-40 | The choice is always a listed action and changes no value the table reads. A draw below epsilon explores without touching the table. Otherwise the row is created and the chosen action attains the row maximum. |
| QTables.ExploitChoosesMax | Homework2/source/algorithm.py:35-40 | On the exploit branch no action has a larger value than the chosen one. |
| QTables.EveryTieIsChosen | Homework2/source/algorithm.py:39-40 | Every action tied at the maximum is returned for some `random.choice` draw. |
| QTables.ZeroEpsilonNeverExplores | Homework2/source/algorithm.py:30-40 | With epsilon 0 a uniform draw never explores: the choice always attains the row maximum. |
| QTables.GreedyPolicy | Homework2/source/algorithm.py:87 | The final policy has one entry per row of the table, each a listed action. |
| QTables.GreedyPolicyMaximises | Homework2/source/algorithm.py:87 | Each policy entry maximises its row, and no action listed before it attains the maximum. |
| TdLearning.Blend | Homework2/source/algorithm.py:73-80 | The shared TD write sets `Q[s][a]` to `old + alpha * (target - old)` and changes no other entry. The only row it may create is the row of `s`. |
| TdLearning.QLearningStep | Homework2/source/algorithm.py:73-80 | A Q-learning step creates the rows of the current and next state and no others. |
| TdLearning.QLearningStepUpdates | Homework2/source/algorithm.py:73-80 | A Q-learning step rewrites only `Q[s][a]`, to `old + alpha * (r + gamma * max(Q[next]) - old)`. |
| TdLearning.SarsaStep | Homework2/source/algorithm.py:120-127 | A SARSA step creates the rows of the current and next state and no others. |
| TdLearning.SarsaStepUpdates | Homework2/source/algorithm.py:120-127 | A SARSA step rewrites only `Q[s][a]`, to `old + alpha * (r + gamma * Q[next][next_action] - old)`. |
| TdLearning.WeightSumOfPrefix | Homework2/source/algorithm.py:170-175 | The weights of the first `n` actions sum to `n * eps/|A|`, plus `1 - eps` once the greedy action has been passed. |
| TdLearning.WeightsSumToOne | Homework2/source/algorithm.py:170-175 | The Expected SARSA weights `1 - eps + eps/|A|` and `eps/|A|` sum to 1. |
| TdLearning.WeightedSumBetween | Homework2/source/algorithm.py:169-175 | For `0 <= eps <= 1`, the running `expected_q` lies between its total weight times a lower bound of the row and times an upper bound. |
| TdLearning.ExpectedValueWithinRow | Homework2/source/algorithm.py:165-175 | For `0 <= eps <= 1`, `expected_q` lies between the row's smallest and largest entries. |
| TdLearning.GreedyWeightedSum | Homework2/source/algorithm.py:169-175 | With eps 0, a prefix of `expected_q` is the greedy action's value once it has been passed, and 0 before. |
| TdLearning.GreedyExpectationIsMax | Homework2/source/algorithm.py:165-177 | With eps 0, `expected_q` is `max(Q[next])`, so the Expected SARSA target becomes the Q-learning target. |
| TdLearning.ExpectedSarsaStep | Homework2/source/algorithm.py:161-179 | An Expected SARSA step creates the rows of the current and next state and no others. |
| TdLearning.ExpectedSarsaStepUpdates | Homework2/source/algorithm.py:161-179 | An Expected SARSA step rewrites only `Q[s][a]`, to `old + alpha * (r + gamma * expected_q - old)`. |
| TdLearning.OffPolicyMove | Homework2/source/algorithm.py:64-82 | One loop pass takes a listed action from the current state and records exactly what `env.step` returned. |
| TdLearning.OffPolicyMoveUpdates | Homework2/source/algorithm.py:64-80 | A pass executes the epsilon-greedy choice at the current state. It rewrites only that pair's entry, to `old + alpha * (r + gamma * x - old)`. `x` is `max(Q[next])` for Q-learning and `expected_q` of `Q[next]` for Expected SARSA, whose loop at lines 161-179 has the same shape. |
| TdLearning.OffPolicyEpisode | Homework2/source/algorithm.py:58-84 | A Q-learning or Expected SARSA episode is a walk through the environment from its state that ends on the first `done`. Its first step is the loop pass on the first draw. Its reward total grows by exactly that walk's rewards, and the table stays complete. Step `i` is the loop pass with draw `i` on the table step `i - 1` left. The returned table is the last step's, and the draws left are exactly those after the ones used. Conversely, every episode from the state that the loop pass replays with these draws is the one returned, so `None` means the draws ran out before `done`. |
| TdLearning.OffPolicyBodyIs | Homework2/source/algorithm.py:64-82 | On a complete table, the off-policy loop body is one Q-learning or Expected SARSA pass. |
| TdLearning.ReplaysCons | Homework2/source/algorithm.py:64-82 | A pass in front of an episode that replays from the table that pass left gives an episode that replays from the table before it. |
| TdLearning.EpisodesFinds | Homework2/source/algorithm.py:64-84 | Any episode that the loop body replays with these draws and that ends on its first `done` is the one the `while not done` loop returns. |
| TdLearning.ReplaysTail | Homework2/source/algorithm.py:64-82 | An episode that replays is the body's first pass followed by an episode that replays from what that pass left, with one draw fewer. |
| TdLearning.OffPolicyStepAt | Homework2/source/algorithm.py:64-82 | Step `i` of an off-policy episode is the Q-learning or Expected SARSA pass on the table and at the state in force before it, with draw `i`. |
| TdLearning.OffPolicyWalk | Homework2/source/algorithm.py:58-84 | An off-policy episode that replays and ends is a walk through the environment from its state whose first step is the pass on the first draw. |
| TdLearning.OffPolicyEpisodeFinds | Homework2/source/algorithm.py:58-84 | Every walk from the state that the off-policy pass replays with these draws is the episode the loop returns. |
| TdLearning.SarsaMove | Homework2/source/algorithm.py:111-131 | One SARSA pass steps with the action in hand and chooses a listed next action at the state reached. |
| TdLearning.SarsaEpisode | Homework2/source/algorithm.py:104-133 | A SARSA episode is a walk that ends on the first `done` and starts with the chosen first action. Each step's next action is the action of the step after it. Step `i` is the SARSA pass with draw `i` on the table step `i - 1` left. The returned table is the last step's, and the draws left are exactly those after the ones used. Conversely, every episode from the state that the SARSA pass replays with the action in hand and these draws is the one returned. |
| TdLearning.SarsaBodyIs | Homework2/source/algorithm.py:111-131 | On a complete table and a listed action, the SARSA loop body is one SARSA pass. |
| TdLearning.SarsaStepAt | Homework2/source/algorithm.py:111-131 | Step `i` of a SARSA episode takes the action in hand, a listed one, and is the SARSA pass on the table and at the state in force before it, with draw `i`. |
| TdLearning.SarsaWalk | Homework2/source/algorithm.py:104-133 | A SARSA episode that replays and ends is a walk from its state that starts with the chosen action and executes each chosen next action on the step after. |
| TdLearning.SarsaEpisodeFinds | Homework2/source/algorithm.py:104-133 | Every walk from the state that the SARSA pass replays with the action in hand and these draws is the episode the loop returns. |
| TdLearning.SarsaTargetIsNextAction | Homework2/source/algorithm.py:116-131 | The SARSA target uses `Q[next][next_action]` for the epsilon-greedy choice at the next state, and that same action is executed on the next step. |
| NStepSarsa.Experiences | Homework2/source/algorithm.py:221 | The buffer gets one experience per step taken. |
| NStepSarsa.DiscountedRecursion | Homework2/source/algorithm.py:236-240 | The left-to-right sum `sum(gamma**i * r_i)` satisfies the return recursion `G = r_0 + gamma * G'`, where `G'` is the same sum over the rewards after the first. |
| NStepSarsa.ForwardUpdate | Homework2/source/algorithm.py:231-252 | The n-step update creates the row of the updated state and, when it bootstraps, the row of the next state. The table stays complete. |
| NStepSarsa.ForwardUpdateWrites | Homework2/source/algorithm.py:231-252 | The update changes only the oldest buffered pair. It moves that pair's entry a step `alpha` toward `sum(gamma**i * r_i) + gamma**n * Q[next][next_action]`; the bootstrap term is added when a next state and action are given and left out otherwise. |
| NStepSarsa.OneStepIsSarsa | Homework2/source/algorithm.py:236-252 | With `n = 1` the n-step update is the SARSA update. |
| NStepSarsa.Slide | Homework2/source/algorithm.py:221-255 | Appending an experience, and popping the oldest once the buffer reached `n`, keeps the buffer within the loop's window size: at most `n - 1` entries, and none when `n` is 0. With `n >= 1` it keeps fewer than `n` entries. |
| NStepSarsa.SlideKeeps | Homework2/source/algorithm.py:221-255 | The slid buffer is the buffer with the new experience appended, or that without its oldest entry, so it holds only what was buffered and the new experience. |
| NStepSarsa.WindowSlide | Homework2/source/algorithm.py:221-255 | The buffer after any number of further steps is still the last `min(k, n - 1)` experiences of everything seen, and empty when `n` is 0. |
| NStepSarsa.NStepMove | Homework2/source/algorithm.py:216-260 | A non-final pass takes the action in hand and chooses a listed next action. |
| NStepSarsa.NStepMoveUpdates | Homework2/source/algorithm.py:216-252 | On a non-final step the next action is the epsilon-greedy choice at the state reached. Once the buffer holds `n`, only the oldest pair's entry moves, a step `alpha` toward `sum(gamma**i * r_i) + gamma**n * Q[next][next_action]`. Before that, every entry reads as before. |
| NStepSarsa.LastMove | Homework2/source/algorithm.py:216-255 | The pass on the step that ends the episode records exactly what `env.step` returned from the state with the action in hand, marks it done, chooses no next action, and keeps the table complete. |
| NStepSarsa.NStepLastUpdates | Homework2/source/algorithm.py:216-252 | In `LastMove`, on the step that ends the episode, once the buffer holds `n`, only the oldest pair's entry moves, a step `alpha` toward `sum(gamma**i * r_i)` with no bootstrap term. Before that, the table is unchanged. |
| NStepSarsa.NStepLoop | Homework2/source/algorithm.py:215-260 | The loop walks through the environment with chained actions and takes at most `max_steps_per_episode` steps. It stops on `done` or on the step bound. It leaves in the buffer exactly the last `min(k, n - 1)` experiences of the walk, and none when `n` is 0. Step by step it is the loop body: pass `i` runs on the table pass `i - 1` left, with the buffer then in force and the draws after the `i` used so far. The returned table is the last pass's, and the draws left are exactly the unused ones. Conversely, every such run that the loop body replays with these draws is the one returned, so `None` means the draws ran out before `done` and the step bound. |
| NStepSarsa.RunsSound | Homework2/source/algorithm.py:215-260 | Whatever the `while not done and step_counter < max_steps_per_episode` loop returns, for any body, the body replays step by step, and it stops on its first `done` or on the step bound with the window of what it saw. |
| NStepSarsa.RunsFinds | Homework2/source/algorithm.py:215-260 | Any run that the body replays with these draws and that stops is the one the loop returns. |
| NStepSarsa.BufAtWindow | Homework2/source/algorithm.py:221-255 | The buffer before step `i` is the window of everything seen by then. |
| NStepSarsa.NStepStepAt | Homework2/source/algorithm.py:216-260 | Step `i` of a run the n-step body replays takes the listed action in hand. It is `LastMove` when it ends the episode and otherwise the non-final pass with draw `i`, on the table, buffer and state in force before it. |
| NStepSarsa.NStepBodySome | Homework2/source/algorithm.py:216-260 | A pass of the loop body ran on a complete table, a listed action in hand and a listed buffer. It is `LastMove` on `done` and otherwise the non-final pass with the first draw. |
| NStepSarsa.NStepWalk | Homework2/source/algorithm.py:215-260 | A run the n-step body replays and that stops is a chained walk through the environment within the step bound, with the window of the walk in its buffer. |
| NStepSarsa.NStepLoopFinds | Homework2/source/algorithm.py:215-260 | Every such walk that the n-step body replays with these draws is the one the loop returns. |
| NStepSarsa.Drain | Homework2/source/algorithm.py:264-280 | The drain creates only the rows of buffered states and keeps the table complete. |
| NStepSarsa.DrainFrame | Homework2/source/algorithm.py:264-280 | The drain leaves every pair it never buffered unchanged. |
| NStepSarsa.DrainWritesReturn | Homework2/source/algorithm.py:264-280 | A pair buffered once, at position `i`, ends the drain moved a step `alpha` toward the discounted rewards from `i` to the end of the buffer, with no bootstrap term. |
| NStepSarsa.NStepEpisode | Homework2/source/algorithm.py:203-282 | An n-step episode is a chained walk from the start state of at most `max_steps_per_episode` steps that ends on `done` or on the bound. Its total is the sum of its rewards. Every loop that replays from the first choice and stops gives, once drained, the episode returned. |
| NStepSarsa.LoopOf | Homework2/source/algorithm.py:215-262 | The loop an episode ran, read off the episode, has its walk, tables, total and leftover draws, the table of its last step, and the window of its walk as buffer. |
| NStepSarsa.NStepEpisodeIs | Homework2/source/algorithm.py:203-282 | The episode returns `e` exactly when `e` is the drain of a loop that the n-step body replays from the first choice and that stops within the step bound. So `None` comes exactly when the draws run out first. |
| NStepSarsa.FinalRun | Homework2/source/algorithm.py:208-262 | The loop starts with the epsilon-greedy first action at the start state. It leaves behind the window of the walk's last experiences. From the table that first choice left and an empty buffer, every pass is the loop body run on the table the pass before it left. Conversely, every such loop is the one returned. |
| NStepSarsa.WindowOf | Homework2/source/algorithm.py:221-255 | The buffer the loop holds after seeing some experiences is their last `min(k, n - 1)`, in order. |
| NStepSarsa.BufAtCons | Homework2/source/algorithm.py:221-255 | The buffer before step `i + 1` of a walk is the buffer before step `i` of the rest of the walk, once the first experience has been slid in. |
| NStepSarsa.NStepBodyIs | Homework2/source/algorithm.py:216-260 | The loop body is the final pass on `done` and otherwise the non-final pass with the next draw. |
| NStepSarsa.RunReplaysCons | Homework2/source/algorithm.py:215-260 | A non-final pass in front of a loop that replays from the table and the buffer it left gives a loop that replays from the start. |
| NStepSarsa.FirstAction | Homework2/source/algorithm.py:212 | The first action of an episode is a listed action. |
| NStepSarsa.EpisodeDrainsWindow | Homework2/source/algorithm.py:262-280 | The episode's table is the drain of the loop's final buffer. That buffer holds exactly the last `n - 1` experiences of the walk, all of them for a shorter walk, and none when `n` is 0. The episode's walk and leftover draws are the loop's. |
| Training.RunEpisode | Homework2/source/algorithm.py:59-84 | Every learner's episode starts at the start state and follows the environment. It ends on `done`, or on the step bound for n-step SARSA. Its total is the sum of the rewards seen. |
| Training.RunEpisodeReplays | Homework2/source/algorithm.py:58-84 | Every episode is its learner's loop, step by step. For Q-learning and Expected SARSA each step is the loop pass on the table the step before left. SARSA first chooses its action at the start state and then runs its passes. n-step SARSA runs its loop from that same choice and ends on the drain of the loop's last table. Each episode walks from the start state and stops on its first `done`, or on the step bound for n-step SARSA. |
| Training.RunEpisodeIs | Homework2/source/algorithm.py:58-84 | A learner's episode returns `e` exactly when `e` replays that learner's loop with the draws given. So `None` means no episode of that loop exists for these draws. |
| Training.EpisodeAtShift | Homework2/source/algorithm.py:59-84 | Episode `i > 0` of training is episode `i - 1` of training started from the table and the draws the first episode left. |
| Training.EpisodeAtFails | Homework2/source/algorithm.py:59-84 | Once an episode does not run, no later episode runs. `RunEpisodeIs` states when an episode does not run. |
| Training.FollowsCons | Homework2/source/algorithm.py:59-84 | One episode in front of a faithful record of the episodes after it gives a faithful record of one episode more. |
| Training.Loop | Homework2/source/algorithm.py:59-84 | The loop over `k` episodes records, for each `i`, the walk and the reward total of episode `i`. Episode `i` runs on the table and the draws episode `i - 1` left. It returns the table and the draws the last episode left. It fails exactly when episode `k - 1` does not run. |
| Training.EpisodeAtShaped | Homework2/source/algorithm.py:59-84 | Every episode training runs is a walk of its learner's shape, its total is that walk's reward sum, and it leaves a complete table. |
| Training.FollowsRecorded | Homework2/source/algorithm.py:59-84 | A faithful record of a learner's episodes has one walk of the learner's shape per episode, each history entry is the reward sum of its walk, and its table is complete. |
| Training.TrainLoop | Homework2/source/algorithm.py:59-84 | `k` episodes of the chosen learner give `k` walks and `k` history entries, each the sum of its walk's rewards. Entry `i` is episode `i`, run on the table and the draws episode `i - 1` left. The returned table is the last episode's. The loop fails exactly when episode `k - 1` does not run. |
| Training.Train | Homework2/source/algorithm.py:43-88 | Training starts from the empty table and returns one history entry per episode, each the reward sum of a walk of the learner's shape. Entry `i` is the total of episode `i`, run on the table and the draws episode `i - 1` left. The returned table is the last episode's and is complete. The policy has one entry per row. Training fails exactly when the last episode does not run. |
| Training.TrainedPolicyIsGreedy | Homework2/source/algorithm.py:87 | The trained policy picks, for every row, an action of largest value and the first such in `action_keys` order. |
| CliffWalk.NewEnv | Homework2/source/cliffwalk.py:26-43 | Without a layout the classic one is used. The cliff reward is stored exactly as given, and the size follows the layout. |
| CliffWalk.DefaultEnv | Homework2/source/cliffwalk.py:26 | The defaults are the 4 x 12 layout, step -1, cliff -100 and goal 0. |
| CliffWalk.Step | Homework2/source/cliffwalk.py:45-73 | From the goal any action returns `(goal, 0, True)`. Elsewhere an unknown action is an error. An in-bounds cliff target returns `(start, reward_cliff, False)`. Every other move is the maze's own step unchanged. |
| CliffWalk.CliffResets | Homework2/source/cliffwalk.py:52-73 | Off the goal and on a known action, a step resets to the start with the cliff reward, not done, exactly when the action's target is an in-bounds cell coded 4. The only exception is a maze step that would itself give that same answer. |
| CliffWalk.AsEnv | Homework2/source/cliffwalk.py:45-73 | The cliff walk seen as a learner's environment keeps the given states and action names, the start and the goal. |
| CliffWalk.AsEnvValid | Homework2/source/cliffwalk.py:45-73 | The cliff walk meets the environment contract of the solvers and learners whenever the maze's own step stays within a state list holding the start and the goal. The listed actions must be distinct names of the move table. Every listed action is then accepted from every state. |
| CliffWalk.ClassicCliffCells | Homework2/source/layout.py:38-43 | In the classic layout the cliff cells are exactly row 3, columns 1 to 10. |
| CliffWalk.ClassicFirstSteps | Homework2/source/cliffwalk.py:52-73 | In the classic layout, east from the start falls off the cliff and returns to the start with -100, not done. North is the maze's step. The goal answers even an unknown action, and an unknown action elsewhere is an error. |
| Visualization.SetMax | Homework2/source/visualization.py:27 | `max` over a non-empty set of values is one of them and bounds them all. |
| Visualization.RowValue | Homework2/source/visualization.py:26-29 | A non-empty row's value is at least every entry and equals one of them. An empty row's value is 0.0. |
| Visualization.QToV | Homework2/source/visualization.py:21-30 | The V-table has exactly the Q-table's states. Each non-empty row maps to its maximum and each empty row to 0.0. |
| Visualization.QToVIsGreedyValue | Homework2/source/visualization.py:21-30 | On a learner's table, the V value of a state is the row maximum the learners use, which is also the value of the trained policy's action. |

## Left out

- Rendering, plotting and printing are not modelled: `render`,
  `print_policy`, `plot_learning_curves`, `visualize_value_function`, the
  "Converged after" messages and the `tqdm` progress bars. They only
  produce output.
- Both `main.py` scripts are not modelled. They construct environments and
  wire the solvers together.
- `Homework1/source/maze.py` is not part of this model. The maze's start
  and goal positions, its move table and its own step rule are parameters
  of a cliff-walk environment (`CliffWalk.Base`). The learners and solvers
  take the abstract environment `Mdp.Env`. `CliffWalk.AsEnv` builds one
  from `CliffWalk.Step`.
- Of `layout.py`, only the classic 4 x 12 layout is modelled, as a
  constant.
- Floating point is modelled as exact `real` arithmetic, so rounding is
  not modelled.
- Randomness becomes explicit draws, and stochastic claims are not stated.
  This leaves out convergence to an optimum and the cliff paths SARSA and
  Q-learning prefer. It also leaves out value iteration and policy
  iteration reaching the same fixed point.
- The `while True` and `while not done` loops are bounded. The solvers
  take a fuel bound. `None` means no stable round came within the bound
  or an evaluation ran out of its own fuel (`PILoop`, `TPILoop`). An
  episode is bounded by its sequence of draws, and `None` means the draws
  ran out (`RunEpisodeIs`).
- Mdp.ValidEnv and QTables.ValidActions exclude three inputs on which
  the Python code fails or changes meaning. An empty `action_keys` makes
  `max()` raise `ValueError` (Homework1 `algorithm.py` lines 58, 128 and
  187) and `random.choice([])` raise `IndexError` (lines 84 and 151 there,
  line 32 of Homework2 `algorithm.py`). A successor outside `env.states`
  raises `KeyError` where the solvers read `v[next_s]` (Homework1 lines
  54, 106, 126, 171 and 185). Repeated action keys make the Expected SARSA
  weights at Homework2 lines 167-175 stop summing to 1. `ValidEnv` also
  asks that the goal be one of the states. The model states nothing for
  these inputs.
- A negative `n_steps` is not modelled: `n` is a `nat`.
- `n = 0` is modelled as the code runs it. Every step then updates the
  experience just buffered toward `Q[next][next_action]` alone, and
  toward 0 on the step that ends the episode (Homework2 `algorithm.py`
  lines 243-247).
- The order in which a TD step creates the rows of the current and next
  state is not modelled: both reads only add all-zero rows, and the result
  is the same map.
- A SARSA episode draws a next action even on the step that ends the
  episode, as `sarsa` does. The draw is consumed, and the update
  bootstraps on `Q[next][next_action]` for the action drawn. That entry is
  0.0 only while no step has left the terminal state with that action.
- An n-step episode that stops on the step bound before `done` is
  drained without a bootstrap term, as `n_step_sarsa` does.
- NStepSarsa.Drain: the value written for a pair buffered more than once
  is not stated. Only pairs buffered once are described, by
  `DrainWritesReturn`.
- CliffWalk.AsEnv: an action missing from the move table keeps the
  agent in place with reward 0 instead of raising `ValueError`. The
  learners' environment needs a total step function. `AsEnvValid` shows
  that no listed action reaches this case.
