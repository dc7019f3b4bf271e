/** n-step SARSA: the learner keeps the last experiences of the episode in
    a buffer of (state, action, reward) triples. Once the buffer holds `n`
    of them, the oldest is updated toward the discounted sum of the
    buffered rewards, plus the discounted value of the next state and
    action when the episode goes on, and leaves the buffer. After the
    loop, the buffer is drained oldest-first toward the rewards still in
    it, with no bootstrap term. */
module NStepSarsa {
  import opened Common
  import opened Mdp
  import opened QTables
  import opened TdLearning

  /** One buffered experience `(S_t, A_t, R_{t+1})`. */
  datatype Experience = Experience(state: State, action: Action, reward: real)

  /** The state and action a bootstrap term reads, `(S_{t+n}, A_{t+n})`. */
  datatype Target = Target(state: State, action: Action)

  /** What the loop leaves before the drain: the table, the steps taken,
      the table each step left, the buffer, the reward total and the draws
      not consumed. */
  datatype Run = Run(q: QTable, trace: seq<Step>, tables: seq<QTable>, buf: seq<Experience>, total: real, rest: seq<Draw>)

  /** Every buffered action is a listed action. */
  predicate Known(keys: seq<Action>, buf: seq<Experience>) {
    forall x :: x in buf ==> x.action in keys
  }

  /** The experience a step leaves in the buffer. */
  function Exp(st: Step): Experience {
    Experience(st.state, st.action, st.reward)
  }

  /** The experiences of a walk, in order. */
  function Experiences(trace: seq<Step>): (es: seq<Experience>)
    ensures |es| == |trace|
  {
    if |trace| == 0 then [] else [Exp(trace[0])] + Experiences(trace[1..])
  }

  /** `sum(gamma ** i * buf[i].reward for i in range(k))`: the discounted
      sum of the first `k` buffered rewards, accumulated left to right. */
  function Discounted(buf: seq<Experience>, gamma: real, k: nat): real
    requires k <= |buf|
  {
    if k == 0 then 0.0 else Discounted(buf, gamma, k - 1) + Pow(gamma, k - 1) * buf[k - 1].reward
  }

  /** The return `g` with the bootstrap term `gamma ** n * value` added. */
  function WithTail(g: real, gamma: real, n: nat, value: real): real {
    g + Pow(gamma, n) * value
  }

  /** The discounted sum obeys the return recursion `G_t = R_{t+1} +
      gamma * G_{t+1}`: the first reward plus `gamma` times the discounted
      sum of the rewards after it. */
  lemma {:induction false} DiscountedRecursion(buf: seq<Experience>, gamma: real, k: nat)
    requires 1 <= k <= |buf|
    ensures Discounted(buf, gamma, k) == buf[0].reward + gamma * Discounted(buf[1..], gamma, k - 1)
  {
    if k == 1 {
      assert Discounted(buf, gamma, 1) == 0.0 + 1.0 * buf[0].reward;
    } else {
      DiscountedRecursion(buf, gamma, k - 1);
      var g := Discounted(buf[1..], gamma, k - 2);
      var p := Pow(gamma, k - 2);
      var x := buf[k - 1].reward;
      assert buf[1..][k - 2] == buf[k - 1];
      assert Pow(gamma, k - 1) == gamma * p;
      calc {
        Discounted(buf, gamma, k);
        Discounted(buf, gamma, k - 1) + gamma * p * x;
        buf[0].reward + gamma * g + gamma * p * x;
        buf[0].reward + gamma * (g + p * x);
        buf[0].reward + gamma * Discounted(buf[1..], gamma, k - 1);
      }
    }
  }

  /** The largest buffer the loop keeps between iterations after seeing
      `k` experiences: the last `n - 1` of them, and none when `n` is 0. */
  function Lag(n: nat, k: nat): nat {
    if n == 0 then 0 else if k < n - 1 then k else n - 1
  }

  /** `buf` is the window of the loop after it has seen `seen`: the last
      `Lag(n, |seen|)` experiences, in order. */
  predicate Window(n: nat, seen: seq<Experience>, buf: seq<Experience>) {
    |buf| == Lag(n, |seen|) && |buf| <= |seen| && buf == seen[|seen| - |buf|..]
  }

  /** The update of the oldest buffered experience once the buffer holds
      `n`: toward the discounted sum of the first `n` rewards, plus
      `gamma ** n * Q[S_{t+n}][A_{t+n}]` when the episode goes on. The
      bootstrap read creates the row it reads. */
  function ForwardUpdate(keys: seq<Action>, q: QTable, buf: seq<Experience>, n: nat, alpha: real, gamma: real,
                         boot: Option<Target>): (r: QTable)
    requires Complete(keys, q) && Known(keys, buf) && 0 < |buf| && n <= |buf|
    requires boot.Some? ==> boot.value.action in keys
    ensures Complete(keys, r)
    ensures r.Keys == q.Keys + {buf[0].state} + (if boot.Some? then {boot.value.state} else {})
  {
    assert buf[0] in buf;
    match boot
    case None => Blend(keys, q, buf[0].state, buf[0].action, Discounted(buf, gamma, n), alpha)
    case Some(b) =>
      var q1 := Touch(keys, q, b.state);
      Blend(keys, q1, buf[0].state, buf[0].action, WithTail(Discounted(buf, gamma, n), gamma, n, Get(keys, q, b.state, b.action)), alpha)
  }

  /** The return `G` of the loop's update. */
  function ForwardTarget(keys: seq<Action>, q: QTable, buf: seq<Experience>, n: nat, gamma: real, boot: Option<Target>): real
    requires Complete(keys, q) && n <= |buf|
    requires boot.Some? ==> boot.value.action in keys
  {
    match boot
    case None => Discounted(buf, gamma, n)
    case Some(b) => WithTail(Discounted(buf, gamma, n), gamma, n, Get(keys, q, b.state, b.action))
  }

  /** The loop's update rewrites only the oldest experience's entry,
      moving it a step `alpha` toward the n-step return. */
  lemma ForwardUpdateWrites(keys: seq<Action>, q: QTable, buf: seq<Experience>, n: nat, alpha: real, gamma: real,
                            boot: Option<Target>)
    requires Complete(keys, q) && Known(keys, buf) && 0 < |buf| && n <= |buf|
    requires boot.Some? ==> boot.value.action in keys
    ensures var r := ForwardUpdate(keys, q, buf, n, alpha, gamma, boot);
            && Get(keys, r, buf[0].state, buf[0].action) ==
                 Toward(Get(keys, q, buf[0].state, buf[0].action), ForwardTarget(keys, q, buf, n, gamma, boot), alpha)
            && forall t, b :: b in keys && (t, b) != (buf[0].state, buf[0].action) ==> Get(keys, r, t, b) == Get(keys, q, t, b)
  {
    if boot.Some? {
      TouchKeepsReads(keys, q, boot.value.state);
    }
  }

  /** With `n = 1` the loop's update is the SARSA update: the target is
      the reward plus `gamma` times the value of the next state and
      action. */
  lemma OneStepIsSarsa(keys: seq<Action>, q: QTable, e: Experience, next: Target, alpha: real, gamma: real)
    requires Complete(keys, q) && e.action in keys && next.action in keys
    ensures Get(keys, ForwardUpdate(keys, q, [e], 1, alpha, gamma, Some(next)), e.state, e.action) ==
              Toward(Get(keys, q, e.state, e.action), Bootstrap(e.reward, gamma, Get(keys, q, next.state, next.action)), alpha)
  {
    ForwardUpdateWrites(keys, q, [e], 1, alpha, gamma, Some(next));
    var v := Get(keys, q, next.state, next.action);
    assert Discounted([e], gamma, 1) == e.reward;
    TailOfOne(e.reward, gamma, v);
    assert ForwardTarget(keys, q, [e], 1, gamma, Some(next)) == Bootstrap(e.reward, gamma, v);
  }

  /** One step of lookahead discounts the bootstrap value once. */
  lemma TailOfOne(g: real, gamma: real, v: real)
    ensures WithTail(g, gamma, 1, v) == Bootstrap(g, gamma, v)
  {
    assert Pow(gamma, 1) == gamma;
  }

  /** Appending an experience and, once the buffer holds `n`, dropping
      the oldest after its update: the result is the appended buffer or
      its suffix without the oldest entry. */
  function Slide(buf: seq<Experience>, e: Experience, n: nat): (b: seq<Experience>)
    requires |buf| == Lag(n, |buf|)
    ensures |b| == Lag(n, |b|)
    ensures n >= 1 ==> |b| < n
  {
    var b1 := buf + [e];
    if |b1| >= n then b1[1..] else b1
  }

  /** The slid buffer is the appended buffer or its suffix without the
      oldest entry, so it holds nothing but what the buffer held and the
      new experience. */
  lemma SlideKeeps(buf: seq<Experience>, e: Experience, n: nat)
    requires |buf| == Lag(n, |buf|)
    ensures var b := Slide(buf, e, n);
            && (b == buf + [e] || b == (buf + [e])[1..])
            && forall x :: x in b ==> x in buf || x == e
  {
  }

  /** Appending a listed action's experience keeps every buffered action
      listed. */
  lemma KnownAppend(keys: seq<Action>, buf: seq<Experience>, e: Experience)
    requires Known(keys, buf) && e.action in keys
    ensures Known(keys, buf + [e])
  {
  }

  /** Sliding a listed action's experience in keeps every buffered action
      listed. */
  lemma KnownSlide(keys: seq<Action>, buf: seq<Experience>, e: Experience, n: nat)
    requires Known(keys, buf) && e.action in keys && |buf| == Lag(n, |buf|)
    ensures Known(keys, Slide(buf, e, n))
  {
  }

  /** The window moves with the loop: a window of what follows `Slide`
      is a window of everything seen since `buf`. */
  lemma WindowSlide(n: nat, buf: seq<Experience>, e: Experience, later: seq<Experience>, w: seq<Experience>)
    requires |buf| == Lag(n, |buf|)
    requires Window(n, Slide(buf, e, n) + later, w)
    ensures Window(n, buf + ([e] + later), w)
  {
    var seen := buf + ([e] + later);
    var b := Slide(buf, e, n);
    var kept := b + later;
    var d := |buf| + 1 - |b|;
    assert seen == (buf + [e]) + later;
    assert kept == seen[d..] by {
      assert b == (buf + [e])[d..];
    }
    assert d == 1 ==> n == 0 || |b| == n - 1;
    assert Lag(n, |kept|) == Lag(n, |seen|);
  }

  /** The loop state `r` was reached from `s` with the action `a` in hand
      and at most `steps` steps allowed: a complete table, a chained walk
      from `s` that starts with `a`, that stops on `done` or on the step
      bound, and the reward total grown by its rewards. */
  predicate RunFrom(env: Env, s: State, a: Action, steps: nat, total: real, r: Run) {
    && Complete(env.actionKeys, r.q)
    && Walk(env, s, r.trace) && Chained(r.trace)
    && (|r.trace| > 0 ==> r.trace[0].action == a)
    && |r.trace| <= steps
    && (Finished(r.trace) || |r.trace| == steps)
    && r.total == total + RewardSum(r.trace)
  }

  /** One pass of the loop body on a step that does not end the episode:
      step, buffer the experience, choose the next action at the state
      reached, and update the oldest experience once the buffer holds
      `n`, bootstrapping on the next state and action. */
  function NStepMove(env: Env, n: nat, alpha: real, gamma: real, eps: real, q: QTable, s: State, a: Action,
                     buf: seq<Experience>, d: Draw): (m: Move)
    requires ValidActions(env.actionKeys) && Complete(env.actionKeys, q) && a in env.actionKeys
    requires Known(env.actionKeys, buf) && !env.step(s, a).done
    ensures Complete(env.actionKeys, m.q)
    ensures m.st.state == s && m.st.action == a && Faithful(env, m.st) && !m.st.done
    ensures m.st.nextAction.Some? && m.st.nextAction.value in env.actionKeys
  {
    var keys := env.actionKeys;
    var t := env.step(s, a);
    var e := Experience(s, a, t.reward);
    var c := EpsilonGreedy(keys, q, t.next, eps, d);
    var q' := if |buf| + 1 >= n then ForwardUpdate(keys, c.q, buf + [e], n, alpha, gamma, Some(Target(t.next, c.action))) else c.q;
    Move(Step(s, a, t.reward, t.next, false, Some(c.action)), q')
  }

  /** The pass of the loop body on a step that ends the episode: step,
      buffer the experience, and update the oldest experience once the
      buffer holds `n`, with no bootstrap term; no action is chosen. */
  function LastMove(env: Env, n: nat, alpha: real, gamma: real, q: QTable, s: State, a: Action,
                    buf: seq<Experience>): (m: Move)
    requires ValidActions(env.actionKeys) && Complete(env.actionKeys, q) && a in env.actionKeys
    requires Known(env.actionKeys, buf) && env.step(s, a).done
    ensures Complete(env.actionKeys, m.q)
    ensures m.st.state == s && m.st.action == a && Faithful(env, m.st) && m.st.done && m.st.nextAction == None
  {
    var keys := env.actionKeys;
    var t := env.step(s, a);
    var e := Experience(s, a, t.reward);
    KnownAppend(keys, buf, e);
    Move(Step(s, a, t.reward, t.next, true, None),
         if |buf| + 1 >= n then ForwardUpdate(keys, q, buf + [e], n, alpha, gamma, None) else q)
  }

  /** On a step that does not end the episode, the n-step loop body
      records the epsilon-greedy choice at the state reached as the next
      action. Once the buffer with the new experience holds `n`, it moves
      only the oldest experience's entry, a step `alpha` toward the
      discounted sum of the first `n` buffered rewards plus `gamma ** n`
      times the entry of the state reached and that next action; before
      that, every entry reads as before. */
  lemma NStepMoveUpdates(env: Env, n: nat, alpha: real, gamma: real, eps: real, q: QTable, s: State, a: Action,
                         buf: seq<Experience>, d: Draw)
    requires ValidActions(env.actionKeys) && Complete(env.actionKeys, q) && a in env.actionKeys
    requires Known(env.actionKeys, buf) && !env.step(s, a).done
    ensures var m := NStepMove(env, n, alpha, gamma, eps, q, s, a, buf, d);
            var keys := env.actionKeys;
            var full := buf + [Experience(s, a, m.st.reward)];
            && m.st.nextAction == Some(EpsilonGreedy(keys, q, m.st.next, eps, d).action)
            && (|full| >= n ==>
                  && Get(keys, m.q, full[0].state, full[0].action) ==
                       Toward(Get(keys, q, full[0].state, full[0].action),
                              WithTail(Discounted(full, gamma, n), gamma, n, Get(keys, q, m.st.next, m.st.nextAction.value)), alpha)
                  && forall t, b :: b in keys && (t, b) != (full[0].state, full[0].action) ==> Get(keys, m.q, t, b) == Get(keys, q, t, b))
            && (|full| < n ==> forall t, b :: b in keys ==> Get(keys, m.q, t, b) == Get(keys, q, t, b))
  {
    var keys := env.actionKeys;
    var t := env.step(s, a);
    var full := buf + [Experience(s, a, t.reward)];
    var c := EpsilonGreedy(keys, q, t.next, eps, d);
    assert Known(keys, full);
    if |full| >= n {
      ForwardUpdateWrites(keys, c.q, full, n, alpha, gamma, Some(Target(t.next, c.action)));
    }
  }

  /** On the step that ends the episode, the n-step loop body moves only
      the oldest experience's entry once the buffer with the new experience
      holds `n`, a step `alpha` toward the discounted sum of the first `n`
      buffered rewards with no bootstrap term; before that, the table is
      left as it was. */
  lemma NStepLastUpdates(env: Env, n: nat, alpha: real, gamma: real, q: QTable, s: State, a: Action, buf: seq<Experience>)
    requires ValidActions(env.actionKeys) && Complete(env.actionKeys, q) && a in env.actionKeys
    requires Known(env.actionKeys, buf) && env.step(s, a).done
    ensures var m := LastMove(env, n, alpha, gamma, q, s, a, buf);
            var keys := env.actionKeys;
            var full := buf + [Experience(s, a, env.step(s, a).reward)];
            && (|full| >= n ==>
                  && Get(keys, m.q, full[0].state, full[0].action) ==
                       Toward(Get(keys, q, full[0].state, full[0].action), Discounted(full, gamma, n), alpha)
                  && forall t, b :: b in keys && (t, b) != (full[0].state, full[0].action) ==> Get(keys, m.q, t, b) == Get(keys, q, t, b))
            && (|full| < n ==> m.q == q)
  {
    var full := buf + [Experience(s, a, env.step(s, a).reward)];
    assert Known(env.actionKeys, full);
    if |full| >= n {
      ForwardUpdateWrites(env.actionKeys, q, full, n, alpha, gamma, None);
    }
  }

  /** What the loop leaves from state `s` with action `a` in hand, `steps`
      steps allowed, the reward total at `total`, `buf` buffered and
      `draws` to choose with: a run of the loop that consumed some of the
      draws and buffers exactly the window of everything seen. */
  predicate LoopResult(env: Env, n: nat, s: State, a: Action, steps: nat, total: real, buf: seq<Experience>,
                       draws: seq<Draw>, r: Run) {
    && RunFrom(env, s, a, steps, total, r) && |r.rest| <= |draws|
    && Known(env.actionKeys, r.buf) && Window(n, buf + Experiences(r.trace), r.buf)
  }

  /** The window of the loop after it has seen `seen`. */
  function WindowOf(n: nat, seen: seq<Experience>): (b: seq<Experience>)
    ensures Window(n, seen, b)
  {
    seen[|seen| - Lag(n, |seen|)..]
  }

  /** The buffer the loop holds before step `i` of the walk `trace`,
      having started with `buf`: each step before it slid its experience
      in. */
  function BufAt(n: nat, buf: seq<Experience>, trace: seq<Step>, i: nat): (b: seq<Experience>)
    requires |buf| == Lag(n, |buf|) && i <= |trace|
    ensures |b| == Lag(n, |b|)
    decreases i
  {
    if i == 0 then buf else BufAt(n, Slide(buf, Exp(trace[0]), n), trace[1..], i - 1)
  }

  /** The window of what has been seen is unique. */
  lemma WindowIsWindowOf(n: nat, seen: seq<Experience>, b: seq<Experience>)
    requires Window(n, seen, b)
    ensures b == WindowOf(n, seen)
  {
  }

  /** The experiences of a walk that starts with `st`. */
  lemma ExperiencesCons(st: Step, trace: seq<Step>)
    ensures Experiences([st] + trace) == [Exp(st)] + Experiences(trace)
  {
    assert ([st] + trace)[1..] == trace;
  }

  /** The buffer before step `i` is the window of everything seen by
      then. */
  lemma {:induction false} BufAtWindow(n: nat, buf: seq<Experience>, trace: seq<Step>, i: nat)
    requires |buf| == Lag(n, |buf|) && i <= |trace|
    ensures Window(n, buf + Experiences(trace[..i]), BufAt(n, buf, trace, i))
    decreases i
  {
    if i == 0 {
      assert buf + Experiences(trace[..0]) == buf;
    } else {
      var e := Exp(trace[0]);
      BufAtWindow(n, Slide(buf, e, n), trace[1..], i - 1);
      var later := Experiences(trace[1..][..i - 1]);
      assert trace[..i] == [trace[0]] + trace[1..][..i - 1];
      ExperiencesCons(trace[0], trace[1..][..i - 1]);
      WindowSlide(n, buf, e, later, BufAt(n, buf, trace, i));
    }
  }

  /** The buffer before step `i + 1` of a walk that starts with `st` is
      the buffer before step `i` of the rest of the walk, started from the
      buffer `st` slid into. */
  lemma BufAtCons(n: nat, buf: seq<Experience>, st: Step, trace: seq<Step>, i: nat)
    requires |buf| == Lag(n, |buf|) && i <= |trace|
    ensures BufAt(n, buf, [st] + trace, i + 1) == BufAt(n, Slide(buf, Exp(st), n), trace, i)
  {
    assert ([st] + trace)[1..] == trace;
  }

  /** One pass of the n-step loop body, as a function of the table in
      force, the buffer, the state, the action in hand and the draws still
      to come: the step it takes and the table it leaves, or `None` where
      the body cannot run. */
  type NBody = (QTable, seq<Experience>, State, Option<Action>, seq<Draw>) -> Option<Move>

  /** The n-step loop body: it runs only with a listed action in hand;
      the last pass, which draws nothing, when the step ends the episode,
      and otherwise a pass that chooses the next action with the first
      draw. */
  function NStepBody(env: Env, n: nat, alpha: real, gamma: real, eps: real): NBody {
    (t: QTable, b: seq<Experience>, s: State, h: Option<Action>, ds: seq<Draw>) =>
      if !(ValidActions(env.actionKeys) && Complete(env.actionKeys, t) && h.Some? && h.value in env.actionKeys
           && Known(env.actionKeys, b)) then None
      else if env.step(s, h.value).done then Some(LastMove(env, n, alpha, gamma, t, s, h.value, b))
      else if |ds| == 0 then None
      else Some(NStepMove(env, n, alpha, gamma, eps, t, s, h.value, b, ds[0]))
  }

  /** On a complete table, a listed action in hand and a buffer of listed
      actions, the body is `LastMove` when the step ends the episode and
      `NStepMove` with the first draw otherwise. */
  lemma NStepBodyIs(env: Env, n: nat, alpha: real, gamma: real, eps: real, t: QTable, b: seq<Experience>, s: State, a: Action,
                    ds: seq<Draw>)
    requires ValidActions(env.actionKeys) && Complete(env.actionKeys, t) && a in env.actionKeys && Known(env.actionKeys, b)
    ensures env.step(s, a).done ==>
              NStepBody(env, n, alpha, gamma, eps)(t, b, s, Some(a), ds) == Some(LastMove(env, n, alpha, gamma, t, s, a, b))
    ensures !env.step(s, a).done && |ds| > 0 ==>
              NStepBody(env, n, alpha, gamma, eps)(t, b, s, Some(a), ds) == Some(NStepMove(env, n, alpha, gamma, eps, t, s, a, b, ds[0]))
  {
  }

  /** The draws a walk of the loop used: one per step, except on the step
      that ends the episode. */
  function Used(trace: seq<Step>): nat {
    if Finished(trace) then |trace| - 1 else |trace|
  }

  /** A step that does not end the episode uses one draw more than the
      rest of the walk. */
  lemma UsedCons(st: Step, trace: seq<Step>)
    requires !st.done
    ensures Used([st] + trace) == 1 + Used(trace)
  {
    if |trace| > 0 {
      assert ([st] + trace)[|trace|] == trace[|trace| - 1];
    }
  }

  /** `r` is what a loop running `body` leaves when it starts at `s` with
      the table `q`, the action in hand `h`, the buffer `buf` and the
      draws `draws`: its step `i` is the body run on the table, the
      buffer, the state and the action in hand the steps before it left,
      with the draws after the `i` used so far, and leaves `r.tables[i]`;
      the loop returns the table the last step left and the draws its
      steps did not use. */
  predicate RunReplays(body: NBody, n: nat, q: QTable, s: State, h: Option<Action>, buf: seq<Experience>, draws: seq<Draw>, r: Run) {
    && |buf| == Lag(n, |buf|)
    && |r.tables| == |r.trace| && Used(r.trace) <= |draws|
    && (forall i: nat | i < |r.trace| :: ReplaysAt(body, n, q, s, h, buf, draws, r, i))
    && r.q == Before(q, r.tables, |r.tables|)
    && r.rest == draws[Used(r.trace)..]
  }

  /** Step `i` of `r` is the body run on the table in force before it, the
      buffer of what came before, the state and the action in hand, and
      the draws after the `i` used so far. */
  predicate ReplaysAt(body: NBody, n: nat, q: QTable, s: State, h: Option<Action>, buf: seq<Experience>, draws: seq<Draw>, r: Run,
                      i: nat)
    requires |buf| == Lag(n, |buf|) && |r.tables| == |r.trace| && i < |r.trace|
  {
    && i <= |draws|
    && body(Before(q, r.tables, i), BufAt(n, buf, r.trace, i), At(s, r.trace, i), Hand(h, r.trace, i), draws[i..])
         == Some(Move(r.trace[i], r.tables[i]))
  }

  /** The loop stopped at its first `done` or on the step bound, its
      reward total grew from `total` by exactly the rewards of its steps,
      and it holds the window of everything seen since `buf`. */
  predicate Stops(n: nat, buf: seq<Experience>, steps: nat, total: real, r: Run) {
    && |buf| == Lag(n, |buf|)
    && |r.trace| <= steps && (Finished(r.trace) || |r.trace| == steps)
    && (forall i :: 0 <= i < |r.trace| - 1 ==> !r.trace[i].done)
    && r.total == total + RewardSum(r.trace)
    && r.buf == BufAt(n, buf, r.trace, |r.trace|)
  }

  /** The `while not done and step_counter < max_steps_per_episode` loop
      of n-step SARSA, for any body: stop when no step is left; otherwise
      run the body, add the reward, and stop on `done`, or go on from the
      state reached with the table and the action in hand the pass left,
      the step's experience slid into the buffer and one draw used. What
      it returns is stated by `RunsSound` and `RunsFinds`. */
  function Runs(body: NBody, n: nat, q: QTable, s: State, h: Option<Action>, buf: seq<Experience>, steps: nat, total: real,
                draws: seq<Draw>): Option<Run>
    requires |buf| == Lag(n, |buf|)
    decreases steps
  {
    if steps == 0 then Some(Run(q, [], [], buf, total, draws))
    else
      match body(q, buf, s, h, draws)
      case None => None
      case Some(m) =>
        if m.st.done then Some(Run(m.q, [m.st], [m.q], Slide(buf, Exp(m.st), n), total + m.st.reward, draws))
        else if |draws| == 0 then None
        else Prepend(m, Runs(body, n, m.q, m.st.next, m.st.nextAction, Slide(buf, Exp(m.st), n), steps - 1, total + m.st.reward,
                             draws[1..]))
  }

  /** The pass `m` in front of what the rest of the loop returned. */
  function Prepend(m: Move, r: Option<Run>): (r': Option<Run>)
    ensures r'.Some? <==> r.Some?
    ensures r.Some? ==> r'.value.trace == [m.st] + r.value.trace && r'.value.tables == [m.q] + r.value.tables
    ensures r.Some? ==> r'.value.q == r.value.q && r'.value.buf == r.value.buf && r'.value.total == r.value.total
    ensures r.Some? ==> r'.value.rest == r.value.rest
  {
    match r
    case None => None
    case Some(t) => Some(t.(trace := [m.st] + t.trace, tables := [m.q] + t.tables))
  }

  /** Whatever the loop returns, the body replays it and it stops. */
  lemma {:induction false} RunsSound(body: NBody, n: nat, q: QTable, s: State, h: Option<Action>, buf: seq<Experience>, steps: nat,
                                     total: real, draws: seq<Draw>)
    requires |buf| == Lag(n, |buf|)
    ensures var r := Runs(body, n, q, s, h, buf, steps, total, draws);
            r.Some? ==> RunReplays(body, n, q, s, h, buf, draws, r.value) && Stops(n, buf, steps, total, r.value)
    decreases steps
  {
    if steps == 0 {
      assert draws[0..] == draws;
    } else {
      match body(q, buf, s, h, draws)
      case None =>
      case Some(m) =>
        if m.st.done {
          RunsLast(body, n, q, s, h, buf, steps, total, draws, m);
          var r := Run(m.q, [m.st], [m.q], Slide(buf, Exp(m.st), n), total + m.st.reward, draws);
          RunReplaysLast(body, n, q, s, h, buf, draws, m, r);
          StopsLast(n, buf, steps, total, m.st, r);
        } else if |draws| > 0 {
          RunsSound(body, n, m.q, m.st.next, m.st.nextAction, Slide(buf, Exp(m.st), n), steps - 1, total + m.st.reward, draws[1..]);
          RunsSoundCons(body, n, q, s, h, buf, steps, total, draws, m);
        }
    }
  }

  /** A pass that goes on, in front of a loop from what it left that
      replays and stops, gives a loop from the start that replays and
      stops. */
  lemma RunsSoundCons(body: NBody, n: nat, q: QTable, s: State, h: Option<Action>, buf: seq<Experience>, steps: nat,
                      total: real, draws: seq<Draw>, m: Move)
    requires |buf| == Lag(n, |buf|) && steps > 0 && |draws| > 0 && body(q, buf, s, h, draws) == Some(m) && !m.st.done
    requires var r := Runs(body, n, m.q, m.st.next, m.st.nextAction, Slide(buf, Exp(m.st), n), steps - 1, total + m.st.reward,
                           draws[1..]);
             r.Some? ==>
               && RunReplays(body, n, m.q, m.st.next, m.st.nextAction, Slide(buf, Exp(m.st), n), draws[1..], r.value)
               && Stops(n, Slide(buf, Exp(m.st), n), steps - 1, total + m.st.reward, r.value)
    ensures var r := Runs(body, n, q, s, h, buf, steps, total, draws);
            r.Some? ==> RunReplays(body, n, q, s, h, buf, draws, r.value) && Stops(n, buf, steps, total, r.value)
  {
    var inner := Runs(body, n, m.q, m.st.next, m.st.nextAction, Slide(buf, Exp(m.st), n), steps - 1, total + m.st.reward,
                      draws[1..]);
    RunsCons(body, n, q, s, h, buf, steps, total, draws, m);
    if inner.Some? {
      var r := Prepend(m, inner).value;
      RunReplaysCons(body, n, q, s, h, buf, draws, m, inner.value, r);
      StopsCons(n, buf, steps, total, m.st, inner.value, r);
    }
  }

  /** A pass that ends the episode replays as a one-step loop. */
  lemma RunReplaysLast(body: NBody, n: nat, q: QTable, s: State, h: Option<Action>, buf: seq<Experience>, draws: seq<Draw>,
                       m: Move, r: Run)
    requires |buf| == Lag(n, |buf|) && body(q, buf, s, h, draws) == Some(m) && m.st.done
    requires r.trace == [m.st] && r.tables == [m.q] && r.q == m.q && r.rest == draws
    ensures RunReplays(body, n, q, s, h, buf, draws, r)
  {
    assert draws[0..] == draws;
  }

  /** A last step stops the loop with the window of everything seen. */
  lemma StopsLast(n: nat, buf: seq<Experience>, steps: nat, total: real, st: Step, r: Run)
    requires |buf| == Lag(n, |buf|) && st.done && steps > 0
    requires r.trace == [st] && r.total == total + st.reward && r.buf == Slide(buf, Exp(st), n)
    ensures Stops(n, buf, steps, total, r)
  {
    assert RewardSum([st]) == st.reward + RewardSum([]);
  }

  /** A pass that goes on, followed by a loop that replays from what it
      left and the buffer it slid into, replays from the start. */
  lemma RunReplaysCons(body: NBody, n: nat, q: QTable, s: State, h: Option<Action>, buf: seq<Experience>, draws: seq<Draw>,
                       m: Move, t: Run, r: Run)
    requires |buf| == Lag(n, |buf|) && |draws| > 0 && !m.st.done
    requires body(q, buf, s, h, draws) == Some(m)
    requires RunReplays(body, n, m.q, m.st.next, m.st.nextAction, Slide(buf, Exp(m.st), n), draws[1..], t)
    requires r.trace == [m.st] + t.trace && r.tables == [m.q] + t.tables && r.q == t.q && r.rest == t.rest
    ensures RunReplays(body, n, q, s, h, buf, draws, r)
  {
    forall i: nat | i < |r.trace|
      ensures ReplaysAt(body, n, q, s, h, buf, draws, r, i)
    {
      if i == 0 {
        assert draws[0..] == draws;
        assert r.trace[0] == m.st && r.tables[0] == m.q && m == Move(m.st, m.q);
      } else {
        ShiftedReads(q, s, h, draws, m, t, r, i);
        ShiftedBuf(n, buf, m, t, r, i);
        assert ReplaysAt(body, n, m.q, m.st.next, m.st.nextAction, Slide(buf, Exp(m.st), n), draws[1..], t, i - 1);
      }
    }
    UsedCons(m.st, t.trace);
    BeforeCons(q, m.q, t.tables, |t.tables|);
    assert draws[1..][Used(t.trace)..] == draws[Used(r.trace)..];
  }

  /** The buffer step `i > 0` of the longer loop reads is the one step
      `i - 1` of the shorter one reads. */
  lemma ShiftedBuf(n: nat, buf: seq<Experience>, m: Move, t: Run, r: Run, i: nat)
    requires |buf| == Lag(n, |buf|) && r.trace == [m.st] + t.trace && 0 < i < |r.trace|
    ensures BufAt(n, buf, r.trace, i) == BufAt(n, Slide(buf, Exp(m.st), n), t.trace, i - 1)
  {
    BufAtCons(n, buf, m.st, t.trace, i - 1);
  }

  /** The table, state and action in hand step `i > 0` of the longer loop
      reads are those step `i - 1` of the shorter one reads. */
  lemma ShiftedReads(q: QTable, s: State, h: Option<Action>, draws: seq<Draw>, m: Move, t: Run, r: Run, i: nat)
    requires 0 < i <= |draws| && |t.trace| == |t.tables|
    requires r.trace == [m.st] + t.trace && r.tables == [m.q] + t.tables && 0 < i < |r.trace|
    ensures r.trace[i] == t.trace[i - 1] && r.tables[i] == t.tables[i - 1]
    ensures draws[i..] == draws[1..][i - 1..]
    ensures Before(q, r.tables, i) == Before(m.q, t.tables, i - 1)
    ensures At(s, r.trace, i) == At(m.st.next, t.trace, i - 1)
    ensures Hand(h, r.trace, i) == Hand(m.st.nextAction, t.trace, i - 1)
  {
    BeforeCons(q, m.q, t.tables, i - 1);
    if i > 1 {
      assert r.trace[i - 1] == t.trace[i - 2];
    }
  }

  /** A step that goes on, in front of a loop that stops, gives a loop
      that stops. */
  lemma StopsCons(n: nat, buf: seq<Experience>, steps: nat, total: real, st: Step, t: Run, r: Run)
    requires |buf| == Lag(n, |buf|) && !st.done && steps > 0
    requires Stops(n, Slide(buf, Exp(st), n), steps - 1, total + st.reward, t)
    requires r.trace == [st] + t.trace && r.total == t.total && r.buf == t.buf
    ensures Stops(n, buf, steps, total, r)
  {
    assert r.trace[1..] == t.trace;
    if |t.trace| > 0 {
      assert r.trace[|r.trace| - 1] == t.trace[|t.trace| - 1];
    }
    forall i | 0 <= i < |r.trace| - 1
      ensures !r.trace[i].done
    {
      if i > 0 {
        assert r.trace[i] == t.trace[i - 1];
      }
    }
    BufAtCons(n, buf, st, t.trace, |t.trace|);
  }

  /** The rest of a loop after its first step. */
  function RunTail(r: Run): (t: Run)
    requires |r.trace| > 0 && |r.tables| > 0
    ensures t.trace == r.trace[1..] && t.tables == r.tables[1..]
    ensures t.q == r.q && t.buf == r.buf && t.total == r.total && t.rest == r.rest
  {
    r.(trace := r.trace[1..], tables := r.tables[1..])
  }

  /** The first step of a loop that replays is the body run on what the
      loop started with. */
  lemma RunReplaysFirst(body: NBody, n: nat, q: QTable, s: State, h: Option<Action>, buf: seq<Experience>, draws: seq<Draw>, r: Run)
    requires |buf| == Lag(n, |buf|) && RunReplays(body, n, q, s, h, buf, draws, r) && |r.trace| > 0
    ensures body(q, buf, s, h, draws) == Some(Move(r.trace[0], r.tables[0]))
  {
    assert ReplaysAt(body, n, q, s, h, buf, draws, r, 0);
    assert draws[0..] == draws;
  }

  /** A loop that replays and whose first step goes on is that step
      followed by a loop that replays from what the step left. */
  lemma RunReplaysTail(body: NBody, n: nat, q: QTable, s: State, h: Option<Action>, buf: seq<Experience>, draws: seq<Draw>, r: Run)
    requires |buf| == Lag(n, |buf|) && RunReplays(body, n, q, s, h, buf, draws, r) && |r.trace| > 0 && !r.trace[0].done
    ensures |draws| > 0
    ensures RunReplays(body, n, r.tables[0], r.trace[0].next, r.trace[0].nextAction, Slide(buf, Exp(r.trace[0]), n), draws[1..],
                       RunTail(r))
  {
    var st := r.trace[0];
    var t := RunTail(r);
    assert r.trace == [st] + t.trace && r.tables == [r.tables[0]] + t.tables;
    UsedCons(st, t.trace);
    forall i: nat | i < |t.trace|
      ensures ReplaysAt(body, n, r.tables[0], st.next, st.nextAction, Slide(buf, Exp(st), n), draws[1..], t, i)
    {
      assert ReplaysAt(body, n, q, s, h, buf, draws, r, i + 1);
      ShiftedReads(q, s, h, draws, Move(st, r.tables[0]), t, r, i + 1);
      ShiftedBuf(n, buf, Move(st, r.tables[0]), t, r, i + 1);
      assert draws[i + 1..] == draws[1..][i..];
    }
    BeforeCons(q, r.tables[0], t.tables, |t.tables|);
    assert draws[1..][Used(t.trace)..] == draws[Used(r.trace)..];
  }

  /** A loop that stops and whose first step goes on leaves, after that
      step, a loop that stops. */
  lemma StopsTail(n: nat, buf: seq<Experience>, steps: nat, total: real, r: Run)
    requires |buf| == Lag(n, |buf|) && Stops(n, buf, steps, total, r) && |r.trace| > 0 && |r.tables| > 0 && !r.trace[0].done
    ensures steps > 0 && Stops(n, Slide(buf, Exp(r.trace[0]), n), steps - 1, total + r.trace[0].reward, RunTail(r))
  {
    var st := r.trace[0];
    var t := RunTail(r);
    assert r.trace == [st] + t.trace;
    assert RewardSum(r.trace) == st.reward + RewardSum(t.trace);
    if |t.trace| > 0 {
      assert r.trace[|r.trace| - 1] == t.trace[|t.trace| - 1];
    }
    forall i | 0 <= i < |t.trace| - 1
      ensures !t.trace[i].done
    {
      assert t.trace[i] == r.trace[i + 1];
    }
    BufAtCons(n, buf, st, t.trace, |t.trace|);
  }

  /** Any run that the body replays from these draws and that stops is
      the one the loop returns; so the loop returns `None` exactly when no
      such run exists, that is, when the draws run out before `done` and
      the step bound, or the body cannot run. */
  lemma {:induction false} RunsFinds(body: NBody, n: nat, q: QTable, s: State, h: Option<Action>, buf: seq<Experience>, steps: nat,
                                     total: real, draws: seq<Draw>, r: Run)
    requires |buf| == Lag(n, |buf|)
    requires RunReplays(body, n, q, s, h, buf, draws, r) && Stops(n, buf, steps, total, r)
    ensures Runs(body, n, q, s, h, buf, steps, total, draws) == Some(r)
    decreases steps, 2
  {
    if |r.trace| == 0 {
      RunsFindsNone(body, n, q, s, h, buf, steps, total, draws, r);
    } else if r.trace[0].done {
      RunsFindsLast(body, n, q, s, h, buf, steps, total, draws, r);
    } else {
      RunsFindsCons(body, n, q, s, h, buf, steps, total, draws, r);
    }
  }

  /** A loop that stops before any step is the loop run with no steps left. */
  lemma RunsFindsNone(body: NBody, n: nat, q: QTable, s: State, h: Option<Action>, buf: seq<Experience>, steps: nat,
                      total: real, draws: seq<Draw>, r: Run)
    requires |buf| == Lag(n, |buf|)
    requires RunReplays(body, n, q, s, h, buf, draws, r) && Stops(n, buf, steps, total, r) && |r.trace| == 0
    ensures Runs(body, n, q, s, h, buf, steps, total, draws) == Some(r)
  {
    assert !Finished(r.trace) && steps == 0;
    assert r == Run(q, [], [], buf, total, draws);
  }

  /** A loop whose first step ends the episode is that one step. */
  lemma RunsFindsLast(body: NBody, n: nat, q: QTable, s: State, h: Option<Action>, buf: seq<Experience>, steps: nat,
                      total: real, draws: seq<Draw>, r: Run)
    requires |buf| == Lag(n, |buf|)
    requires RunReplays(body, n, q, s, h, buf, draws, r) && Stops(n, buf, steps, total, r) && |r.trace| > 0 && r.trace[0].done
    ensures Runs(body, n, q, s, h, buf, steps, total, draws) == Some(r)
  {
    RunReplaysFirst(body, n, q, s, h, buf, draws, r);
    var m := Move(r.trace[0], r.tables[0]);
    assert |r.trace| == 1 && r.trace == [m.st] && r.tables == [m.q];
    assert RewardSum(r.trace) == m.st.reward + RewardSum([]);
    assert r == Run(m.q, [m.st], [m.q], Slide(buf, Exp(m.st), n), total + m.st.reward, draws);
    RunsLast(body, n, q, s, h, buf, steps, total, draws, m);
  }

  /** A loop whose first step goes on is found whole once the loop finds
      its rest from what that step left. */
  lemma {:induction false} RunsFindsCons(body: NBody, n: nat, q: QTable, s: State, h: Option<Action>, buf: seq<Experience>,
                                         steps: nat, total: real, draws: seq<Draw>, r: Run)
    requires |buf| == Lag(n, |buf|)
    requires RunReplays(body, n, q, s, h, buf, draws, r) && Stops(n, buf, steps, total, r) && |r.trace| > 0 && !r.trace[0].done
    ensures Runs(body, n, q, s, h, buf, steps, total, draws) == Some(r)
    decreases steps, 1
  {
    RunReplaysFirst(body, n, q, s, h, buf, draws, r);
    RunReplaysTail(body, n, q, s, h, buf, draws, r);
    StopsTail(n, buf, steps, total, r);
    var m := Move(r.trace[0], r.tables[0]);
    var t := RunTail(r);
    assert [m.st] + t.trace == r.trace && [m.q] + t.tables == r.tables;
    RunsFindsStep(body, n, q, s, h, buf, steps, total, draws, m, t, r);
  }

  /** The pass `m`, in front of a loop that replays and stops from what
      `m` left, is the loop found from the start. */
  lemma {:induction false} RunsFindsStep(body: NBody, n: nat, q: QTable, s: State, h: Option<Action>, buf: seq<Experience>,
                                         steps: nat, total: real, draws: seq<Draw>, m: Move, t: Run, r: Run)
    requires |buf| == Lag(n, |buf|) && steps > 0 && |draws| > 0 && body(q, buf, s, h, draws) == Some(m) && !m.st.done
    requires RunReplays(body, n, m.q, m.st.next, m.st.nextAction, Slide(buf, Exp(m.st), n), draws[1..], t)
    requires Stops(n, Slide(buf, Exp(m.st), n), steps - 1, total + m.st.reward, t)
    requires r.trace == [m.st] + t.trace && r.tables == [m.q] + t.tables
    requires r.q == t.q && r.buf == t.buf && r.total == t.total && r.rest == t.rest
    ensures Runs(body, n, q, s, h, buf, steps, total, draws) == Some(r)
    decreases steps, 0
  {
    RunsFinds(body, n, m.q, m.st.next, m.st.nextAction, Slide(buf, Exp(m.st), n), steps - 1, total + m.st.reward, draws[1..], t);
    RunsJoin(body, n, q, s, h, buf, steps, total, draws, m, t, r);
  }

  /** The pass `m`, in front of the loop `t` found from what `m` left, is
      the loop found from the start. */
  lemma RunsJoin(body: NBody, n: nat, q: QTable, s: State, h: Option<Action>, buf: seq<Experience>, steps: nat, total: real,
                 draws: seq<Draw>, m: Move, t: Run, r: Run)
    requires |buf| == Lag(n, |buf|) && steps > 0 && |draws| > 0 && body(q, buf, s, h, draws) == Some(m) && !m.st.done
    requires Runs(body, n, m.q, m.st.next, m.st.nextAction, Slide(buf, Exp(m.st), n), steps - 1, total + m.st.reward, draws[1..])
             == Some(t)
    requires r.trace == [m.st] + t.trace && r.tables == [m.q] + t.tables
    requires r.q == t.q && r.buf == t.buf && r.total == t.total && r.rest == t.rest
    ensures Runs(body, n, q, s, h, buf, steps, total, draws) == Some(r)
  {
    assert Prepend(m, Some(t)) == Some(r);
    RunsCons(body, n, q, s, h, buf, steps, total, draws, m);
  }

  /** A pass that reports `done` ends the loop with one step. */
  lemma RunsLast(body: NBody, n: nat, q: QTable, s: State, h: Option<Action>, buf: seq<Experience>, steps: nat, total: real,
                 draws: seq<Draw>, m: Move)
    requires |buf| == Lag(n, |buf|) && steps > 0 && body(q, buf, s, h, draws) == Some(m) && m.st.done
    ensures Runs(body, n, q, s, h, buf, steps, total, draws) ==
              Some(Run(m.q, [m.st], [m.q], Slide(buf, Exp(m.st), n), total + m.st.reward, draws))
  {
  }

  /** A pass that goes on puts its step and its table in front of what
      the loop returns from the state reached. */
  lemma RunsCons(body: NBody, n: nat, q: QTable, s: State, h: Option<Action>, buf: seq<Experience>, steps: nat, total: real,
                 draws: seq<Draw>, m: Move)
    requires |buf| == Lag(n, |buf|) && steps > 0 && |draws| > 0 && body(q, buf, s, h, draws) == Some(m) && !m.st.done
    ensures Runs(body, n, q, s, h, buf, steps, total, draws) ==
              Prepend(m, Runs(body, n, m.q, m.st.next, m.st.nextAction, Slide(buf, Exp(m.st), n), steps - 1, total + m.st.reward, draws[1..]))
  {
  }

  /** Step `i` of a run the n-step body replays is `LastMove`, when it
      ends the episode, or `NStepMove` with draw `i`, on the table, the
      buffer, the state and the action in hand before it. */
  lemma NStepStepAt(env: Env, n: nat, alpha: real, gamma: real, eps: real, q: QTable, s: State, h: Option<Action>,
                    buf: seq<Experience>, draws: seq<Draw>, r: Run, i: nat)
    requires RunReplays(NStepBody(env, n, alpha, gamma, eps), n, q, s, h, buf, draws, r) && i < |r.trace|
    ensures ValidActions(env.actionKeys) && Complete(env.actionKeys, Before(q, r.tables, i))
    ensures Hand(h, r.trace, i) == Some(r.trace[i].action) && r.trace[i].action in env.actionKeys
    ensures Known(env.actionKeys, BufAt(n, buf, r.trace, i))
    ensures r.trace[i].state == At(s, r.trace, i) && Faithful(env, r.trace[i]) && Complete(env.actionKeys, r.tables[i])
    ensures r.trace[i].done ==>
              Move(r.trace[i], r.tables[i]) ==
                LastMove(env, n, alpha, gamma, Before(q, r.tables, i), At(s, r.trace, i), r.trace[i].action, BufAt(n, buf, r.trace, i))
    ensures !r.trace[i].done ==>
              && i < |draws|
              && Move(r.trace[i], r.tables[i]) ==
                   NStepMove(env, n, alpha, gamma, eps, Before(q, r.tables, i), At(s, r.trace, i), r.trace[i].action,
                             BufAt(n, buf, r.trace, i), draws[i])
  {
    var t, b, s0, h0 := Before(q, r.tables, i), BufAt(n, buf, r.trace, i), At(s, r.trace, i), Hand(h, r.trace, i);
    var m := Move(r.trace[i], r.tables[i]);
    assert ReplaysAt(NStepBody(env, n, alpha, gamma, eps), n, q, s, h, buf, draws, r, i);
    NStepBodySome(env, n, alpha, gamma, eps, t, b, s0, h0, draws[i..], m);
    if !m.st.done {
      assert draws[i..][0] == draws[i];
    }
  }

  /** What a move of the n-step body says: its inputs met the body's
      conditions, and it is `LastMove` or `NStepMove` with the first draw. */
  lemma NStepBodySome(env: Env, n: nat, alpha: real, gamma: real, eps: real, t: QTable, b: seq<Experience>, s: State,
                      h: Option<Action>, ds: seq<Draw>, m: Move)
    requires NStepBody(env, n, alpha, gamma, eps)(t, b, s, h, ds) == Some(m)
    ensures ValidActions(env.actionKeys) && Complete(env.actionKeys, t) && Known(env.actionKeys, b)
    ensures h == Some(m.st.action) && m.st.action in env.actionKeys
    ensures m.st.state == s && Faithful(env, m.st) && Complete(env.actionKeys, m.q)
    ensures m.st.done ==> m == LastMove(env, n, alpha, gamma, t, s, m.st.action, b)
    ensures !m.st.done ==> |ds| > 0 && m == NStepMove(env, n, alpha, gamma, eps, t, s, m.st.action, b, ds[0])
  {
    var a := h.value;
    if env.step(s, a).done {
      assert m == LastMove(env, n, alpha, gamma, t, s, a, b);
    } else {
      assert m == NStepMove(env, n, alpha, gamma, eps, t, s, a, b, ds[0]);
    }
  }

  /** The experiences of a walk of listed actions are listed. */
  lemma {:induction false} KnownExperiences(keys: seq<Action>, trace: seq<Step>)
    requires forall i :: 0 <= i < |trace| ==> trace[i].action in keys
    ensures Known(keys, Experiences(trace))
    decreases |trace|
  {
    if |trace| > 0 {
      assert forall i :: 0 <= i < |trace[1..]| ==> trace[1..][i].action in keys by {
        forall i | 0 <= i < |trace[1..]| ensures trace[1..][i].action in keys {
          assert trace[1..][i] == trace[i + 1];
        }
      }
      KnownExperiences(keys, trace[1..]);
    }
  }

  /** A run the n-step body replays from `s` with `a` in hand, and that
      stops, is what the loop may leave from there. */
  lemma NStepWalk(env: Env, n: nat, alpha: real, gamma: real, eps: real, q: QTable, s: State, a: Action, buf: seq<Experience>,
                  steps: nat, total: real, draws: seq<Draw>, r: Run)
    requires Complete(env.actionKeys, q) && Known(env.actionKeys, buf)
    requires RunReplays(NStepBody(env, n, alpha, gamma, eps), n, q, s, Some(a), buf, draws, r) && Stops(n, buf, steps, total, r)
    ensures LoopResult(env, n, s, a, steps, total, buf, draws, r)
  {
    forall i | 0 <= i < |r.trace|
      ensures r.trace[i].state == At(s, r.trace, i) && Faithful(env, r.trace[i]) && Complete(env.actionKeys, r.tables[i])
      ensures Hand(Some(a), r.trace, i) == Some(r.trace[i].action)
    {
      NStepStepAt(env, n, alpha, gamma, eps, q, s, Some(a), buf, draws, r, i);
    }
    forall i | 0 <= i < |r.trace| - 1
      ensures r.trace[i].next == r.trace[i + 1].state && r.trace[i].nextAction == Some(r.trace[i + 1].action)
    {
      assert r.trace[i + 1].state == At(s, r.trace, i + 1);
      assert Hand(Some(a), r.trace, i + 1) == Some(r.trace[i + 1].action);
    }
    if |r.trace| > 0 {
      assert r.trace[0].state == At(s, r.trace, 0);
      assert Hand(Some(a), r.trace, 0) == Some(r.trace[0].action);
    }
    KnownExperiences(env.actionKeys, r.trace);
    assert Known(env.actionKeys, buf + Experiences(r.trace));
    assert r.trace[..|r.trace|] == r.trace;
    BufAtWindow(n, buf, r.trace, |r.trace|);
  }

  /** What the loop may leave stops. */
  lemma LoopStops(env: Env, n: nat, s: State, a: Action, steps: nat, total: real, buf: seq<Experience>, draws: seq<Draw>, r: Run)
    requires |buf| == Lag(n, |buf|) && LoopResult(env, n, s, a, steps, total, buf, draws, r)
    ensures Stops(n, buf, steps, total, r)
  {
    assert r.trace[..|r.trace|] == r.trace;
    BufAtWindow(n, buf, r.trace, |r.trace|);
    WindowIsWindowOf(n, buf + Experiences(r.trace), r.buf);
    WindowIsWindowOf(n, buf + Experiences(r.trace), BufAt(n, buf, r.trace, |r.trace|));
  }

  /** The `while not done and step_counter < max_steps_per_episode` loop
      at state `s` with the action `a` in hand, `steps` steps still
      allowed, and `buf` buffered. */
  function NStepLoop(env: Env, n: nat, alpha: real, gamma: real, eps: real, q: QTable, s: State, a: Action,
                     buf: seq<Experience>, steps: nat, total: real, draws: seq<Draw>): (r: Option<Run>)
    requires ValidActions(env.actionKeys) && Complete(env.actionKeys, q) && a in env.actionKeys
    requires Known(env.actionKeys, buf) && |buf| == Lag(n, |buf|)
    ensures r.Some? ==> LoopResult(env, n, s, a, steps, total, buf, draws, r.value)
    ensures r.Some? ==> RunReplays(NStepBody(env, n, alpha, gamma, eps), n, q, s, Some(a), buf, draws, r.value)
    ensures forall t | LoopResult(env, n, s, a, steps, total, buf, draws, t) &&
                       RunReplays(NStepBody(env, n, alpha, gamma, eps), n, q, s, Some(a), buf, draws, t) :: r == Some(t)
  {
    var r := Runs(NStepBody(env, n, alpha, gamma, eps), n, q, s, Some(a), buf, steps, total, draws);
    RunsSound(NStepBody(env, n, alpha, gamma, eps), n, q, s, Some(a), buf, steps, total, draws);
    NStepLoopFinds(env, n, alpha, gamma, eps, q, s, a, buf, steps, total, draws);
    if r.Some? then
      NStepWalk(env, n, alpha, gamma, eps, q, s, a, buf, steps, total, draws, r.value);
      r
    else r
  }

  /** Every run from `s` with `a` in hand that the n-step body replays
      with these draws is the one the loop returns. */
  lemma NStepLoopFinds(env: Env, n: nat, alpha: real, gamma: real, eps: real, q: QTable, s: State, a: Action,
                       buf: seq<Experience>, steps: nat, total: real, draws: seq<Draw>)
    requires |buf| == Lag(n, |buf|)
    ensures forall t | LoopResult(env, n, s, a, steps, total, buf, draws, t) &&
                       RunReplays(NStepBody(env, n, alpha, gamma, eps), n, q, s, Some(a), buf, draws, t) ::
              Runs(NStepBody(env, n, alpha, gamma, eps), n, q, s, Some(a), buf, steps, total, draws) == Some(t)
  {
    forall t | LoopResult(env, n, s, a, steps, total, buf, draws, t) &&
               RunReplays(NStepBody(env, n, alpha, gamma, eps), n, q, s, Some(a), buf, draws, t)
      ensures Runs(NStepBody(env, n, alpha, gamma, eps), n, q, s, Some(a), buf, steps, total, draws) == Some(t)
    {
      LoopStops(env, n, s, a, steps, total, buf, draws, t);
      RunsFinds(NStepBody(env, n, alpha, gamma, eps), n, q, s, Some(a), buf, steps, total, draws, t);
    }
  }

  /** The states of the buffered experiences. */
  function States(buf: seq<Experience>): (ss: set<State>)
    ensures forall i :: 0 <= i < |buf| ==> buf[i].state in ss
  {
    if |buf| == 0 then {} else {buf[0].state} + States(buf[1..])
  }

  /** The drain after the loop: while the buffer is non-empty, update its
      oldest experience toward the discounted sum of all the rewards still
      buffered, with no bootstrap term, and drop it. */
  function Drain(keys: seq<Action>, q: QTable, buf: seq<Experience>, alpha: real, gamma: real): (r: QTable)
    requires Complete(keys, q) && Known(keys, buf)
    ensures Complete(keys, r)
    ensures r.Keys == q.Keys + States(buf)
    decreases |buf|
  {
    if |buf| == 0 then q
    else
      var q1 := Blend(keys, q, buf[0].state, buf[0].action, Discounted(buf, gamma, |buf|), alpha);
      Drain(keys, q1, buf[1..], alpha, gamma)
  }

  /** The drain leaves every entry of a pair it never buffered as it
      was. */
  lemma {:induction false} DrainFrame(keys: seq<Action>, q: QTable, buf: seq<Experience>, alpha: real, gamma: real, s: State, a: Action)
    requires Complete(keys, q) && Known(keys, buf) && a in keys
    requires forall i :: 0 <= i < |buf| ==> (buf[i].state, buf[i].action) != (s, a)
    ensures Get(keys, Drain(keys, q, buf, alpha, gamma), s, a) == Get(keys, q, s, a)
    decreases |buf|
  {
    if |buf| > 0 {
      var q1 := Blend(keys, q, buf[0].state, buf[0].action, Discounted(buf, gamma, |buf|), alpha);
      DrainFrame(keys, q1, buf[1..], alpha, gamma, s, a);
    }
  }

  /** A pair buffered once, at position `i`, ends the drain moved a step
      `alpha` toward the discounted sum of the rewards from `i` to the end
      of the episode, from the value it had before the drain. */
  lemma {:induction false} DrainWritesReturn(keys: seq<Action>, q: QTable, buf: seq<Experience>, alpha: real, gamma: real, i: nat)
    requires Complete(keys, q) && Known(keys, buf) && i < |buf|
    requires forall j :: 0 <= j < |buf| && j != i ==> (buf[j].state, buf[j].action) != (buf[i].state, buf[i].action)
    ensures Get(keys, Drain(keys, q, buf, alpha, gamma), buf[i].state, buf[i].action) ==
              Toward(Get(keys, q, buf[i].state, buf[i].action), Discounted(buf[i..], gamma, |buf| - i), alpha)
    decreases |buf|
  {
    var s, a := buf[i].state, buf[i].action;
    var q1 := Blend(keys, q, buf[0].state, buf[0].action, Discounted(buf, gamma, |buf|), alpha);
    var rest := buf[1..];
    if i == 0 {
      assert buf[0..] == buf;
      assert forall j :: 0 <= j < |rest| ==> (rest[j].state, rest[j].action) != (s, a) by {
        forall j | 0 <= j < |rest| ensures (rest[j].state, rest[j].action) != (s, a) {
          assert rest[j] == buf[j + 1];
        }
      }
      DrainFrame(keys, q1, rest, alpha, gamma, s, a);
    } else {
      assert Get(keys, q1, s, a) == Get(keys, q, s, a);
      assert rest[i - 1] == buf[i];
      assert forall j :: 0 <= j < |rest| && j != i - 1 ==> (rest[j].state, rest[j].action) != (s, a) by {
        forall j | 0 <= j < |rest| && j != i - 1 ensures (rest[j].state, rest[j].action) != (s, a) {
          assert rest[j] == buf[j + 1];
        }
      }
      DrainWritesReturn(keys, q1, rest, alpha, gamma, i - 1);
      assert rest[i - 1..] == buf[i..];
    }
  }

  /** One n-step SARSA episode from the start state: choose the first
      action, run the loop for at most `maxSteps` steps, then drain the
      buffer. The episode may stop on the step bound before `done`; its
      buffer is then drained without a bootstrap term all the same. */
  function NStepEpisode(env: Env, n: nat, alpha: real, gamma: real, eps: real, maxSteps: nat, q: QTable,
                        draws: seq<Draw>): (r: Option<Episode>)
    requires ValidActions(env.actionKeys) && Complete(env.actionKeys, q)
    ensures r.Some? ==> Complete(env.actionKeys, r.value.q) && Walk(env, env.startPos, r.value.trace) && Chained(r.value.trace)
    ensures r.Some? ==> |r.value.trace| <= maxSteps && (Finished(r.value.trace) || |r.value.trace| == maxSteps)
    ensures r.Some? ==> r.value.total == RewardSum(r.value.trace) && |r.value.rest| < |draws|
    ensures forall t :: EpisodeRun(env, n, alpha, gamma, eps, maxSteps, q, draws, t) ==>
              r == Some(Episode(Drain(env.actionKeys, t.q, t.buf, alpha, gamma), t.trace, t.tables, t.total, t.rest))
  {
    match FinalRun(env, n, alpha, gamma, eps, maxSteps, q, draws)
    case None => None
    case Some(run) => Some(Episode(Drain(env.actionKeys, run.q, run.buf, alpha, gamma), run.trace, run.tables, run.total, run.rest))
  }

  /** `r` is the loop of an episode that chose its first action with the
      first draw: the n-step body replays it from the start state, with
      that action in hand, the table the choice left, an empty buffer and
      the draws after the first, and it stops within `maxSteps`. */
  predicate EpisodeRun(env: Env, n: nat, alpha: real, gamma: real, eps: real, maxSteps: nat, q: QTable, draws: seq<Draw>, r: Run)
    requires ValidActions(env.actionKeys) && Complete(env.actionKeys, q)
  {
    && |draws| > 0
    && var c := EpsilonGreedy(env.actionKeys, q, env.startPos, eps, draws[0]);
    && LoopResult(env, n, env.startPos, c.action, maxSteps, 0.0, [], draws[1..], r)
    && RunReplays(NStepBody(env, n, alpha, gamma, eps), n, c.q, env.startPos, Some(c.action), [], draws[1..], r)
  }

  /** The loop an n-step episode `e` ran before its drain, read off `e`:
      the table its last step left (`q` when it took none), its walk, its
      tables, the window of its walk, its total and its draws left. */
  function LoopOf(n: nat, q: QTable, e: Episode): (t: Run)
    ensures t.trace == e.trace && t.tables == e.tables && t.total == e.total && t.rest == e.rest
    ensures Window(n, Experiences(e.trace), t.buf)
    ensures |e.tables| > 0 ==> t.q == e.tables[|e.tables| - 1]
  {
    BufAtWindow(n, [], e.trace, |e.trace|);
    assert e.trace[..|e.trace|] == e.trace;
    WindowFromEmpty(n, Experiences(e.trace), BufAt(n, [], e.trace, |e.trace|));
    Run(Before(q, e.tables, |e.tables|), e.trace, e.tables, BufAt(n, [], e.trace, |e.trace|), e.total, e.rest)
  }

  /** `e` is an n-step episode from `q` with `draws`: the loop the n-step
      body replays from the first choice and stops within `maxSteps`, and
      then the drain of its last table over the window it ended with. */
  predicate EpisodeIs(env: Env, n: nat, alpha: real, gamma: real, eps: real, maxSteps: nat, q: QTable, draws: seq<Draw>,
                      e: Episode)
    requires ValidActions(env.actionKeys) && Complete(env.actionKeys, q)
  {
    && |draws| > 0
    && var t := LoopOf(n, EpsilonGreedy(env.actionKeys, q, env.startPos, eps, draws[0]).q, e);
    && EpisodeRun(env, n, alpha, gamma, eps, maxSteps, q, draws, t)
    && Complete(env.actionKeys, t.q) && Known(env.actionKeys, t.buf)
    && e.q == Drain(env.actionKeys, t.q, t.buf, alpha, gamma)
  }

  /** The episode returns `e` exactly when `e` is an n-step episode from
      these draws; so it returns `None` exactly when there is none, that
      is, when the draws run out before `done` and the step bound. */
  lemma NStepEpisodeIs(env: Env, n: nat, alpha: real, gamma: real, eps: real, maxSteps: nat, q: QTable, draws: seq<Draw>,
                       e: Episode)
    requires ValidActions(env.actionKeys) && Complete(env.actionKeys, q)
    ensures NStepEpisode(env, n, alpha, gamma, eps, maxSteps, q, draws) == Some(e) <==>
            EpisodeIs(env, n, alpha, gamma, eps, maxSteps, q, draws, e)
  {
    var r := FinalRun(env, n, alpha, gamma, eps, maxSteps, q, draws);
    if |draws| > 0 {
      var c := EpsilonGreedy(env.actionKeys, q, env.startPos, eps, draws[0]);
      var t := LoopOf(n, c.q, e);
      if EpisodeIs(env, n, alpha, gamma, eps, maxSteps, q, draws, e) {
        assert e == Episode(Drain(env.actionKeys, t.q, t.buf, alpha, gamma), t.trace, t.tables, t.total, t.rest);
      }
      if r.Some? && NStepEpisode(env, n, alpha, gamma, eps, maxSteps, q, draws) == Some(e) {
        var run := r.value;
        assert e == Episode(Drain(env.actionKeys, run.q, run.buf, alpha, gamma), run.trace, run.tables, run.total, run.rest);
        LoopStops(env, n, env.startPos, c.action, maxSteps, 0.0, [], draws[1..], run);
        assert t == run;
      }
    }
  }

  /** The state the loop of an episode ends in, before the drain. */
  function FinalRun(env: Env, n: nat, alpha: real, gamma: real, eps: real, maxSteps: nat, q: QTable,
                    draws: seq<Draw>): (r: Option<Run>)
    requires ValidActions(env.actionKeys) && Complete(env.actionKeys, q)
    ensures r.Some? ==> |draws| > 0 && RunFrom(env, env.startPos, FirstAction(env, eps, q, draws), maxSteps, 0.0, r.value)
    ensures r.Some? ==> |r.value.rest| < |draws| && Known(env.actionKeys, r.value.buf)
    ensures r.Some? ==> Window(n, Experiences(r.value.trace), r.value.buf)
    ensures r.Some? ==> EpisodeRun(env, n, alpha, gamma, eps, maxSteps, q, draws, r.value)
    ensures forall t :: EpisodeRun(env, n, alpha, gamma, eps, maxSteps, q, draws, t) ==> r == Some(t)
  {
    if |draws| == 0 then None
    else
      var c := EpsilonGreedy(env.actionKeys, q, env.startPos, eps, draws[0]);
      var r := NStepLoop(env, n, alpha, gamma, eps, c.q, env.startPos, c.action, [], maxSteps, 0.0, draws[1..]);
      if r.Some? then
        WindowFromEmpty(n, Experiences(r.value.trace), r.value.buf);
        r
      else r
  }

  /** A window of everything seen after an empty buffer is a window of
      the experiences alone. */
  lemma WindowFromEmpty(n: nat, es: seq<Experience>, b: seq<Experience>)
    requires Window(n, [] + es, b)
    ensures Window(n, es, b)
  {
    assert [] + es == es;
  }

  /** The first action of an episode: the epsilon-greedy choice at the
      start state with the first draw. */
  function FirstAction(env: Env, eps: real, q: QTable, draws: seq<Draw>): (a: Action)
    requires ValidActions(env.actionKeys) && Complete(env.actionKeys, q) && |draws| > 0
    ensures a in env.actionKeys
  {
    EpsilonGreedy(env.actionKeys, q, env.startPos, eps, draws[0]).action
  }

  /** The episode's table is the drain of the loop's table over the loop's
      final buffer, and that buffer holds exactly the last `n - 1`
      experiences of the walk (all of them when the walk is shorter, none
      when `n` is 0). */
  lemma EpisodeDrainsWindow(env: Env, n: nat, alpha: real, gamma: real, eps: real, maxSteps: nat, q: QTable, draws: seq<Draw>)
    requires ValidActions(env.actionKeys) && Complete(env.actionKeys, q)
    requires NStepEpisode(env, n, alpha, gamma, eps, maxSteps, q, draws).Some?
    ensures var run := FinalRun(env, n, alpha, gamma, eps, maxSteps, q, draws).value;
            var e := NStepEpisode(env, n, alpha, gamma, eps, maxSteps, q, draws).value;
            && e.trace == run.trace && e.rest == run.rest
            && e.q == Drain(env.actionKeys, run.q, run.buf, alpha, gamma)
            && |run.buf| == Lag(n, |e.trace|)
            && run.buf == Experiences(e.trace)[|e.trace| - |run.buf|..]
  {
    var run := FinalRun(env, n, alpha, gamma, eps, maxSteps, q, draws).value;
    assert NStepEpisode(env, n, alpha, gamma, eps, maxSteps, q, draws).value ==
           Episode(Drain(env.actionKeys, run.q, run.buf, alpha, gamma), run.trace, run.tables, run.total, run.rest);
  }
}
