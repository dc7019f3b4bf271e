/** The learners' action-value table: a dict of rows keyed by state, each
    row a dict keyed by action label. Rows come from a `defaultdict`, so
    reading the row of an unseen state creates it, all zero. Every row is
    created with one entry per action, in action-list order, and later
    writes only overwrite entries. So a row's iteration order is the
    action-list order, and scanning the action list is scanning the row. */
module QTables {
  import opened Common
  import opened Mdp

  type Row = map<Action, real>
  type QTable = map<State, Row>

  /** What the learners need of the action list: it is non-empty (`max`
      and `random.choice` fail on an empty one) and free of repeats. */
  predicate ValidActions(keys: seq<Action>) {
    |keys| > 0 && Distinct(keys)
  }

  function KeySet(keys: seq<Action>): set<Action> {
    set a | a in keys
  }

  /** The row a first access creates: 0.0 for every action. */
  function ZeroRow(keys: seq<Action>): (row: Row)
    ensures row.Keys == KeySet(keys)
    ensures forall a :: a in row ==> row[a] == 0.0
  {
    map a | a in keys :: 0.0
  }

  /** A row holds exactly one entry per action. */
  predicate RowComplete(keys: seq<Action>, row: Row) {
    row.Keys == KeySet(keys)
  }

  /** No row of the table is partially initialised. */
  predicate Complete(keys: seq<Action>, q: QTable) {
    forall s :: s in q ==> RowComplete(keys, q[s])
  }

  /** The table after reading `q_table[s]`: the row of `s` is created, all
      zero, when missing, and nothing else changes. */
  function Touch(keys: seq<Action>, q: QTable, s: State): (r: QTable)
    ensures r.Keys == q.Keys + {s}
    ensures forall t :: t in q ==> r[t] == q[t]
    ensures s !in q ==> r[s] == ZeroRow(keys)
    ensures Complete(keys, q) ==> Complete(keys, r)
  {
    if s in q then q else q[s := ZeroRow(keys)]
  }

  /** The value `q_table[s][a]` reads: the stored entry, or 0.0 when the
      row of `s` does not exist yet. */
  function Get(keys: seq<Action>, q: QTable, s: State, a: Action): real
    requires Complete(keys, q) && a in keys
  {
    if s in q then q[s][a] else 0.0
  }

  /** Creating a row never changes what any read returns, and afterwards
      the row holds what the read returned. */
  lemma TouchKeepsReads(keys: seq<Action>, q: QTable, s: State)
    requires Complete(keys, q)
    ensures forall t, a :: a in keys ==> Get(keys, Touch(keys, q, s), t, a) == Get(keys, q, t, a)
    ensures forall a :: a in keys ==> Touch(keys, q, s)[s][a] == Get(keys, q, s, a)
  {
  }

  /** The row `q_table[s]` reads: the stored row, or a fresh all-zero one. */
  function ReadRow(keys: seq<Action>, q: QTable, s: State): (row: Row)
    requires Complete(keys, q)
    ensures RowComplete(keys, row)
    ensures forall a :: a in keys ==> row[a] == Get(keys, q, s, a)
    ensures row == Touch(keys, q, s)[s]
  {
    if s in q then q[s] else ZeroRow(keys)
  }

  /** Creating a row never changes the row any read returns. */
  lemma TouchKeepsRows(keys: seq<Action>, q: QTable, s: State, t: State)
    requires Complete(keys, q)
    ensures ReadRow(keys, Touch(keys, q, s), t) == ReadRow(keys, q, t)
  {
  }

  /** `q_table[s][a] = x` on a table whose row of `s` exists. */
  function SetEntry(keys: seq<Action>, q: QTable, s: State, a: Action, x: real): (r: QTable)
    requires Complete(keys, q) && s in q && a in keys
    ensures r.Keys == q.Keys && Complete(keys, r)
    ensures Get(keys, r, s, a) == x
    ensures forall t, b :: b in keys && (t, b) != (s, a) ==> Get(keys, r, t, b) == Get(keys, q, t, b)
  {
    q[s := q[s][a := x]]
  }

  /** Position, in the action list, of the first largest entry among the
      first `n` actions of a row: Python's `max(row, key=row.get)`, which
      replaces its candidate only on a strictly larger value. */
  function FirstMaxKey(keys: seq<Action>, row: Row, n: nat): (k: nat)
    requires RowComplete(keys, row) && 0 < n <= |keys|
    ensures k < n
  {
    if n == 1 then 0
    else
      var k := FirstMaxKey(keys, row, n - 1);
      if row[keys[n - 1]] > row[keys[k]] then n - 1 else k
  }

  /** The scan's position holds a largest entry of the prefix, and every
      earlier position holds a strictly smaller one. */
  lemma {:induction false} FirstMaxKeyIsFirstMax(keys: seq<Action>, row: Row, n: nat)
    requires RowComplete(keys, row) && 0 < n <= |keys|
    ensures var k := FirstMaxKey(keys, row, n);
            forall j :: 0 <= j < n ==> row[keys[j]] <= row[keys[k]]
    ensures var k := FirstMaxKey(keys, row, n);
            forall j :: 0 <= j < k ==> row[keys[j]] < row[keys[k]]
  {
    if n > 1 {
      FirstMaxKeyIsFirstMax(keys, row, n - 1);
    }
  }

  /** `max(row, key=row.get)`: the first action of largest value. */
  function ArgMax(keys: seq<Action>, row: Row): (a: Action)
    requires RowComplete(keys, row) && |keys| > 0
    ensures a in keys && a in row
  {
    keys[FirstMaxKey(keys, row, |keys|)]
  }

  /** `max(row.values())`: the largest value of the row. */
  function RowMax(keys: seq<Action>, row: Row): real
    requires RowComplete(keys, row) && |keys| > 0
  {
    row[ArgMax(keys, row)]
  }

  /** The row maximum bounds every entry and is attained by `ArgMax`,
      which is the first action attaining it. */
  lemma RowMaxIsMax(keys: seq<Action>, row: Row)
    requires RowComplete(keys, row) && ValidActions(keys)
    ensures forall a :: a in row ==> row[a] <= RowMax(keys, row)
    ensures row[ArgMax(keys, row)] == RowMax(keys, row)
    ensures forall i, j :: 0 <= j < i < |keys| && keys[i] == ArgMax(keys, row) ==>
              row[keys[j]] < RowMax(keys, row)
  {
    FirstMaxKeyIsFirstMax(keys, row, |keys|);
    var k := FirstMaxKey(keys, row, |keys|);
    assert forall a :: a in row ==> exists j :: 0 <= j < |keys| && keys[j] == a;
    assert forall i :: 0 <= i < |keys| && keys[i] == keys[k] ==> i == k;
  }

  /** The row's smallest value. */
  function RowMin(keys: seq<Action>, row: Row, n: nat): (m: real)
    requires RowComplete(keys, row) && 0 < n <= |keys|
    ensures forall j :: 0 <= j < n ==> m <= row[keys[j]]
    ensures exists j :: 0 <= j < n && row[keys[j]] == m
  {
    if n == 1 then row[keys[0]]
    else
      var m := RowMin(keys, row, n - 1);
      if row[keys[n - 1]] < m then row[keys[n - 1]] else m
  }

  /** The actions tied at value `m` among the first `n`, in action-list
      order: `[action for action, q in q_values.items() if q == max_q]`. */
  function Ties(keys: seq<Action>, row: Row, m: real, n: nat): (ts: seq<Action>)
    requires RowComplete(keys, row) && n <= |keys|
    ensures |ts| <= n
    ensures forall a :: a in ts <==> a in keys[..n] && row[a] == m
  {
    if n == 0 then []
    else
      assert keys[..n] == keys[..n - 1] + [keys[n - 1]];
      Ties(keys, row, m, n - 1) + (if row[keys[n - 1]] == m then [keys[n - 1]] else [])
  }

  /** One random input of an epsilon-greedy choice: the uniform draw `u`
      compared with epsilon, and the index `pick` that `random.choice`
      reduces modulo the length of the list it chooses from. */
  datatype Draw = Draw(u: real, pick: nat)

  /** The chosen action and the table after the choice. */
  datatype Choice = Choice(action: Action, q: QTable)

  /** The exploit branch of `choose_action_e_greedy`: read the row of `s`,
      creating it if needed, and let `pick` choose among the actions tied
      at the row maximum, in the row's order. */
  function Exploit(keys: seq<Action>, q: QTable, s: State, pick: nat): (c: Choice)
    requires ValidActions(keys) && Complete(keys, q)
    ensures c.action in keys && c.q == Touch(keys, q, s)
    ensures c.q[s][c.action] == RowMax(keys, c.q[s])
  {
    var q' := Touch(keys, q, s);
    var row := q'[s];
    var m := RowMax(keys, row);
    RowMaxIsMax(keys, row);
    var ts := Ties(keys, row, m, |keys|);
    assert keys[..|keys|] == keys;
    assert ArgMax(keys, row) in ts;
    Choice(ts[pick % |ts|], q')
  }

  /** `choose_action_e_greedy`: explore (a uniform action, the table
      untouched) when the draw is below epsilon, exploit otherwise. Either
      way no value the table reads changes. */
  function EpsilonGreedy(keys: seq<Action>, q: QTable, s: State, eps: real, d: Draw): (c: Choice)
    requires ValidActions(keys) && Complete(keys, q)
    ensures c.action in keys
    ensures Complete(keys, c.q)
    ensures forall t, a :: a in keys ==> Get(keys, c.q, t, a) == Get(keys, q, t, a)
    ensures d.u < eps ==> c.q == q
    ensures d.u >= eps ==> c.q == Touch(keys, q, s)
    ensures d.u >= eps ==> c.q[s][c.action] == RowMax(keys, c.q[s])
  {
    TouchKeepsReads(keys, q, s);
    if d.u < eps then Choice(keys[d.pick % |keys|], q)
    else Exploit(keys, q, s, d.pick)
  }

  /** On the exploit branch the chosen action's value is the largest of
      the row. */
  lemma ExploitChoosesMax(keys: seq<Action>, q: QTable, s: State, eps: real, d: Draw)
    requires ValidActions(keys) && Complete(keys, q) && d.u >= eps
    ensures var c := EpsilonGreedy(keys, q, s, eps, d);
            forall b :: b in keys ==> Get(keys, q, s, b) <= Get(keys, q, s, c.action)
  {
    var c := EpsilonGreedy(keys, q, s, eps, d);
    RowMaxIsMax(keys, c.q[s]);
    TouchKeepsReads(keys, q, s);
  }

  /** Every action tied at the row maximum is chosen by some draw. */
  lemma EveryTieIsChosen(keys: seq<Action>, q: QTable, s: State, eps: real, u: real, b: Action)
    requires ValidActions(keys) && Complete(keys, q) && u >= eps
    requires b in keys && Get(keys, q, s, b) == RowMax(keys, Touch(keys, q, s)[s])
    ensures exists p: nat :: EpsilonGreedy(keys, q, s, eps, Draw(u, p)).action == b
  {
    var row := Touch(keys, q, s)[s];
    var ts := Ties(keys, row, RowMax(keys, row), |keys|);
    TouchKeepsReads(keys, q, s);
    assert row[b] == RowMax(keys, row);
    assert keys[..|keys|] == keys;
    assert b in ts;
    var p :| 0 <= p < |ts| && ts[p] == b;
    ModBelow(p, |ts|);
    assert EpsilonGreedy(keys, q, s, eps, Draw(u, p)).action == b;
  }

  /** With epsilon at most 0 a draw from [0, 1) never explores: the choice
      always attains the row maximum and creates the row. */
  lemma ZeroEpsilonNeverExplores(keys: seq<Action>, q: QTable, s: State, eps: real, d: Draw)
    requires ValidActions(keys) && Complete(keys, q)
    requires eps <= 0.0 && 0.0 <= d.u
    ensures s in EpsilonGreedy(keys, q, s, eps, d).q
    ensures forall b :: b in keys ==>
              Get(keys, q, s, b) <= Get(keys, q, s, EpsilonGreedy(keys, q, s, eps, d).action)
  {
    ExploitChoosesMax(keys, q, s, eps, d);
  }

  /** The final policy `{s: max(q_table[s], key=q_table[s].get) for s in
      q_table}`: one entry per created row. */
  function GreedyPolicy(keys: seq<Action>, q: QTable): (p: map<State, Action>)
    requires ValidActions(keys) && Complete(keys, q)
    ensures p.Keys == q.Keys
    ensures forall s :: s in p ==> p[s] in keys
  {
    map s | s in q :: ArgMax(keys, q[s])
  }

  /** Each policy entry maximises its row, and no action listed before it
      attains the maximum. */
  lemma GreedyPolicyMaximises(keys: seq<Action>, q: QTable)
    requires ValidActions(keys) && Complete(keys, q)
    ensures forall s, b :: s in q && b in keys ==> q[s][b] <= q[s][GreedyPolicy(keys, q)[s]]
    ensures forall s, i, j :: s in q && 0 <= j < i < |keys| && keys[i] == GreedyPolicy(keys, q)[s] ==>
              q[s][keys[j]] < q[s][GreedyPolicy(keys, q)[s]]
  {
    forall s | s in q
      ensures forall b :: b in keys ==> q[s][b] <= q[s][GreedyPolicy(keys, q)[s]]
      ensures forall i, j :: 0 <= j < i < |keys| && keys[i] == GreedyPolicy(keys, q)[s] ==>
                q[s][keys[j]] < q[s][GreedyPolicy(keys, q)[s]]
    {
      RowMaxIsMax(keys, q[s]);
    }
  }
}
