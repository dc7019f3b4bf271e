/** `q_to_v_table`: the value of a state is the largest action value of
    its row, and 0.0 for an empty row. */
module Visualization {
  import opened Common
  import opened Mdp
  import opened QTables

  /** The largest element of a non-empty finite set of reals. The order in
      which Python's `max` visits the values does not change the value it
      returns, so the set of values is all that matters. */
  ghost function SetMax(xs: set<real>): (m: real)
    requires xs != {}
    ensures m in xs
    ensures forall x :: x in xs ==> x <= m
    decreases xs
  {
    assert (forall y :: y !in xs) ==> xs == {};
    var x :| x in xs;
    if xs == {x} then x
    else
      var m := SetMax(xs - {x});
      assert forall y :: y in xs ==> y == x || y in xs - {x};
      Max(x, m)
  }

  /** The value of one row: its largest value, or 0.0 when it is empty. */
  ghost function RowValue(row: map<Action, real>): (v: real)
    ensures row != map[] ==> (forall a :: a in row ==> row[a] <= v) && exists a :: a in row && row[a] == v
    ensures row == map[] ==> v == 0.0
  {
    if row != map[] then
      assert row.Keys != {} by {
        var a :| a in row;
      }
      var m := SetMax(row.Values);
      assert forall a :: a in row ==> row[a] in row.Values;
      var a :| a in row && row[a] == m;
      m
    else 0.0
  }

  /** `q_to_v_table(q_table)`: a new table with exactly the states of the
      Q-table, each mapped to the value of its row. */
  ghost function QToV(q: map<State, map<Action, real>>): (v: map<State, real>)
    ensures v.Keys == q.Keys
    ensures forall s :: s in q && q[s] != map[] ==>
              (forall a :: a in q[s] ==> q[s][a] <= v[s]) && exists a :: a in q[s] && q[s][a] == v[s]
    ensures forall s :: s in q && q[s] == map[] ==> v[s] == 0.0
  {
    map s | s in q :: RowValue(q[s])
  }

  /** On a table whose rows hold every action, the value of a state is
      the row maximum the learners use, which is also the value of the
      greedy policy's action there. */
  lemma QToVIsGreedyValue(keys: seq<Action>, q: QTable, s: State)
    requires ValidActions(keys) && Complete(keys, q) && s in q
    ensures QToV(q)[s] == RowMax(keys, q[s])
    ensures QToV(q)[s] == q[s][GreedyPolicy(keys, q)[s]]
  {
    var v := QToV(q);
    RowMaxIsMax(keys, q[s]);
    assert keys[0] in q[s];
    var a :| a in q[s] && q[s][a] == v[s];
    assert q[s][a] <= RowMax(keys, q[s]);
    assert q[s][ArgMax(keys, q[s])] <= v[s];
  }
}
