/**
 The System State Table (`dic` in the controller): two parallel columns,
 'Timestamp' and 'System State', grown one row at a time and never edited.
 */
module StateTable {

  /** The text written to the 'System State' column. */
  datatype Label = On | Off

  /** The two columns, kept separately as the source keeps them. Timestamps
      are clock readings in whole seconds; their text form is left out. */
  datatype Table = Table(timestamps: seq<int>, states: seq<Label>)

  /** The table before the first transition: both columns empty. */
  const Empty: Table := Table([], [])

  /** Both columns have the same number of rows, so the table is rectangular. */
  predicate WellFormed(t: Table) {
    |t.timestamps| == |t.states|
  }

  /** Appends one row: the timestamp to the first column, then the state to
      the second. Earlier rows are left as they were. */
  function AppendRow(t: Table, ts: int, state: Label): (t': Table)
    ensures |t'.timestamps| == |t.timestamps| + 1
    ensures |t'.states| == |t.states| + 1
    ensures WellFormed(t) <==> WellFormed(t')
    ensures t'.timestamps[..|t.timestamps|] == t.timestamps
    ensures t'.states[..|t.states|] == t.states
    ensures t'.timestamps[|t.timestamps|] == ts && t'.states[|t.states|] == state
  {
    Table(t.timestamps + [ts], t.states + [state])
  }

  /** Row i reads 'On' when i is even and 'Off' when it is odd. */
  predicate Alternating(states: seq<Label>) {
    forall i :: 0 <= i < |states| ==> states[i] == (if i % 2 == 0 then On else Off)
  }

  /** The log starts with 'On' and no two neighbouring rows carry the same label. */
  predicate StartsOnAndFlips(states: seq<Label>) {
    && (|states| > 0 ==> states[0] == On)
    && forall i :: 0 < i < |states| ==> states[i] != states[i - 1]
  }

  /** The parity description of the log and the neighbour-by-neighbour one agree. */
  lemma {:induction false} AlternatingIffFlips(states: seq<Label>)
    ensures Alternating(states) <==> StartsOnAndFlips(states)
  {
    if Alternating(states) {
      forall i | 0 < i < |states|
        ensures states[i] != states[i - 1]
      {
        assert (i % 2 == 0) != ((i - 1) % 2 == 0);
      }
    }
    if StartsOnAndFlips(states) {
      FlipsGiveParity(states, |states|);
    }
  }

  lemma {:induction false} FlipsGiveParity(states: seq<Label>, n: nat)
    requires StartsOnAndFlips(states)
    requires n <= |states|
    ensures forall i :: 0 <= i < n ==> states[i] == (if i % 2 == 0 then On else Off)
  {
    if n > 1 {
      FlipsGiveParity(states, n - 1);
      var j := n - 1;
      assert states[j] != states[j - 1];
      assert (j % 2 == 0) != ((j - 1) % 2 == 0);
    }
  }

  /** Timestamps never go backwards from one row to the next. */
  predicate NonDecreasing(ts: seq<int>) {
    forall i, j :: 0 <= i < j < |ts| ==> ts[i] <= ts[j]
  }

}
