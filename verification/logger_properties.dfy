/**
 Properties of whole runs of the controller: the guarded loop against the
 unguarded replay of its body, how many commands a run sends, when it ends,
 the order of the logged timestamps, and the shape of the finished table.
 */
module LoggerProperties {
  import opened Wrappers
  import opened StateTable
  import opened Controller

  /** Replaying one more tick is one more step. */
  lemma {:induction false} ReplaySnoc(cfg: Config, s: RunState, ticks: seq<Tick>, t: Tick)
    ensures Replay(cfg, s, ticks + [t]) == Step(cfg, Replay(cfg, s, ticks), t)
    decreases |ticks|
  {
    if |ticks| > 0 {
      assert (ticks + [t])[1..] == ticks[1..] + [t];
      ReplaySnoc(cfg, Step(cfg, s, ticks[0]), ticks[1..], t);
    } else {
      assert (ticks + [t])[1..] == [];
    }
  }

  /** Every command the body sends over a stretch of ticks is either a timed
      transition, which the cycle counter records, or an override key press,
      which it does not; and the counter never goes down. */
  lemma {:induction false} ReplayCounts(cfg: Config, s: RunState, ticks: seq<Tick>)
    ensures Replay(cfg, s, ticks).cycle >= s.cycle
    ensures |Replay(cfg, s, ticks).sent| == |s.sent| + (Replay(cfg, s, ticks).cycle - s.cycle) + Overrides(ticks)
    decreases |ticks|
  {
    if |ticks| > 0 {
      ReplayCounts(cfg, Step(cfg, s, ticks[0]), ticks[1..]);
    }
  }

  /** The guarded loop is the replay of its body over the ticks up to the
      first one after which the counter is 20: before that point the counter
      is always below 20, and the loop stops there or at the end of the
      observed ticks. */
  lemma {:induction false} LoopIsReplay(cfg: Config, s: RunState, ticks: seq<Tick>)
    ensures var r := Loop(cfg, s, ticks);
      && r.state == Replay(cfg, s, ticks[..r.consumed])
      && (forall k :: 0 <= k < r.consumed ==> Replay(cfg, s, ticks[..k]).cycle < MaxCycles)
      && (r.consumed == |ticks| || Replay(cfg, s, ticks[..r.consumed]).cycle >= MaxCycles)
    decreases |ticks|
  {
    var r := Loop(cfg, s, ticks);
    if r.consumed > 0 {
      var s1 := Step(cfg, s, ticks[0]);
      var tail := ticks[1..];
      LoopIsReplay(cfg, s1, tail);
      assert ticks[..r.consumed][1..] == tail[..r.consumed - 1];
      forall k | 0 <= k < r.consumed
        ensures Replay(cfg, s, ticks[..k]).cycle < MaxCycles
      {
        if k > 0 {
          assert ticks[..k][1..] == tail[..k - 1];
        }
      }
    }
  }

  /** Every command the loop sends is either a timed transition, counted by
      the cycle counter, or an override key press among the ticks it
      consumed. */
  lemma LoopCounts(cfg: Config, s: RunState, ticks: seq<Tick>)
    ensures var r := Loop(cfg, s, ticks);
      |r.state.sent| == |s.sent| + (r.state.cycle - s.cycle) + Overrides(ticks[..r.consumed])
  {
    var r := Loop(cfg, s, ticks);
    LoopIsReplay(cfg, s, ticks);
    ReplayCounts(cfg, s, ticks[..r.consumed]);
  }

  /** Conversely, any point of the ticks before which the counter stayed below
      20 and at which it has reached 20 (or the ticks ran out) is where the
      loop stops. */
  lemma LoopStopsAtFirstCompletion(cfg: Config, s: RunState, ticks: seq<Tick>, i: nat)
    requires i <= |ticks|
    requires forall k :: 0 <= k < i ==> Replay(cfg, s, ticks[..k]).cycle < MaxCycles
    requires i == |ticks| || Replay(cfg, s, ticks[..i]).cycle >= MaxCycles
    ensures Loop(cfg, s, ticks) == LoopResult(Replay(cfg, s, ticks[..i]), i)
  {
    LoopIsReplay(cfg, s, ticks);
    var r := Loop(cfg, s, ticks);
    assert r.consumed == i;
  }

  /** A run completes exactly when the replayed body brings the cycle counter
      to 20 at some point of the observed ticks. */
  lemma LoggerCompletesIffTwentyCycles(cfg: Config, gateTime: int, ticks: seq<Tick>, endTime: int)
    ensures Logger(cfg, gateTime, ticks, endTime).Completed? <==>
      exists k :: 0 <= k <= |ticks| && Replay(cfg, Start(gateTime), ticks[..k]).cycle == MaxCycles
  {
    var s := Start(gateTime);
    var r := Loop(cfg, s, ticks);
    LoopIsReplay(cfg, s, ticks);
    if r.state.cycle >= MaxCycles {
      assert Replay(cfg, s, ticks[..r.consumed]).cycle == MaxCycles;
    } else {
      assert ticks[..|ticks|] == ticks;
      forall k | 0 <= k <= |ticks|
        ensures Replay(cfg, s, ticks[..k]).cycle != MaxCycles
      {
      }
    }
  }

  /** A completed run sent one command for the start, nineteen for timed
      transitions and one per override key press among the ticks it
      consumed; the table has one more row than that, the synthetic one. */
  lemma LoggerCommandCount(cfg: Config, gateTime: int, ticks: seq<Tick>, endTime: int)
    requires Logger(cfg, gateTime, ticks, endTime).Completed?
    ensures var o := Logger(cfg, gateTime, ticks, endTime);
      var n := Loop(cfg, Start(gateTime), ticks).consumed;
      && |o.sent| == MaxCycles + Overrides(ticks[..n])
      && |o.table.states| == |o.table.timestamps| == MaxCycles + Overrides(ticks[..n]) + 1
  {
    LoopCounts(cfg, Start(gateTime), ticks);
  }

  /** The table of a completed run reads 'On', 'Off', 'On', ... with every
      real row differing from the one before it, and ends with the synthetic
      'On' row whatever the last real state was. */
  lemma LoggerLogFlips(cfg: Config, gateTime: int, ticks: seq<Tick>, endTime: int)
    requires Logger(cfg, gateTime, ticks, endTime).Completed?
    ensures var o := Logger(cfg, gateTime, ticks, endTime);
      && |o.table.states| >= 1
      && StartsOnAndFlips(o.table.states[..|o.table.states| - 1])
      && o.table.states[|o.table.states| - 1] == On
  {
  }

  /** The clock as the loop sees it: the ticks never go backwards, none is
      earlier than the start, and none the loop reads is later than the final
      reading. Ticks after the loop has stopped are unconstrained above. */
  predicate ClockMonotone(cfg: Config, gateTime: int, ticks: seq<Tick>, endTime: int) {
    && (forall i :: 0 <= i < |ticks| ==> gateTime <= ticks[i].now)
    && (forall i, j :: 0 <= i < j < |ticks| ==> ticks[i].now <= ticks[j].now)
    && (forall i :: 0 <= i < Loop(cfg, Start(gateTime), ticks).consumed ==> ticks[i].now <= endTime)
  }

  /** Logged times are ordered and none is later than the last change. */
  predicate TimesOrdered(s: RunState) {
    && NonDecreasing(s.table.timestamps)
    && forall i :: 0 <= i < |s.table.timestamps| ==> s.table.timestamps[i] <= s.lastChange
  }

  lemma {:induction false} ReplayKeepsTimesOrdered(cfg: Config, s: RunState, ticks: seq<Tick>, bound: int)
    requires TimesOrdered(s) && s.lastChange <= bound
    requires forall i :: 0 <= i < |ticks| ==> s.lastChange <= ticks[i].now <= bound
    requires forall i, j :: 0 <= i < j < |ticks| ==> ticks[i].now <= ticks[j].now
    ensures TimesOrdered(Replay(cfg, s, ticks)) && Replay(cfg, s, ticks).lastChange <= bound
    decreases |ticks|
  {
    if |ticks| > 0 {
      var s1 := Step(cfg, s, ticks[0]);
      assert TimesOrdered(s1);
      var tail := ticks[1..];
      assert forall i :: 0 <= i < |tail| ==> tail[i] == ticks[i + 1];
      ReplayKeepsTimesOrdered(cfg, s1, tail, bound);
    }
  }

  /** Under a clock that never goes backwards, the timestamps of a completed
      run never decrease, the synthetic final row included. */
  lemma LoggerTimestampsNonDecreasing(cfg: Config, gateTime: int, ticks: seq<Tick>, endTime: int)
    requires ClockMonotone(cfg, gateTime, ticks, endTime)
    requires gateTime <= endTime
    requires Logger(cfg, gateTime, ticks, endTime).Completed?
    ensures NonDecreasing(Logger(cfg, gateTime, ticks, endTime).table.timestamps)
  {
    var s := Start(gateTime);
    var r := Loop(cfg, s, ticks);
    LoopIsReplay(cfg, s, ticks);
    var prefix := ticks[..r.consumed];
    assert forall i :: 0 <= i < |prefix| ==> prefix[i] == ticks[i];
    ReplayKeepsTimesOrdered(cfg, s, prefix, endTime);
    var t := Finish(cfg, r.state, endTime);
    var n := |r.state.table.timestamps|;
    forall i, j | 0 <= i < j < |t.timestamps|
      ensures t.timestamps[i] <= t.timestamps[j]
    {
      if j < n {
        assert t.timestamps[i] == r.state.table.timestamps[i];
        assert t.timestamps[j] == r.state.table.timestamps[j];
      } else {
        assert t.timestamps[i] == r.state.table.timestamps[i];
      }
    }
  }

  /** Ticks with no key press, one exactly each period after the previous
      change: the schedule with no operator involvement. */
  function Schedule(gateTime: int, period: nat, n: nat): (ticks: seq<Tick>)
    ensures |ticks| == n
    ensures forall i :: 0 <= i < n ==> ticks[i] == Tick(None, gateTime + (i + 1) * period)
  {
    seq(n, i requires 0 <= i => Tick(None, gateTime + (i + 1) * period))
  }

  lemma {:induction false} ReplaySchedule(cfg: Config, gateTime: int, k: nat)
    ensures var s := Replay(cfg, Start(gateTime), Schedule(gateTime, cfg.periodSeconds, k));
      s.cycle == 1 + k && s.lastChange == gateTime + k * cfg.periodSeconds
  {
    if k > 0 {
      var p := cfg.periodSeconds;
      var before := Schedule(gateTime, p, k - 1);
      var tick := Tick(None, gateTime + k * p);
      ReplaySchedule(cfg, gateTime, k - 1);
      assert Schedule(gateTime, p, k) == before + [tick];
      ReplaySnoc(cfg, Start(gateTime), before, tick);
      var s := Replay(cfg, Start(gateTime), before);
      assert tick.now - s.lastChange == p by {
        assert k * p == (k - 1) * p + p;
      }
    }
  }

  /** Without overrides, nineteen on-time polls after the start complete the
      run: twenty commands, twenty-one rows, the last one 'On' half a period
      after the final clock reading. */
  lemma UninterruptedRunCompletes(cfg: Config, gateTime: int, endTime: int)
    ensures var o := Logger(cfg, gateTime, Schedule(gateTime, cfg.periodSeconds, MaxCycles - 1), endTime);
      && o.Completed?
      && |o.sent| == MaxCycles
      && |o.table.states| == MaxCycles + 1
      && o.table.states[MaxCycles] == On
      && o.table.timestamps[MaxCycles] == endTime + cfg.periodSeconds / 2
  {
    var ticks := Schedule(gateTime, cfg.periodSeconds, MaxCycles - 1);
    var s := Start(gateTime);
    var r := Loop(cfg, s, ticks);
    LoopIsReplay(cfg, s, ticks);
    LoopCounts(cfg, s, ticks);
    forall k | 0 <= k <= |ticks|
      ensures Replay(cfg, s, ticks[..k]).cycle == 1 + k
    {
      assert ticks[..k] == Schedule(gateTime, cfg.periodSeconds, k);
      ReplaySchedule(cfg, gateTime, k);
    }
    assert r.consumed == |ticks|;
    assert Overrides(ticks[..r.consumed]) == 0 by {
      NoKeyNoOverrides(ticks[..r.consumed]);
    }
  }

  lemma {:induction false} NoKeyNoOverrides(ticks: seq<Tick>)
    requires forall i :: 0 <= i < |ticks| ==> ticks[i].key.None?
    ensures Overrides(ticks) == 0
    decreases |ticks|
  {
    if |ticks| > 0 {
      NoKeyNoOverrides(ticks[1..]);
    }
  }

}
