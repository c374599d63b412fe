/**
 The `logger` loop written as the source writes it: a `while cycle_n < 20`
 loop whose body checks for a key first and the timer otherwise, followed by
 the synthetic final row. Its contract ties it to the functional model.
 */
module LoggerRun {
  import opened Wrappers
  import opened StateTable
  import opened Controller
  import opened LoggerProperties

  /** Lines 172-179, one pass of the loop body: a pending key is read and
      fires a transition only when it is the override key; with no key, a
      transition fires once a period has elapsed and advances the counter.
      This is the step the functional model takes. */
  method Poll(cfg: Config, s: RunState, tick: Tick) returns (next: RunState)
    ensures next == Step(cfg, s, tick)
  {
    next := s;
    match tick.key {
      case Some(k) =>
        if k == OverrideKey {
          next := ChangeSystemState(s, tick.now);
        }
      case None =>
        if tick.now - s.lastChange >= cfg.periodSeconds {
          next := ChangeSystemState(s, tick.now);
          next := next.(cycle := next.cycle + 1);
        }
    }
  }

  /** Runs the controller over the observed ticks. The result is the one the
      functional model gives; a completed run sent exactly one `b'0'` per
      real row, twenty plus the number of override presses it consumed, and
      a run still polling has its counter between 1 and 19. */
  method RunLogger(cfg: Config, gateTime: int, ticks: seq<Tick>, endTime: int) returns (o: Outcome)
    ensures o == Logger(cfg, gateTime, ticks, endTime)
    ensures o.Completed? ==>
      && |o.table.states| == |o.sent| + 1
      && |o.sent| == MaxCycles + Overrides(ticks[..Loop(cfg, Start(gateTime), ticks).consumed])
    ensures o.Polling? ==> 1 <= o.state.cycle < MaxCycles
  {
    var start := Start(gateTime);
    var s := start;
    var i := 0;
    while s.cycle < MaxCycles && i < |ticks|
      invariant 0 <= i <= |ticks|
      invariant s == Replay(cfg, start, ticks[..i])
      invariant forall k :: 0 <= k < i ==> Replay(cfg, start, ticks[..k]).cycle < MaxCycles
      decreases |ticks| - i
    {
      var tick := ticks[i];
      var next := Poll(cfg, s, tick);
      assert ticks[..i + 1] == ticks[..i] + [tick];
      ReplaySnoc(cfg, start, ticks[..i], tick);
      s := next;
      i := i + 1;
    }
    LoopStopsAtFirstCompletion(cfg, start, ticks, i);
    LoopCounts(cfg, start, ticks);
    if s.cycle >= MaxCycles {
      o := Completed(Finish(cfg, s, endTime), s.sent);
    } else {
      o := Polling(s);
    }
  }

}
