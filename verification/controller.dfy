/**
 The solenoid controller's scheduling state machine: `change_system_state`
 fires one transition, the body of the `logger` loop decides per poll whether
 a manual or a timed transition fires, and the loop runs until the cycle
 counter reaches 20, after which one synthetic 'On' row closes the table.

 Serial writes are recorded as the sequence of bytes sent; key polls and
 clock readings arrive as an abstract stream of ticks.
 */
module Controller {
  import opened Wrappers
  import opened StateTable

  newtype byte = x: int | 0 <= x < 256

  /** The single command the controller writes, `b'0'`: "switch to the other state". */
  const CommandByte: byte := 0x30

  /** The key that overrides the schedule, also `b'0'`. */
  const OverrideKey: byte := 0x30

  /** The loop runs while `cycle_n < 20`. */
  const MaxCycles: nat := 20

  /** `command_cycle_period*60`: seconds between automatic commands, which is
      half the full activation cycle. */
  datatype Config = Config(periodSeconds: nat)

  /** One pass of the polling loop: the byte `getch` returns when `kbhit`
      reports a key, and the clock reading in whole seconds. */
  datatype Tick = Tick(key: Option<byte>, now: int)

  /** The loop's variables. */
  datatype RunState = RunState(
    toggle: int,      // 0: Off, 1: On; any non-zero value is read as On
    cycle: nat,       // cycle_n
    lastChange: int,  // last_state_change_time
    table: Table,     // dic
    sent: seq<byte>)  // every byte written to the serial port, in order

  /** Before the first transition: device Off, empty table, nothing sent. */
  const Initial: RunState := RunState(0, 0, 0, StateTable.Empty, [])

  /** The label of the state a toggle value stands for. */
  function StateOf(toggle: int): Label {
    if toggle != 0 then On else Off
  }

  /** What one poll of the loop does. */
  datatype Action = Manual | Timed | Idle

  /** The invariant every state reached by the controller keeps: one command
      per row, the toggle matching the parity of the number of commands, and
      rows alternating from 'On'. */
  predicate Inv(s: RunState) {
    && |s.table.timestamps| == |s.table.states| == |s.sent|
    && s.toggle == |s.sent| % 2
    && (forall i :: 0 <= i < |s.sent| ==> s.sent[i] == CommandByte)
    && Alternating(s.table.states)
  }

  /** `change_system_state`: one command byte is sent, the row records the
      state the device is switched to, the toggle flips and the time of the
      change becomes the new anchor. The cycle counter is the caller's. */
  function ChangeSystemState(s: RunState, now: int): (s': RunState)
    ensures s'.sent == s.sent + [CommandByte]
    ensures s'.toggle == (if s.toggle != 0 then 0 else 1)
    ensures s'.table == AppendRow(s.table, now, StateOf(s'.toggle))
    ensures s'.lastChange == now && s'.cycle == s.cycle
    ensures Inv(s) ==> Inv(s')
  {
    var fired := s.(sent := s.sent + [CommandByte], lastChange := now);
    if s.toggle != 0 then
      fired.(table := AppendRow(s.table, now, Off), toggle := 0)
    else
      fired.(table := AppendRow(s.table, now, On), toggle := 1)
  }

  /** A pending key takes the poll: only the override key fires, and the
      timer is not consulted. Without a key, a transition is due once a full
      period has passed since the last change. */
  function Decide(cfg: Config, s: RunState, tick: Tick): (a: Action)
    ensures a == Manual <==> tick.key == Some(OverrideKey)
    ensures a == Timed <==> tick.key.None? && tick.now - s.lastChange >= cfg.periodSeconds
  {
    match tick.key
    case Some(k) => if k == OverrideKey then Manual else Idle
    case None => if tick.now - s.lastChange >= cfg.periodSeconds then Timed else Idle
  }

  /** One iteration of the `logger` loop body. At most one transition fires,
      and a firing poll is exactly one `change_system_state` transition at the
      tick's time; only a timed one advances the cycle counter. */
  function Step(cfg: Config, s: RunState, tick: Tick): (s': RunState)
    ensures |s.sent| <= |s'.sent| <= |s.sent| + 1
    ensures |s'.sent| == |s.sent| + 1 <==> Decide(cfg, s, tick) != Idle
    ensures s'.cycle == s.cycle + 1 <==> Decide(cfg, s, tick) == Timed
    ensures s'.cycle == s.cycle <==> Decide(cfg, s, tick) != Timed
    ensures tick.key.Some? ==> s'.cycle == s.cycle
    ensures Decide(cfg, s, tick) == Idle ==> s' == s
    ensures Decide(cfg, s, tick) != Idle ==> s'.(cycle := s.cycle) == ChangeSystemState(s, tick.now)
    ensures Decide(cfg, s, tick) != Idle ==> s'.lastChange == tick.now
    ensures Inv(s) ==> Inv(s')
  {
    match Decide(cfg, s, tick)
    case Manual => ChangeSystemState(s, tick.now)
    case Timed => ChangeSystemState(s, tick.now).(cycle := s.cycle + 1)
    case Idle => s
  }

  /** Number of ticks carrying the override key. */
  function Overrides(ticks: seq<Tick>): nat
    decreases |ticks|
  {
    if |ticks| == 0 then 0
    else (if ticks[0].key == Some(OverrideKey) then 1 else 0) + Overrides(ticks[1..])
  }

  /** The loop body applied to every tick, with no guard: the reference the
      guarded loop is compared against. */
  function Replay(cfg: Config, s: RunState, ticks: seq<Tick>): RunState
    decreases |ticks|
  {
    if |ticks| == 0 then s else Replay(cfg, Step(cfg, s, ticks[0]), ticks[1..])
  }

  /** The state the loop leaves and how many ticks it consumed. */
  datatype LoopResult = LoopResult(state: RunState, consumed: nat)

  /** `while cycle_n < 20`, over the ticks observed so far. The loop stops
      early only when the counter has reached 20, it never overshoots 20, and
      it keeps the invariant. */
  function Loop(cfg: Config, s: RunState, ticks: seq<Tick>): (r: LoopResult)
    ensures r.consumed <= |ticks|
    ensures s.cycle <= r.state.cycle
    ensures s.cycle <= MaxCycles ==> r.state.cycle <= MaxCycles
    ensures r.consumed < |ticks| ==> r.state.cycle >= MaxCycles
    ensures r.consumed > 0 ==> s.cycle < MaxCycles
    ensures Inv(s) ==> Inv(r.state)
    decreases |ticks|
  {
    if s.cycle >= MaxCycles || |ticks| == 0 then
      LoopResult(s, 0)
    else
      var rest := Loop(cfg, Step(cfg, s, ticks[0]), ticks[1..]);
      LoopResult(rest.state, rest.consumed + 1)
  }

  /** Lines 149-168: toggle 0, empty table, the first transition right after
      the start gate, then `cycle_n = 1`. The first row reads 'On'. */
  function Start(gateTime: int): (s: RunState)
    ensures Inv(s)
    ensures s.cycle == 1 && s.toggle == 1 && s.lastChange == gateTime
    ensures s.sent == [CommandByte]
    ensures s.table == Table([gateTime], [On])
  {
    ChangeSystemState(Initial, gateTime).(cycle := 1)
  }

  /** Lines 183-185: one extra row half a period after the final clock
      reading, always labelled 'On' whatever the device state. */
  function Finish(cfg: Config, s: RunState, endTime: int): (t: Table)
    ensures WellFormed(s.table) ==> WellFormed(t)
    ensures |t.states| == |s.table.states| + 1
    ensures |t.timestamps| == |s.table.timestamps| + 1
    ensures t.states[..|s.table.states|] == s.table.states
    ensures t.timestamps[..|s.table.timestamps|] == s.table.timestamps
    ensures t.states[|s.table.states|] == On
    ensures t.timestamps[|s.table.timestamps|] - endTime == cfg.periodSeconds / 2
  {
    AppendRow(s.table, endTime + cfg.periodSeconds / 2, On)
  }

  /** What a run of `logger` has produced after the observed ticks. */
  datatype Outcome =
    | Completed(table: Table, sent: seq<byte>)  // the loop ended and the final row was written
    | Polling(state: RunState)                  // the counter is still below 20

  /** `logger`, from the start gate on. */
  function Logger(cfg: Config, gateTime: int, ticks: seq<Tick>, endTime: int): (o: Outcome)
    ensures o.Completed? ==>
      && WellFormed(o.table)
      && |o.table.states| == |o.sent| + 1
      && (forall i :: 0 <= i < |o.sent| ==> o.sent[i] == CommandByte)
      && Alternating(o.table.states[..|o.sent|])
      && o.table.states[|o.sent|] == On
    ensures o.Polling? ==> Inv(o.state) && 1 <= o.state.cycle < MaxCycles
  {
    var r := Loop(cfg, Start(gateTime), ticks);
    if r.state.cycle >= MaxCycles then
      Completed(Finish(cfg, r.state, endTime), r.state.sent)
    else
      Polling(r.state)
  }

}
