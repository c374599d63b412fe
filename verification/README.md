# Solenoid toggle controller — Dafny model

`Controller_Script/ts_test_controller.py` drives a solenoid controller over a
serial line. Every command it writes is the single byte `b'0'`, and that byte
means "switch to the other state". The device starts Off. The `logger` loop
sends a command every `command_cycle_period` minutes. The operator can press
`0` at any time to force an extra switch. Every switch is recorded as one row
of the System State Table (`dic`): a timestamp plus the label `'On'` or
`'Off'`. The run ends when the cycle counter `cycle_n` reaches 20. A final
synthetic `'On'` row is then appended for downstream processing.
`get_date_string` builds the `yyyymmdd` stem of the log file name.

The model is functional. The loop's variables form one immutable record,
`Controller.RunState`: toggle, cycle counter, time of the last change, the
table, and the bytes sent so far. One pass of the loop body is a pure step
function, `Controller.Step`, over a `Tick`. A tick holds an optional key byte
and the clock reading in whole seconds. The loop is that step folded over a
finite sequence of ticks.

Files:

- `wrappers.dfy`: the `Option` type.
- `state_table.dfy`: the two-column table, row appends, and the alternation
  predicates.
- `date_string.dfy`: `get_date_string` and its inverse.
- `controller.dfy`: `change_system_state`, the loop body, the guarded loop,
  the start and the final row.
- `logger_properties.dfy`: lemmas about whole runs.
- `logger_run.dfy`: the loop written as a `while` loop, proved equal to the
  functional model.

Where the comments in the source and its code disagree, the model follows
the code:

- The comment at line 117 says "Off", but line 118 appends `'On'` when
  switching from toggle 0. The first row of every run is therefore `'On'`.
- The comment at line 181 places the final row half a period "following the
  last solenoid state change", but line 183 adds the half period to a fresh
  `datetime.now()`. In the model that reading is the `endTime` parameter.
- The comment at line 167 speaks of "19 more" cycles after the first. The
  initial transition at line 165 is followed by `cycle_n = 1` at line 168,
  and only timed transitions advance the counter (line 179). A run therefore
  has one initial transition, 19 timed ones, and any number of manual ones.

## Model

| member | source | states |
|---|---|---|
| StateTable.AppendRow | Controller_Script/ts_test_controller.py:93-118 | Each transition adds exactly one timestamp and one state, so the two columns keep equal length. Earlier rows are unchanged. |
| StateTable.AlternatingIffFlips | Controller_Script/ts_test_controller.py:99-127 | "Row i is 'On' exactly when i is even" holds if and only if the log starts with 'On' and every row differs from the one before it. |
| DateString.NatToString | Controller_Script/ts_test_controller.py:31-33 | `str` of a natural number is a non-empty string of digits. It has no leading zero, and it is one character long exactly when the value is below 10. |
| DateString.NatToStringRoundTrip | Controller_Script/ts_test_controller.py:31-33 | Reading the decimal text of n as digits gives n back. |
| DateString.ZeroPadTwoDigits | Controller_Script/ts_test_controller.py:35-45 | A month or day below 100 is padded to exactly two digits, and those digits read back as the value. |
| DateString.GetDateString | Controller_Script/ts_test_controller.py:20-49 | The date string consists of digits only and has at least five characters. |
| DateString.GetDateStringLayout | Controller_Script/ts_test_controller.py:35-48 | For a four-digit year the date string is 8 characters: the year's text, then the month, then the day, each two digits. |
| DateString.DateStringRoundTrip | Controller_Script/ts_test_controller.py:20-49 | Splitting a generated `yyyymmdd` string recovers the year, month and day. |
| DateString.DateStringInjective | Controller_Script/ts_test_controller.py:20-49 | Different dates never produce the same file-name stem. |
| Controller.ChangeSystemState | Controller_Script/ts_test_controller.py:61-132 | Exactly one `b'0'` is sent. The toggle becomes 1 from 0 and 0 from any non-zero value. The new row carries `now` and the label of the state switched to. The change time becomes `now`. The cycle counter is untouched. The run invariant is preserved. |
| Controller.Decide | Controller_Script/ts_test_controller.py:172-177 | A poll is manual if and only if the pending key is `b'0'`. It is timed if and only if no key is pending and a full period has elapsed since the last change. |
| Controller.Step | Controller_Script/ts_test_controller.py:170-179 | At most one command per poll. A firing poll is exactly one `change_system_state` transition stamped with the tick's time. The counter advances by one exactly on a timed transition, so a pending key never advances it. An idle poll changes nothing. A firing poll re-anchors the change time. The invariant is kept. |
| Controller.Loop | Controller_Script/ts_test_controller.py:168-179 | The loop stops before the ticks run out only when the counter has reached 20. The counter never passes 20. The invariant is kept. |
| Controller.Start | Controller_Script/ts_test_controller.py:148-168 | After the gate, one command is sent, the table is the single row (gate time, 'On'), the toggle is 1 and the counter is 1. |
| Controller.Finish | Controller_Script/ts_test_controller.py:181-185 | The final table is the loop's table plus one 'On' row, whatever the toggle. That row is stamped half a period after the final clock reading. |
| Controller.Logger | Controller_Script/ts_test_controller.py:134-188 | A completed run has one command per real row, all `b'0'`, and real rows alternating from 'On', followed by the synthetic 'On' row. A run not yet complete keeps the invariant with its counter between 1 and 19. |
| LoggerProperties.ReplayCounts | Controller_Script/ts_test_controller.py:172-179 | Over any stretch of polls, commands sent = timed transitions (the counter's increase) + override key presses. The counter never decreases. |
| LoggerProperties.LoopIsReplay | Controller_Script/ts_test_controller.py:168-179 | The guarded loop equals the loop body replayed up to the first point where the counter is 20. The counter is below 20 at every earlier point. |
| LoggerProperties.LoopCounts | Controller_Script/ts_test_controller.py:169-179 | Commands the loop sends = the counter's increase + override presses among the ticks it consumed. |
| LoggerProperties.LoopStopsAtFirstCompletion | Controller_Script/ts_test_controller.py:169 | Any point before which the counter stayed below 20, and at which it reached 20 or the ticks ran out, is exactly where the loop stops. |
| LoggerProperties.LoggerCompletesIffTwentyCycles | Controller_Script/ts_test_controller.py:165-179 | A run completes if and only if the body brings the counter to 20 at some point of the observed ticks. |
| LoggerProperties.LoggerCommandCount | Controller_Script/ts_test_controller.py:165-185 | A completed run sends 20 commands plus one per override press consumed. Its table has one row more than that. |
| LoggerProperties.LoggerLogFlips | Controller_Script/ts_test_controller.py:149-185 | In a completed table the real rows start with 'On' and each differs from the previous one. The last row is 'On'. |
| LoggerProperties.LoggerTimestampsNonDecreasing | Controller_Script/ts_test_controller.py:86-93 | If the clock never runs backwards and no tick the loop reads is after the final reading, no timestamp in a completed table is earlier than the one before it, including the synthetic row's. |
| LoggerProperties.UninterruptedRunCompletes | Controller_Script/ts_test_controller.py:165-188 | With no key presses and a poll each period after the last change, 19 polls complete the run: 20 commands, 21 rows, the last 'On' and half a period after the final reading. |
| LoggerRun.RunLogger | Controller_Script/ts_test_controller.py:134-188 | The `while cycle_n < 20` loop returns exactly the functional model's outcome. When complete, it sent 20 plus the override count commands, one per real row. |

## Left out

- Serial I/O (`serial.Serial`, `ser.write`) is not modelled as a device. Each write appends its byte to `RunState.sent`. Failures to open or write the port abort the program and are not modelled.
- Keyboard polling (`msvcrt.kbhit`, `msvcrt.getch`) is replaced by the optional key of each tick. A key that `getch` delivers as two bytes arrives as two ticks.
- The Enter gate and the one-second sleep (lines 155-162) are left out. The run starts at the `gateTime` parameter.
- Clocks and sleeps (`time.time`, `datetime.now`, `time.sleep(0.01)`) become the integer `now` of each tick and the `endTime` parameter. A firing poll reads the clock three times: the epoch time for the timer check (line 177), the epoch time for the new anchor after the serial write (line 86), and local time for the row's timestamp (line 89). The model takes these three reads as one value per tick. So the new anchor is the poll's own time rather than a moment just after it, and the row is stamped on the same clock the schedule uses. `command_cycle_period*60` is taken as a whole number of seconds, `Config.periodSeconds`. Fractional and negative periods are not modelled.
- `get_timestamp` (`strftime`, line 59) is left out. Timestamps are kept as integer seconds, not text.
- The console-only `next_state_change_time` (line 96), `os.system('cls')` and all printing are left out.
- The pandas CSV writes after each transition and at the end are left out. The table value is what would be written.
- `main` (argparse defaults, the file-name prompt, lines 190-237) is left out.
- Controller.Finish: the half period is rounded down to whole seconds. For whole-second clock readings this is the second that the timestamp text would show.
- Controller.Logger: the source polls forever until the counter reaches 20. The model observes a finite tick sequence and reports `Polling` if the counter is still below 20 when the ticks run out.
- LoggerProperties.LoggerTimestampsNonDecreasing: this assumes one clock that never goes backwards, shared by the schedule and the log. In the source the logged timestamps come from local time (lines 89 and 183), while the schedule runs on epoch time (lines 86 and 177). Across a daylight-saving fall-back the source's logged timestamps go back an hour while its schedule carries on, so the source does not guarantee ordered timestamps. The model cannot show this, because a backwards tick would also hold back its timer.
- DateString.GetDateString: the source reads the clock five times (lines 31, 32, 33, 36 and 42). The model takes one year, month and day, so it assumes the five readings agree. A month or day rollover between two readings could give a differently padded string, which the model does not cover.
- DateString.GetDateStringLayout: assumes a four-digit year and month and day below 100. Within those bounds lie all dates `datetime` gives from year 1000 to 9999. Shorter years are modelled as written but not characterised.
