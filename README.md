# Tick-driven BCD clock (reloj)

A Dafny model of the clock in `src/reloj.c`. The clock keeps the time of day as six BCD digits,
`[h_tens, h_units, m_tens, m_units, s_tens, s_units]`. An external time base advances it by calling
`ClockNewTick`, and `ticks_per_second` such calls make one second.

The model is one module, `Reloj`, in `reloj.dfy`:

- `Clock` is the record `struct clock_s`. Its fields are the 6-element digit `array<Byte>`
  `time`, the counters `ticksCount` and `ticksPerSecond` (both `Word`) and the flag `valid`. `Byte`
  and `Word` are the ranges of `uint8_t` and `uint16_t`. Its methods `Create`, `GetTime`,
  `SetupTime` and `NewTick` are the four C functions. They update the record in place, and the
  copies are loops over the arrays.
- `State` is the same record as a value. `Tick` is one call of `ClockNewTick` on it, and `Ticks` is
  `n` calls. `Clock.NewTick` is proved to take its record from `old(Snapshot())` to
  `Tick(old(Snapshot()))`, and `NewTicks`, which calls it `n` times, to take it to
  `Ticks(old(Snapshot()), n)`. So everything proved about `Tick` and `Ticks` holds of the class.
- `Elapsed(s) = (10 * s_tens + s_units) * ticks_per_second + ticks_count` is the measure of
  progress. Each tick adds exactly one to it while the seconds units are at most 9. From this, the
  lemma `TicksAdvanceSeconds` gives the digits and the counter after any number of ticks.
- `StartUp`, `SetUpCurrentTime` and `OneSecondElapsed` are clients of the class. They follow the
  three Unity tests. The first two are generalised to any divisor and any set-up vector of at most
  six digits. `OneSecondAtAnyRate` generalises the third to any divisor and any starting time.

What `ClockNewTick`, `ClockSetupTime` and `ClockCreate` do not do:

- Carries stop at the seconds tens (`src/reloj.c:111-114`). There is no minute or hour carry, no
  limit of 5 on the seconds tens, and no wrap at 24:00:00.
- `ClockSetupTime` copies `size` digits and leaves the rest of the time vector as it was. It does
  not zero-pad. On a fresh clock the rest is zero anyway, which is what the test observes.
- `ClockCreate` takes only the divisor (`src/reloj.c:86`). The header declares a second
  `event_handler` parameter at `inc/reloj.h:77`, which the definition and the tests do not have.

## Model

| member | source | states |
|---|---|---|
| `Reloj.Copy` | src/reloj.c:95-103 | `memcpy` of `size` digits: the result has the destination's length, its first `size` digits are the source's and the rest are the destination's |
| `Reloj.Tick` | src/reloj.c:105-115 | one tick keeps the counter invariant `1 <= ticks_per_second`, `ticks_count < ticks_per_second`. The counter goes up by one, and is reset to 0 exactly when it reaches the divisor. Hours, minutes, `valid` and the divisor never change. Off a second boundary, with seconds units at most 9, the time does not change. Seconds units at most 9 stay at most 9. `Elapsed` grows by exactly one |
| `Reloj.CarryOnEveryTick` | src/reloj.c:111-114 | the carry test runs on every tick: a seconds units digit above 9 becomes 0 and the seconds tens go up by one even on a tick that completes no second, while the counter just goes up by one |
| `Reloj.SecondBoundary` | src/reloj.c:106-114 | on the tick that reaches the divisor the counter becomes 0 and the seconds units go up by one. If they were 9 or more they become 0 and the seconds tens go up by one, with no cap on the tens |
| `Reloj.Ticks` | src/reloj.c:105-115 | `n` ticks keep the counter invariant and the seconds-units bound. They leave hours, minutes, `valid` and the divisor unchanged, and add exactly `n` to `Elapsed` |
| `Reloj.TicksSnoc` | src/reloj.c:105-115 | `n + 1` ticks are `n` ticks followed by one more, and that tick wraps no byte |
| `Reloj.TicksAdvanceSeconds` | src/reloj.c:106-114 | after `n` ticks the two seconds digits show `(ticks_count + n) / ticks_per_second` more seconds, and the counter is `(ticks_count + n) % ticks_per_second` |
| `Reloj.OneSecondPerDivisor` | src/reloj.c:106-114 | from a fresh second, `ticks_per_second` ticks advance the time by exactly one second. The counter is back at 0 and `valid` is kept. The seconds units go up by one, or roll over from 9 to 0 with one more seconds ten. Hours and minutes stay |
| `Reloj.Clock.constructor` | src/reloj.c:82 | the static instance starts all zero: six zero digits, both counters 0, not valid |
| `Reloj.Clock.Create` | src/reloj.c:86-93 | every field is reset: all six digits 0, `ticks_count` 0, `valid` false, and then `ticks_per_second` is the argument |
| `Reloj.Clock.GetTime` | src/reloj.c:95-98 | the caller's buffer gets the first `size` digits of the time, the rest of the buffer is unchanged, the result is `valid`, and no clock field changes |
| `Reloj.Clock.SetupTime` | src/reloj.c:100-103 | the first `size` digits of the time are overwritten with the input and the rest stay. `valid` becomes true whatever `size` is. The counters are unchanged |
| `Reloj.Clock.NewTick` | src/reloj.c:105-115 | the record afterwards is `Tick` of the record before, and the counter invariant is kept |
| `Reloj.NewTicks` | src/reloj.c:105-115 | `n` calls of `ClockNewTick` take the record to `Ticks` of the record before, and keep the counter invariant |
| `Reloj.StartUp` | test/test_reloj.c:65-71 | for every divisor, a freshly created clock reports an invalid time and reads back six zero digits |
| `Reloj.SetUpCurrentTime` | test/test_reloj.c:73-81 | on a fresh clock, setting up to six digits reports a valid time and reads back those digits followed by zeros |
| `Reloj.FiveTicksOfTestClock` | test/test_reloj.c:83-97 | with five ticks per second, the clock set to 12:34 goes through counter values 1, 2, 3 and 4, and its fifth tick shows 12:34:01 with the counter back at 0 |
| `Reloj.OneSecondAtAnyRate` | test/test_reloj.c:83-97 | for every divisor and every starting time with seconds units at most 9, a clock set to that time reports a valid time after `ticks_per_second` ticks, and shows one second more: the units go up by one, or roll from 9 to 0 with one more seconds ten |
| `Reloj.OneSecondElapsed` | test/test_reloj.c:83-97 | set to 12:34 with five ticks per second and ticked five times through the class methods, the clock reads 12:34:01 and reports a valid time |

## Left out

- `ClockSetupAlarm`, `ClockGetAlarm` and the `clock_event_t` callback type are only declared in `inc/reloj.h`, and `src/reloj.c` does not implement them. The `event_handler` argument of the header's `ClockCreate` is left out for the same reason.
- Minute and hour carries, the limit of 5 on the tens digits and the 24-hour wrap are left out because `ClockNewTick` does none of them.
- Reloj.Clock.NewTick: requires that the tick increments no digit past 255: the seconds units are below 255 on a tick that completes a second, and the seconds tens are below 255 on a tick whose carry test fires. Only the ticks in which the C code would wrap a `uint8_t` digit are excluded; the wrap-around itself is not modelled. With `ticks_per_second` at least 1 the `uint16_t` counter cannot wrap.
- Reloj.Ticks and Reloj.NewTicks: require `Elapsed(s) + n < 2550 * ticks_per_second`. This keeps the seconds tens below 255 throughout, and so excludes runs in which that digit would wrap.
- Reloj.OneSecondPerDivisor and Reloj.OneSecondAtAnyRate: require the seconds digits to show less than 2549 seconds, for the same reason.
- Reloj.Clock.Create: requires `ticks_per_second >= 1`. The C code accepts 0, but then the counter never equals the divisor until the `uint16_t` counter wraps.
- Reloj.Clock.GetTime and Reloj.Clock.SetupTime: require `size <= 6`, a caller buffer of at least `size` digits, and a buffer distinct from the clock's own array. These are the conditions under which the `memcpy` calls are defined.
- The static singleton is one `Clock` object: its constructor is the zeroed static storage, and `Create` re-initialises it. The identity of the returned `clock_t` handle is not modelled.
- `memset` and `memcpy` are modelled as element-wise loops. `memset`'s zeroing of padding bytes has no counterpart.
- The Unity harness and the external tick source (a timer or interrupt calling `ClockNewTick`) are outside the model.
