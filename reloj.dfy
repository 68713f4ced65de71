/** A tick-driven clock that keeps the time of day as six BCD digits
    [h_tens, h_units, m_tens, m_units, s_tens, s_units].

    The value-level part of this module (State, Copy, Tick, Ticks and the
    lemmas about them) is the specification; the class Clock is the state
    record the program updates in place, and each of its methods is proved
    against that specification. */
module Reloj {

  /** Number of digits in the time vector. */
  const TimeSize: nat := 6

  /** Value every field of the clock starts from. */
  const InitialValue: nat := 0

  /** Largest value of a BCD units digit. */
  const MaxUnitsValue: nat := 9

  /** Index of the seconds units in the time vector. */
  const SecondsUnits: nat := 5

  /** Index of the seconds tens in the time vector. */
  const SecondsTens: nat := 4

  /** The C type `uint8_t`: time digits and the `size` arguments. */
  type Byte = x: int | 0 <= x < 256

  /** The C type `uint16_t`: the tick counter and the tick divisor. */
  type Word = x: int | 0 <= x < 65536

  /** The time vector of a freshly created clock. */
  const ZeroTime: seq<Byte> := [0, 0, 0, 0, 0, 0]

  /** The contents of `struct clock_s`, as a value. */
  datatype State = State(time: seq<Byte>, ticksCount: Word, ticksPerSecond: Word, valid: bool)

  /** What every created clock satisfies: six digits, a divisor of at least
      one, and a tick counter strictly below the divisor. */
  predicate Invariant(s: State)
  {
    |s.time| == TimeSize && 1 <= s.ticksPerSecond && s.ticksCount < s.ticksPerSecond
  }

  /** The seconds units after the counting step of a tick and before its
      carry test. */
  function UnitsAfterCount(s: State): (u: int)
    requires Invariant(s)
  {
    s.time[SecondsUnits] as int + if s.ticksCount + 1 == s.ticksPerSecond then 1 else 0
  }

  /** A tick from `s` increments no byte past 255: the seconds units are
      incremented only on a second boundary, the seconds tens only when the
      carry test fires, and the counter stays below the divisor by Invariant. */
  predicate CanTick(s: State)
  {
    Invariant(s) &&
    (s.ticksCount + 1 == s.ticksPerSecond ==> s.time[SecondsUnits] < 255) &&
    (UnitsAfterCount(s) > MaxUnitsValue ==> s.time[SecondsTens] < 255)
  }

  /** `memcpy(dst, src, size)` on digit vectors. */
  function Copy(dst: seq<Byte>, src: seq<Byte>, size: nat): (r: seq<Byte>)
    requires size <= |dst| && size <= |src|
    ensures |r| == |dst|
    ensures forall k :: 0 <= k < size ==> r[k] == src[k]
    ensures forall k :: size <= k < |r| ==> r[k] == dst[k]
  {
    src[..size] + dst[size..]
  }

  /** The seconds shown by the two seconds digits. */
  function SecondsValue(s: State): (v: int)
    requires |s.time| == TimeSize
  {
    10 * (s.time[SecondsTens] as int) + s.time[SecondsUnits] as int
  }

  /** The number of ticks the seconds digits and the counter stand for
      together. Each tick adds exactly one to it (see Tick). */
  function Elapsed(s: State): (e: int)
    requires |s.time| == TimeSize
  {
    SecondsValue(s) * s.ticksPerSecond + s.ticksCount
  }

  /** One call of ClockNewTick: count the tick, and on reaching the divisor
      reset the counter and increment the seconds units; then, on every tick,
      carry a seconds units digit above 9 into the seconds tens. */
  function Tick(s: State): (r: State)
    requires CanTick(s)
    ensures Invariant(r)
    ensures r.time[..SecondsTens] == s.time[..SecondsTens]
    ensures r.valid == s.valid && r.ticksPerSecond == s.ticksPerSecond
    ensures r.ticksCount == 0 <==> s.ticksCount + 1 == s.ticksPerSecond
    ensures r.ticksCount != 0 ==> r.ticksCount == s.ticksCount + 1
    ensures s.ticksCount + 1 != s.ticksPerSecond && s.time[SecondsUnits] <= MaxUnitsValue ==> r.time == s.time
    ensures s.time[SecondsUnits] <= MaxUnitsValue ==> r.time[SecondsUnits] <= MaxUnitsValue
    ensures s.time[SecondsUnits] <= MaxUnitsValue ==> Elapsed(r) == Elapsed(s) + 1
  {
    var second := s.ticksCount + 1 == s.ticksPerSecond;
    var count: Word := if second then InitialValue else s.ticksCount + 1;
    var units := if second then s.time[SecondsUnits] + 1 else s.time[SecondsUnits];
    var time := if units > MaxUnitsValue
                then s.time[SecondsUnits := InitialValue][SecondsTens := s.time[SecondsTens] + 1]
                else s.time[SecondsUnits := units];
    var r := State(time, count, s.ticksPerSecond, s.valid);
    assert second && s.time[SecondsUnits] <= MaxUnitsValue ==> SecondsValue(r) == SecondsValue(s) + 1;
    assert (SecondsValue(s) + 1) * s.ticksPerSecond == SecondsValue(s) * s.ticksPerSecond + s.ticksPerSecond;
    r
  }

  /** A seconds units digit above 9 is carried on every tick, also on one
      that does not complete a second. */
  lemma CarryOnEveryTick(s: State)
    requires CanTick(s) && s.ticksCount + 1 != s.ticksPerSecond
    requires s.time[SecondsUnits] > MaxUnitsValue
    ensures Tick(s).time == s.time[SecondsUnits := 0][SecondsTens := s.time[SecondsTens] + 1]
    ensures Tick(s).ticksCount == s.ticksCount + 1
  {
  }

  /** A tick that completes a second increments the seconds units, and
      carries into the seconds tens exactly when the units overflow. */
  lemma SecondBoundary(s: State)
    requires CanTick(s) && s.ticksCount + 1 == s.ticksPerSecond
    ensures Tick(s).ticksCount == 0
    ensures s.time[SecondsUnits] < MaxUnitsValue ==> Tick(s).time == s.time[SecondsUnits := s.time[SecondsUnits] + 1]
    ensures s.time[SecondsUnits] >= MaxUnitsValue ==> Tick(s).time == s.time[SecondsUnits := 0][SecondsTens := s.time[SecondsTens] + 1]
  {
  }

  /** Multiplication by a positive number is strictly monotonic. */
  lemma MulLess(a: int, b: int, d: int)
    requires 0 < d && a * d < b * d
    ensures a < b
  {
    if a >= b {
      MulMonotone(b, a, d);
      assert false;
    }
  }

  /** Multiplication by a positive number is monotonic. */
  lemma MulMonotone(a: int, b: int, d: int)
    requires 0 < d && a <= b
    ensures a * d <= b * d
  {
    assert b * d == a * d + (b - a) * d;
  }

  /** One more multiple of `d`. */
  lemma MulSucc(a: int, d: int)
    ensures (a + 1) * d == a * d + d
  {
  }

  /** Division with remainder is unique. */
  lemma DivModUnique(x: int, d: int, q: int, m: int)
    requires 0 < d && 0 <= m < d && x == q * d + m
    ensures q == x / d && m == x % d
  {
    var q', m' := x / d, x % d;
    if q > q' {
      MulSucc(q', d);
      MulMonotone(q' + 1, q, d);
      assert false;
    } else if q < q' {
      MulSucc(q, d);
      MulMonotone(q + 1, q', d);
      assert false;
    }
  }

  /** Regrouping `q * d + c` as a multiple of `d` plus a remainder below `d`. */
  lemma Rebase(q: int, q': int, c: nat, m: int, d: int)
    requires 0 < d && 0 <= m < d && q' * d + m == q * d + c
    ensures q' == q + c / d && m == c % d
  {
    var x := q * d + c;
    DivModUnique(x, d, q', m);
    assert c == c / d * d + c % d;
    assert (q + c / d) * d == q * d + c / d * d;
    DivModUnique(x, d, q + c / d, c % d);
  }

  /** In a clock whose total stays below 2550 seconds, the seconds tens digit
      is at most 254, so the next tick can increment it. */
  lemma TensBelowLimit(s: State)
    requires Invariant(s) && s.time[SecondsUnits] <= MaxUnitsValue
    requires Elapsed(s) < 2550 * s.ticksPerSecond
    ensures CanTick(s)
  {
    assert SecondsValue(s) * s.ticksPerSecond < 2550 * s.ticksPerSecond;
    MulLess(SecondsValue(s), 2550, s.ticksPerSecond);
  }

  /** `n` calls of ClockNewTick. The bound on `n` keeps the seconds tens
      below 255 all along, so that no digit wraps. */
  function Ticks(s: State, n: nat): (r: State)
    requires Invariant(s) && s.time[SecondsUnits] <= MaxUnitsValue
    requires Elapsed(s) + n < 2550 * s.ticksPerSecond
    ensures Invariant(r) && r.time[SecondsUnits] <= MaxUnitsValue
    ensures r.time[..SecondsTens] == s.time[..SecondsTens]
    ensures r.valid == s.valid && r.ticksPerSecond == s.ticksPerSecond
    ensures Elapsed(r) == Elapsed(s) + n
    decreases n
  {
    if n == 0 then s
    else
      TensBelowLimit(s);
      Ticks(Tick(s), n - 1)
  }

  /** `n + 1` ticks are `n` ticks followed by one more, which can be taken. */
  lemma {:induction false} TicksSnoc(s: State, n: nat)
    requires Invariant(s) && s.time[SecondsUnits] <= MaxUnitsValue
    requires Elapsed(s) + n + 1 < 2550 * s.ticksPerSecond
    ensures CanTick(Ticks(s, n))
    ensures Ticks(s, n + 1) == Tick(Ticks(s, n))
    decreases n
  {
    TensBelowLimit(s);
    if n > 0 {
      TicksSnoc(Tick(s), n - 1);
    }
  }

  /** After `n` ticks the seconds have advanced by the number of whole
      divisors in the counter plus `n`, and the counter holds the rest. */
  lemma TicksAdvanceSeconds(s: State, n: nat)
    requires Invariant(s) && s.time[SecondsUnits] <= MaxUnitsValue
    requires Elapsed(s) + n < 2550 * s.ticksPerSecond
    ensures SecondsValue(Ticks(s, n)) == SecondsValue(s) + (s.ticksCount + n) / s.ticksPerSecond
    ensures Ticks(s, n).ticksCount == (s.ticksCount + n) % s.ticksPerSecond
  {
    var r := Ticks(s, n);
    Rebase(SecondsValue(s), SecondsValue(r), s.ticksCount + n, r.ticksCount, s.ticksPerSecond);
  }

  /** A six-digit vector whose hours and minutes are those of `t` and whose
      seconds digits (units at most 9) show one second more than those of `t`. */
  lemma NextSecondDigits(t: seq<Byte>, t': seq<Byte>)
    requires |t| == TimeSize && |t'| == TimeSize && t'[..SecondsTens] == t[..SecondsTens]
    requires t[SecondsUnits] <= MaxUnitsValue && t'[SecondsUnits] <= MaxUnitsValue
    requires 10 * t'[SecondsTens] as int + t'[SecondsUnits] as int == 10 * t[SecondsTens] as int + t[SecondsUnits] as int + 1
    ensures t' == if t[SecondsUnits] < MaxUnitsValue
                  then t[SecondsUnits := t[SecondsUnits] + 1]
                  else t[SecondsUnits := 0][SecondsTens := t[SecondsTens] + 1]
  {
    assert t'[0] == t[0] && t'[1] == t[1] && t'[2] == t[2] && t'[3] == t[3];
  }

  /** From the start of a second, `ticksPerSecond` ticks advance the time by
      exactly one second: the seconds units go up by one, or roll over from
      9 to 0 and carry into the seconds tens. Hours and minutes stay. */
  lemma OneSecondPerDivisor(s: State)
    requires Invariant(s) && s.ticksCount == 0
    requires s.time[SecondsUnits] <= MaxUnitsValue && SecondsValue(s) < 2549
    ensures Elapsed(s) + s.ticksPerSecond < 2550 * s.ticksPerSecond
    ensures Ticks(s, s.ticksPerSecond).ticksCount == 0
    ensures Ticks(s, s.ticksPerSecond).valid == s.valid
    ensures Ticks(s, s.ticksPerSecond).time ==
              if s.time[SecondsUnits] < MaxUnitsValue
              then s.time[SecondsUnits := s.time[SecondsUnits] + 1]
              else s.time[SecondsUnits := 0][SecondsTens := s.time[SecondsTens] + 1]
  {
    var d := s.ticksPerSecond;
    MulSucc(SecondsValue(s), d);
    MulMonotone(SecondsValue(s) + 1, 2549, d);
    MulSucc(2549, d);
    TicksAdvanceSeconds(s, d);
    DivModUnique(d, d, 1, 0);
    var r := Ticks(s, d);
    NextSecondDigits(s.time, r.time);
  }

  /** The clock record `struct clock_s`, updated in place by the clock
      operations. The program keeps one static instance of it. */
  class Clock {
    var time: array<Byte>
    var ticksCount: Word
    var ticksPerSecond: Word
    var valid: bool

    /** The record holds a six-digit time vector. */
    ghost predicate Allocated()
      reads this
    {
      time.Length == TimeSize
    }

    /** The invariant of a created clock. */
    ghost predicate Valid()
      reads this
    {
      Allocated() && 1 <= ticksPerSecond && ticksCount < ticksPerSecond
    }

    /** The current contents of the record. */
    function Snapshot(): (s: State)
      reads this, time
      ensures Valid() ==> Invariant(s)
    {
      State(time[..], ticksCount, ticksPerSecond, valid)
    }

    /** The static storage of the single clock instance, zero-initialised
        before any call. */
    constructor ()
      ensures Allocated() && fresh(time)
      ensures Snapshot() == State(ZeroTime, 0, 0, false)
    {
      var storage := new Byte[TimeSize](_ => InitialValue);
      assert storage[..] == ZeroTime;
      time := storage;
      ticksCount, ticksPerSecond, valid := InitialValue, InitialValue, false;
    }

    /** ClockCreate: zero the whole record, then store the divisor. */
    method Create(ticksPerSecond: Word)
      requires Allocated() && 1 <= ticksPerSecond
      modifies this, time
      ensures Valid() && time == old(time)
      ensures Snapshot() == State(ZeroTime, 0, ticksPerSecond, false)
    {
      this.ticksCount, this.ticksPerSecond, this.valid := InitialValue, InitialValue, false;
      for i := 0 to TimeSize
        modifies time
        invariant forall k :: 0 <= k < i ==> time[k] == InitialValue
      {
        time[i] := InitialValue;
      }
      this.ticksPerSecond := ticksPerSecond;
      assert time[..] == ZeroTime;
    }

    /** ClockGetTime: copy the first `size` digits into `result` and report
        whether the time has been set. The clock does not change. */
    method GetTime(result: array<Byte>, size: Byte) returns (ok: bool)
      requires Valid() && size <= TimeSize && size <= result.Length && result != time
      modifies result
      ensures ok == valid
      ensures result[..] == Copy(old(result[..]), time[..], size)
      ensures Snapshot() == old(Snapshot())
    {
      for i := 0 to size
        invariant forall k :: 0 <= k < i ==> result[k] == time[k]
        invariant forall k :: i <= k < result.Length ==> result[k] == old(result[k])
      {
        result[i] := time[i];
      }
      ok := valid;
    }

    /** ClockSetupTime: mark the time as set and copy the first `size`
        digits of `digits` into the time vector; the rest of it stays. */
    method SetupTime(digits: array<Byte>, size: Byte)
      requires Valid() && size <= TimeSize && size <= digits.Length && digits != time
      modifies this`valid, time
      ensures Valid()
      ensures Snapshot() == old(Snapshot()).(time := Copy(old(time[..]), digits[..], size), valid := true)
    {
      valid := true;
      for i := 0 to size
        modifies time
        invariant forall k :: 0 <= k < i ==> time[k] == digits[k]
        invariant forall k :: i <= k < TimeSize ==> time[k] == old(time[k])
      {
        time[i] := digits[i];
      }
    }

    /** ClockNewTick: one tick of the external time base. */
    method NewTick()
      requires Valid() && CanTick(Snapshot())
      modifies this`ticksCount, time
      ensures Valid()
      ensures Snapshot() == Tick(old(Snapshot()))
    {
      ticksCount := ticksCount + 1;
      if ticksCount == ticksPerSecond {
        ticksCount := InitialValue;
        time[SecondsUnits] := time[SecondsUnits] + 1;
      }
      if time[SecondsUnits] > MaxUnitsValue {
        time[SecondsUnits] := InitialValue;
        time[SecondsTens] := time[SecondsTens] + 1;
      }
    }
  }

  /** `n` calls of ClockNewTick by the external tick source. */
  method NewTicks(c: Clock, n: nat)
    requires c.Valid() && c.time[SecondsUnits] <= MaxUnitsValue
    requires Elapsed(c.Snapshot()) + n < 2550 * c.ticksPerSecond
    modifies c`ticksCount, c.time
    ensures c.Valid() && c.Snapshot() == Ticks(old(c.Snapshot()), n)
  {
    ghost var s0 := c.Snapshot();
    for i := 0 to n
      invariant c.Valid() && c.time == old(c.time)
      invariant c.Snapshot() == Ticks(s0, i)
    {
      TicksSnoc(s0, i);
      c.NewTick();
    }
  }

  /** A freshly created clock, whatever its divisor, reports that its time
      is not valid and reads back six zero digits. */
  method StartUp(ticksPerSecond: Word) returns (ok: bool, hora: seq<Byte>)
    requires 1 <= ticksPerSecond
    ensures !ok && hora == ZeroTime
  {
    var clock := new Clock();
    clock.Create(ticksPerSecond);
    var buffer := new Byte[TimeSize];
    ok := clock.GetTime(buffer, TimeSize as Byte);
    hora := buffer[..];
  }

  /** Setting up to six digits on a fresh clock reads back as those digits
      followed by zeros, and the time then reports valid. */
  method SetUpCurrentTime(ticksPerSecond: Word, initial: seq<Byte>) returns (ok: bool, hora: seq<Byte>)
    requires 1 <= ticksPerSecond && |initial| <= TimeSize
    ensures ok && hora == initial + ZeroTime[|initial|..]
  {
    var clock := new Clock();
    clock.Create(ticksPerSecond);
    var digits := new Byte[|initial|](k requires 0 <= k < |initial| => initial[k]);
    assert digits[..] == initial;
    clock.SetupTime(digits, |initial| as Byte);
    var buffer := new Byte[TimeSize];
    ok := clock.GetTime(buffer, TimeSize as Byte);
    hora := buffer[..];
  }

  /** Whatever the divisor, a clock set to any time whose seconds units are
      at most 9 shows one second more after `ticksPerSecond` ticks. */
  method OneSecondAtAnyRate(ticksPerSecond: Word, initial: seq<Byte>) returns (ok: bool, hora: seq<Byte>)
    requires 1 <= ticksPerSecond && |initial| == TimeSize
    requires initial[SecondsUnits] <= MaxUnitsValue && 10 * initial[SecondsTens] as int + initial[SecondsUnits] as int < 2549
    ensures ok
    ensures hora == if initial[SecondsUnits] < MaxUnitsValue
                    then initial[SecondsUnits := initial[SecondsUnits] + 1]
                    else initial[SecondsUnits := 0][SecondsTens := initial[SecondsTens] + 1]
  {
    ghost var s0 := State(initial, 0, ticksPerSecond, true);
    OneSecondPerDivisor(s0);
    ghost var s1 := Ticks(s0, ticksPerSecond);
    var clock := new Clock();
    clock.Create(ticksPerSecond);
    var digits := new Byte[TimeSize](k requires 0 <= k < TimeSize => initial[k]);
    assert digits[..] == initial;
    clock.SetupTime(digits, TimeSize as Byte);
    assert clock.Snapshot() == s0;
    NewTicks(clock, ticksPerSecond);
    assert clock.time[..] == s1.time;
    var buffer := new Byte[TimeSize];
    ok := clock.GetTime(buffer, TimeSize as Byte);
    hora := buffer[..];
  }

  /** The clock of test_one_second_elapsed right after it is set to 12:34. */
  const TestStart: State := State([1, 2, 3, 4, 0, 0], 0, 5, true)

  /** Five ticks of that clock, one at a time. */
  lemma FiveTicksOfTestClock()
    ensures Tick(TestStart) == State([1, 2, 3, 4, 0, 0], 1, 5, true)
    ensures Tick(State([1, 2, 3, 4, 0, 0], 1, 5, true)) == State([1, 2, 3, 4, 0, 0], 2, 5, true)
    ensures Tick(State([1, 2, 3, 4, 0, 0], 2, 5, true)) == State([1, 2, 3, 4, 0, 0], 3, 5, true)
    ensures Tick(State([1, 2, 3, 4, 0, 0], 3, 5, true)) == State([1, 2, 3, 4, 0, 0], 4, 5, true)
    ensures Tick(State([1, 2, 3, 4, 0, 0], 4, 5, true)) == State([1, 2, 3, 4, 0, 1], 0, 5, true)
  {
  }

  /** Five ticks on a clock with five ticks per second, set to 12:34,
      make it read 12:34:01. */
  method OneSecondElapsed() returns (ok: bool, hora: seq<Byte>)
    ensures ok && hora == [1, 2, 3, 4, 0, 1]
  {
    var clock := new Clock();
    clock.Create(5);
    var digits := new Byte[4](k => k + 1);
    clock.SetupTime(digits, 4);
    ghost var s0 := clock.Snapshot();
    assert s0 == TestStart;
    FiveTicksOfTestClock();
    clock.NewTick();
    clock.NewTick();
    clock.NewTick();
    clock.NewTick();
    clock.NewTick();
    var buffer := new Byte[TimeSize];
    ok := clock.GetTime(buffer, TimeSize as Byte);
    hora := buffer[..];
  }
}
