/**
 The millisecond timer of linux/timer.c: 32-bit tick counts that wrap around, taken from a clock of
 seconds and nanoseconds with C's truncating division.
 */
module MsTimer {
  import opened Octets

  const TWO32: int := 0x1_0000_0000
  const GIGA: int := 1_000_000_000
  const MEGA: int := 1_000_000
  const MAX_MILLISECOND_TIMERS: nat := 1

  /** A reading of the monotonic clock. */
  datatype TimeSpec = TimeSpec(sec: nat, nsec: nat) {
    ghost predicate Valid() { nsec < GIGA }
    function Nanos(): int { sec * 1_000_000_000 + nsec }
  }

  /** Division as in C, towards zero. */
  function TruncDiv(a: int, b: int): int
    requires b > 0
  {
    if a >= 0 then a / b else -((-a) / b)
  }

  /** The expression of timeGetTime before it is cut to 32 bits. */
  function Millis(start: TimeSpec, now: TimeSpec): int {
    (now.sec - start.sec) * 1000 + TruncDiv(now.nsec - start.nsec, MEGA)
  }

  function Ticks(start: TimeSpec, now: TimeSpec): u32 {
    Millis(start, now) % TWO32
  }

  /** True elapsed milliseconds, rounded down. */
  function Elapsed(start: TimeSpec, now: TimeSpec): int {
    (now.Nanos() - start.Nanos()) / 1_000_000
  }

  /** timeGetTime runs ahead of true time by one exactly when a negative nanosecond difference is rounded. */
  lemma MillisIsElapsed(start: TimeSpec, now: TimeSpec)
    requires start.Valid() && now.Valid()
    ensures Elapsed(start, now) <= Millis(start, now) <= Elapsed(start, now) + 1
    ensures Millis(start, now) == Elapsed(start, now) + 1 <==>
            now.nsec < start.nsec && (start.nsec - now.nsec) % MEGA != 0
  {
    var d := now.nsec - start.nsec;
    var s := now.sec - start.sec;
    assert now.Nanos() - start.Nanos() == s * 1000 * MEGA + d;
    FloorAdd(s * 1000, d);
    if d < 0 {
      FloorOfNegative(-d);
    }
  }

  lemma FloorAdd(k: int, d: int)
    ensures (k * MEGA + d) / MEGA == k + d / MEGA
  {
  }

  lemma FloorOfNegative(n: int)
    requires n >= 0
    ensures (-n) / MEGA == if n % MEGA == 0 then -(n / MEGA) else -(n / MEGA) - 1
  {
  }

  /** The tick count before truncation never runs backwards. */
  lemma MillisIsMonotone(start: TimeSpec, t: TimeSpec, u: TimeSpec)
    requires start.Valid() && t.Valid() && u.Valid() && t.Nanos() <= u.Nanos()
    ensures Millis(start, t) <= Millis(start, u)
  {
    var a, b := t.nsec - start.nsec, u.nsec - start.nsec;
    TruncMonotone(a, b);
    TruncBounds(a);
    TruncBounds(b);
    if t.sec < u.sec {
      TruncWithinSecond(a, b);
    }
  }

  lemma TruncMonotone(a: int, b: int)
    ensures a <= b ==> TruncDiv(a, MEGA) <= TruncDiv(b, MEGA)
  {
  }

  lemma TruncBounds(a: int)
    requires -GIGA < a < GIGA
    ensures -999 <= TruncDiv(a, MEGA) <= 999
  {
  }

  /** Two differences taken against the same start lie less than a second apart. */
  lemma TruncWithinSecond(a: int, b: int)
    requires a - b < GIGA
    ensures TruncDiv(a, MEGA) - TruncDiv(b, MEGA) <= 1000
  {
  }

  /**
   A timer reset at t and read at u shows Ticks(u) - Ticks(t) modulo 2^32. Before wrap-around that is the
   true time between them less at most one millisecond, or more by at most two.
   */
  lemma ReportIsAccurate(start: TimeSpec, t: TimeSpec, u: TimeSpec)
    requires start.Valid() && t.Valid() && u.Valid() && t.Nanos() <= u.Nanos()
    ensures (Ticks(start, u) - Ticks(start, t)) % 0x1_0000_0000 == (Millis(start, u) - Millis(start, t)) % 0x1_0000_0000
    ensures Elapsed(t, u) - 1 <= Millis(start, u) - Millis(start, t) <= Elapsed(t, u) + 2
  {
    WrapDifference(Millis(start, u), Millis(start, t));
    MillisIsElapsed(start, t);
    MillisIsElapsed(start, u);
    var x, y := u.Nanos() - start.Nanos(), t.Nanos() - start.Nanos();
    assert u.Nanos() - t.Nanos() == x - y;
    FloorDifference(x, y);
  }

  lemma WrapDifference(x: int, y: int)
    ensures (x % TWO32 - y % TWO32) % TWO32 == (x - y) % TWO32
  {
    assert TWO32 == 0x1_0000_0000;
  }

  lemma FloorDifference(x: int, y: int)
    ensures (x - y) / MEGA <= x / MEGA - y / MEGA <= (x - y) / MEGA + 1
  {
  }

  /**
   A timer that counts from c is reset between the readings s and t and shows more at u. Together the two reports
   make up the whole time since c exactly when no tick passes between s and t; else that time is in neither.
   */
  lemma ResetLosesGap(start: TimeSpec, c: u32, s: TimeSpec, t: TimeSpec, u: TimeSpec)
    ensures var first, second := (Ticks(start, s) - c) % TWO32, (Ticks(start, u) - Ticks(start, t)) % TWO32;
            && (first + second) % TWO32 == (Ticks(start, u) - c - (Ticks(start, t) - Ticks(start, s))) % TWO32
            && ((first + second) % TWO32 == (Ticks(start, u) - c) % TWO32 <==> Ticks(start, s) == Ticks(start, t))
  {
    hide Ticks;
    Sum(Ticks(start, s) - c, Ticks(start, u) - Ticks(start, t));
    Gap(Ticks(start, u) - c, Ticks(start, t) - Ticks(start, s));
  }

  lemma Sum(x: int, y: int)
    ensures (x % TWO32 + y % TWO32) % TWO32 == (x + y) % TWO32
  {
    assert TWO32 == 0x1_0000_0000;
  }

  lemma Gap(x: int, d: int)
    requires -TWO32 < d < TWO32
    ensures (x - d) % TWO32 == x % TWO32 <==> d == 0
  {
    assert TWO32 == 0x1_0000_0000;
  }

  class Timers {
    const counter: array<u32>
    var start: TimeSpec

    ghost predicate Valid()
      reads this
    {
      counter.Length == MAX_MILLISECOND_TIMERS
    }

    constructor (now: TimeSpec)
      ensures Valid() && fresh(counter) && start == now
    {
      counter := new u32[MAX_MILLISECOND_TIMERS](_ => 0);
      start := now;
    }

    /** timer_milliseconds: both branches are the difference modulo 2^32; an unknown timer reads 0. */
    method Milliseconds(index: nat, now: TimeSpec) returns (delta: u32)
      requires Valid()
      ensures delta == if index < MAX_MILLISECOND_TIMERS
                       then (Ticks(start, now) - counter[index]) % TWO32 else 0
    {
      delta := 0;
      if index < MAX_MILLISECOND_TIMERS {
        var ticks := Ticks(start, now);
        if counter[index] <= ticks {
          delta := ticks - counter[index];
        } else {
          delta := (TWO32 - 1 - counter[index]) + ticks + 1;
        }
      }
    }

    /** timer_elapsed_milliseconds. */
    method ElapsedMilliseconds(index: nat, value: u32, now: TimeSpec) returns (elapsed: bool)
      requires Valid()
      ensures elapsed <==> (if index < MAX_MILLISECOND_TIMERS
                            then (Ticks(start, now) - counter[index]) % TWO32 else 0) >= value
    {
      var delta := Milliseconds(index, now);
      elapsed := delta >= value;
    }

    /** timer_reset: what the timer showed at a first clock reading, and it then counts on from a second one. */
    method Reset(index: nat, now: TimeSpec, restart: TimeSpec) returns (value: u32)
      requires Valid()
      modifies counter
      ensures Valid()
      ensures index < MAX_MILLISECOND_TIMERS ==>
        value == (Ticks(start, now) - old(counter[index])) % TWO32 &&
        counter[..] == old(counter[..])[index := Ticks(start, restart)]
      ensures index >= MAX_MILLISECOND_TIMERS ==> value == 0 && counter[..] == old(counter[..])
    {
      value := 0;
      if index < MAX_MILLISECOND_TIMERS {
        value := Milliseconds(index, now);
        counter[index] := Ticks(start, restart);
      }
    }
  }
}
