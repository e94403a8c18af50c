/**
 * The Programmable Interval Timer driver of kernel/arch/x86_64/timer.c.
 *
 * The statics timer_frequency, timer_ticks, timer_ms and timer_callback
 * are the fields of the class `PitTimer`; the bytes the driver sends to
 * the 8254's ports are appended to its `ports` log. Integers are unbounded
 * here, so the source's 32- and 64-bit wrap-around is written out.
 */
module Timer {
  import opened Wrappers
  import Idt

  /** The 8254's input clock, in Hz. */
  const PitFrequency: nat := 1193182
  const MinFrequency: nat := 19
  /** timer_init's upper bound. */
  const MaxTickRate: nat := 1000
  const U16: nat := 0x1_0000
  const U32: nat := 0x1_0000_0000
  const U64: nat := 0x1_0000_0000_0000_0000

  const CommandPort: nat := 0x43
  const Channel0Port: nat := 0x40
  const AccessBoth: bv8 := 0x30
  const ModeOneshot: bv8 := 0x02
  const ModeSquare: bv8 := 0x06
  /** IRQ 0 as remapped by the master PIC (offset 0x20). */
  const TimerVector: bv8 := 0x20

  /** One byte written to an I/O port. */
  datatype Out = Out(port: nat, value: byte)

  /** pit_set_frequency's clamp: into [19, 1193182], unchanged inside. */
  function ClampPit(f: nat): (r: nat)
    ensures MinFrequency <= r <= PitFrequency
    ensures MinFrequency <= f <= PitFrequency ==> r == f
  {
    if f < MinFrequency then MinFrequency else if f > PitFrequency then PitFrequency else f
  }

  /** The reload value for a requested rate. */
  function Divisor(f: nat): nat
  {
    PitFrequency / ClampPit(f)
  }

  lemma MulMonotone(x: nat, y: nat, z: nat)
    requires y <= z
    ensures x * y <= x * z
  {
  }

  lemma MulCancel(x: nat, y: nat, b: nat)
    requires x * b < y * b
    ensures x < y
  {
    if y <= x {
      MulMonotone(b, y, x);
    }
  }

  /** A larger divisor gives a smaller quotient. */
  lemma DivideMonotone(a: nat, b: nat, c: nat)
    requires 0 < b <= c
    ensures a / c <= a / b
  {
    var q := a / c;
    MulMonotone(q, b, c);
    MulCancel(q, a / b + 1, b);
  }

  /**
   * The divisor is a valid 16-bit reload value between 1 and 62799, so the
   * store into a uint16_t keeps it, and it is the largest count whose rate
   * does not exceed the request: d * f <= 1193182 < (d + 1) * f.
   */
  lemma DivisorRange(f: nat)
    ensures var d := Divisor(f);
      && 1 <= d <= 62799 && d < U16
      && d * ClampPit(f) <= PitFrequency < (d + 1) * ClampPit(f)
  {
    var c := ClampPit(f);
    DivideMonotone(PitFrequency, MinFrequency, c);
    DivideMonotone(PitFrequency, c, PitFrequency);
  }

  /** The mode/command byte: channel select in bits 7-6, both bytes, then mode. */
  function Command(channel: bv8, mode: bv8): bv8
  {
    (channel << 6) | AccessBoth | mode
  }

  /**
   * For a mode in the low nibble the command byte carries the channel in
   * bits 7-6, access "low then high" (3) in bits 5-4 and the mode in bits 3-0.
   */
  lemma CommandFields(channel: bv8, mode: bv8)
    requires channel <= 2 && mode & 0xF0 == 0
    ensures var cmd := Command(channel, mode);
      cmd >> 6 == channel && (cmd >> 4) & 3 == 3 && cmd & 0x0F == mode
  {
  }

  /** The port writes of pit_set_frequency: none for a channel above 2. */
  function PitProgram(channel: bv8, frequency: nat, mode: bv8): (r: seq<Out>)
    ensures channel > 2 <==> r == []
  {
    if channel > 2 then []
    else
      var d := Divisor(frequency);
      var port := Channel0Port + channel as nat;
      [Out(CommandPort, Command(channel, mode) as byte), Out(port, d % 256), Out(port, (d / 256) % 256)]
  }

  /**
   * On a channel 0-2 the command goes to port 0x43, then the divisor's low
   * and high bytes to the channel's data port, and the two bytes put back
   * together give the divisor.
   */
  lemma PitProgramSends(channel: bv8, frequency: nat, mode: bv8)
    requires channel <= 2
    ensures var r := PitProgram(channel, frequency, mode);
      && |r| == 3 && r[0] == Out(CommandPort, Command(channel, mode) as byte)
      && r[1].port == r[2].port == Channel0Port + channel as nat
      && r[1].value + 256 * r[2].value == Divisor(frequency)
  {
    DivisorRange(frequency);
  }

  /** timer_init's clamp: into [19, 1000], unchanged inside. */
  function ClampTick(f: nat): (r: nat)
    ensures MinFrequency <= r <= MaxTickRate
    ensures MinFrequency <= f <= MaxTickRate ==> r == f
  {
    if f < MinFrequency then MinFrequency else if f > MaxTickRate then MaxTickRate else f
  }

  /** At a rate timer_init accepts, the divisor lies in [1193, 62799]. */
  lemma TickDivisor(f: nat)
    requires MinFrequency <= f <= MaxTickRate
    ensures 1193 <= Divisor(f) <= 62799
  {
    DivisorRange(f);
    DivideMonotone(PitFrequency, f, MaxTickRate);
  }

  // ---------------------------------------------------------------------
  // Milliseconds
  // ---------------------------------------------------------------------

  /** timer_ms after a tick: whole milliseconds per tick, times the ticks. */
  function Millis(ticks: nat, f: nat): nat
    requires f != 0
  {
    (ticks * (MaxTickRate / f)) % U64
  }

  /**
   * Below the 64-bit wrap, timer_ms never runs ahead of the time that has
   * passed (ticks * 1000 / f) and is exact when f divides 1000.
   */
  lemma MillisBound(ticks: nat, f: nat)
    requires MinFrequency <= f <= MaxTickRate && ticks * MaxTickRate < U64
    ensures Millis(ticks, f) * f <= ticks * MaxTickRate
    ensures MaxTickRate % f == 0 ==> Millis(ticks, f) * f == ticks * MaxTickRate
  {
    var q := MaxTickRate / f;
    assert q * f <= MaxTickRate;
    assert ticks * q <= ticks * MaxTickRate by {
      assert q <= MaxTickRate;
    }
    assert Millis(ticks, f) == ticks * q;
    assert ticks * q * f == ticks * (q * f);
  }

  /** At 300 Hz the per-tick step is 3 ms, so one second of ticks reads 900 ms. */
  lemma MillisAt300()
    ensures Millis(300, 300) == 900
  {
  }

  // ---------------------------------------------------------------------
  // timer_wait_ms
  // ---------------------------------------------------------------------

  /** At least one tick. */
  function AtLeastOne(t: nat): nat
  {
    if t == 0 then 1 else t
  }

  /** The ticks timer_wait_ms waits, as written: ms * freq is formed in 32 bits. */
  function WaitTicksAsWritten(ms: nat, f: nat): nat
  {
    AtLeastOne(((ms * f) % U32) / MaxTickRate)
  }

  /** The ticks timer_wait_ms is meant to wait: ms * freq / 1000, at least 1. */
  function WaitTicks(ms: nat, f: nat): nat
  {
    AtLeastOne((ms * f) / MaxTickRate)
  }

  /**
   * The intended count waits at least one tick, and it is the whole number
   * of ticks in ms milliseconds: t * 1000 <= ms * f < (t + 1) * 1000
   * whenever that span is a tick or more.
   */
  lemma WaitTicksSpan(ms: nat, f: nat)
    ensures var t := WaitTicks(ms, f);
      && 1 <= t
      && (ms * f >= MaxTickRate ==> t * MaxTickRate <= ms * f < (t + 1) * MaxTickRate)
      && (ms * f < MaxTickRate ==> t == 1)
  {
  }

  /** As long as the product fits in 32 bits both counts agree. */
  lemma WaitTicksAgree(ms: nat, f: nat)
    requires ms * f < U32
    ensures WaitTicksAsWritten(ms, f) == WaitTicks(ms, f)
  {
  }

  /** Five million milliseconds at 1000 Hz: 5 000 000 ticks are meant, 705 032 are waited. */
  lemma WaitOverflowAsWritten()
    ensures WaitTicks(5000000, 1000) == 5000000
    ensures WaitTicksAsWritten(5000000, 1000) == 705032
  {
  }

  // ---------------------------------------------------------------------
  // The driver's state
  // ---------------------------------------------------------------------

  class PitTimer {
    /** timer_frequency (uint32_t), timer_ticks and timer_ms (uint64_t). */
    var frequency: nat
    var ticks: nat
    var ms: nat
    /** timer_callback, by address. */
    var callback: Option<nat>
    /** What the driver has written to the PIT's ports, in order. */
    var ports: seq<Out>

    ghost predicate Valid()
      reads this
    {
      ticks < U64 && ms < U64 && (frequency == 0 || MinFrequency <= frequency <= MaxTickRate)
    }

    constructor ()
      ensures Valid() && frequency == 0 && ticks == 0 && ms == 0 && callback == None && ports == []
    {
      frequency, ticks, ms, callback, ports := 0, 0, 0, None, [];
    }

    /** pit_set_frequency: the command and the divisor's two bytes, or nothing for a bad channel. */
    method SetFrequency(channel: bv8, f: nat, mode: bv8)
      modifies this
      ensures ports == old(ports) + PitProgram(channel, f, mode)
      ensures frequency == old(frequency) && ticks == old(ticks) && ms == old(ms) && callback == old(callback)
    {
      var g := f;
      if g < MinFrequency {
        g := MinFrequency;
      } else if g > PitFrequency {
        g := PitFrequency;
      }
      var divisor := PitFrequency / g;
      if channel > 2 {
        return;
      }
      var port := Channel0Port + channel as nat;
      var cmd: bv8 := (channel << 6) | AccessBoth | mode;
      ports := ports + [Out(CommandPort, cmd as byte)];
      ports := ports + [Out(port, divisor % 256)];
      ports := ports + [Out(port, (divisor / 256) % 256)];
    }

    /**
     * timer_handler: one more tick, timer_ms recomputed from it, and the
     * callback returned for the caller to run (None when unset).
     */
    method Handler() returns (run: Option<nat>)
      requires Valid() && frequency != 0
      modifies this
      ensures frequency == old(frequency) && callback == old(callback) && ports == old(ports)
      ensures Valid()
      ensures ticks == (old(ticks) + 1) % U64 && ms == Millis(ticks, frequency)
      ensures run == callback
    {
      ticks := (ticks + 1) % U64;
      ms := (ticks * (MaxTickRate / frequency)) % U64;
      run := callback;
    }

    /** timer_register_callback. */
    method RegisterCallback(cb: Option<nat>)
      modifies this
      ensures callback == cb
      ensures frequency == old(frequency) && ticks == old(ticks) && ms == old(ms) && ports == old(ports)
    {
      callback := cb;
    }

    /**
     * timer_init: the rate clamped to [19, 1000] is kept, channel 0 is set
     * to it in square-wave mode, and the handler (by address) is put on
     * vector 32 of the interrupt table.
     */
    method Init(f: nat, idt: Idt.IdtState, handler: nat)
      requires Valid() && idt.Valid()
      modifies this, idt.handlers
      ensures Valid() && frequency == ClampTick(f)
      ensures ports == old(ports) + PitProgram(0, frequency, ModeSquare)
      ensures ticks == old(ticks) && ms == old(ms) && callback == old(callback)
      ensures idt.handlers[..] == old(idt.handlers[..])[TimerVector as int := Some(handler)]
    {
      var g := f;
      if g < MinFrequency {
        g := MinFrequency;
      } else if g > MaxTickRate {
        g := MaxTickRate;
      }
      frequency := g;
      SetFrequency(0, g, ModeSquare);
      idt.RegisterHandler(TimerVector, Some(handler));
    }

    /** sleep_timer_init: channel 1 at 100 Hz in one-shot mode. */
    method SleepInit()
      modifies this
      ensures ports == old(ports) + PitProgram(1, 100, ModeOneshot)
      ensures frequency == old(frequency) && ticks == old(ticks) && ms == old(ms) && callback == old(callback)
    {
      SetFrequency(1, 100, ModeOneshot);
    }
  }
}
