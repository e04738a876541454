/**
 * The sending side, as the driver sees it: a line and a clock that carry a
 * given frame. Receiving them gives the frame back, so the bit loop and the
 * most-significant-first fold lose nothing.
 */
module Transmission {
  import opened Frame
  import opened SingleWire

  /**
   * A line that changes level at every sample, starting HIGH: each wait of
   * the handshake and of the bit loop ends on its first sample.
   */
  function Toggling(): nat -> Level
  {
    (k: nat) => if k % 2 == 0 then High else Low
  }

  /**
   * A clock whose readings around the high pulse of bit `i` of `f` lie `one`
   * microseconds apart for a 1 and `zero` apart for a 0, starting from
   * `start` and wrapping around at 2^32 like `micros()`.
   */
  function PulseClock(f: Frame, start: u32, one: u32, zero: u32): nat -> u32
  {
    (k: nat) =>
      if k % 2 == 1 && k / 2 < FrameBits then
        (start + (if Bit(f, k / 2) then one else zero)) % 0x1_0000_0000
      else
        start
  }

  /** The time between two readings `d` apart is `d`, across a wrap-around too. */
  lemma ElapsedAfter(start: u32, d: u32)
    ensures Elapsed(start, (start + d) % 0x1_0000_0000) == d
  {
    if start + d >= 0x1_0000_0000 {
      assert (start + d) % 0x1_0000_0000 == start + d - 0x1_0000_0000;
    }
  }

  /** The driver measures bit `i`'s pulse as `one` or `zero` microseconds long. */
  lemma PulseClockDuration(f: Frame, start: u32, one: u32, zero: u32, i: nat)
    requires i < FrameBits
    ensures Duration(PulseClock(f, start, one, zero), i) == if Bit(f, i) then one else zero
  {
    var clock, d := PulseClock(f, start, one, zero), if Bit(f, i) then one else zero;
    assert (2 * i) % 2 == 0 && (2 * i + 1) % 2 == 1 && (2 * i + 1) / 2 == i;
    assert clock(2 * i) == start;
    assert clock(2 * i + 1) == (start + d) % 0x1_0000_0000;
    ElapsedAfter(start, d);
  }

  /** On the toggling line a bit that starts at an even sample takes two samples. */
  lemma ReadBitToggling(clock: nat -> u32, m: nat, i: nat)
    ensures ReadBit(Toggling(), clock, 2 * m, i) == Got(Duration(clock, i) > Threshold, 2 * m + 2)
  {
    var line, p := Toggling(), 2 * m;
    assert p % 2 == 0 && (p + 1) % 2 == 1;
    assert line(p) == High && line(p + 1) == Low;
    assert SpinWhile(line, p, Low, BitBudget) == Changed(p + 1, BitBudget);
    assert SpinWhile(line, p + 1, High, BitBudget) == Changed(p + 2, BitBudget);
  }

  /** On the toggling line every bit is received two samples after the last. */
  lemma {:induction false} ReadBitsToggling(clock: nat -> u32, n: nat)
    ensures ReadBits(Toggling(), clock, 2, n).Got?
    ensures ReadBits(Toggling(), clock, 2, n).next == 2 + 2 * n
    decreases n
  {
    if n > 0 {
      var line := Toggling();
      ReadBitsToggling(clock, n - 1);
      var bs := ReadBits(line, clock, 2, n - 1).value;
      assert ReadBits(line, clock, 2, n - 1) == Got(bs, 2 * n);
      ReadBitToggling(clock, n, n - 1);
      var b := Duration(clock, n - 1) > Threshold;
      assert ReadBit(line, clock, 2 * n, n - 1) == Got(b, 2 * n + 2);
      assert ReadBits(line, clock, 2, n) == Got(bs + [b], 2 * n + 2);
    }
  }

  /**
   * Round trip: whatever 5 bytes the sensor sends, as long pulses (over 50
   * microseconds) for 1 and short ones (at most 50) for 0, the driver
   * receives exactly those 5 bytes, whatever the clock reads when it starts.
   */
  lemma ReceiveSent(f: Frame, start: u32, one: u32, zero: u32)
    requires one > Threshold && zero <= Threshold
    ensures Receive(Toggling(), PulseClock(f, start, one, zero)) == Some(f)
  {
    var line, clock := Toggling(), PulseClock(f, start, one, zero);
    assert SpinWhile(line, 0, Low, AckBudget) == Changed(1, AckBudget);
    assert SpinWhile(line, 1, High, ReleaseBudget) == Changed(2, ReleaseBudget);
    ReadBitsToggling(clock, FrameBits);
    var r := Receive(line, clock);
    ReceivedBits(line, clock);
    forall i | 0 <= i < FrameBits
      ensures Bit(r.value, i) <==> Bit(f, i)
    {
      PulseClockDuration(f, start, one, zero, i);
    }
    FrameFromBits(r.value, f);
  }
}
